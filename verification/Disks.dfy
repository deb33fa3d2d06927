/** Disks, as a client of tracked attributes: what is written, and when nothing needs to be. */
module Disks {
  import opened Wrappers
  import opened MarkUpdate

  datatype DiskAttr =
    | HostId | Path | Description | DiskInDb
    | EntityId | CreatedAt | EntityType | EntityInDb

  datatype Value = Nothing | Number(n: int) | Text(s: string) | Flag(b: bool)

  const DISK := ClassDef([DiskInDb], [HostId, Path, Description], [])
  const ENTITY := ClassDef([EntityInDb, EntityId, CreatedAt], [EntityType], [])

  const ENTITY_DISK := Number(1)

  /** A row of disk_info. */
  datatype Row = Row(hostId: Value, path: Value, description: Value)

  ghost predicate HasRow(attrs: map<DiskAttr, Value>) {
    HostId in attrs && Path in attrs && Description in attrs
  }

  ghost function RowOf(attrs: map<DiskAttr, Value>): Row
    requires HasRow(attrs)
  {
    Row(attrs[HostId], attrs[Path], attrs[Description])
  }

  /** Columns that are NULL, none of which may be. */
  predicate Incomplete(row: Row) {
    row.hostId == Nothing || row.path == Nothing || row.description == Nothing
  }

  /** The table lets the disk have the row: it is complete, and no other disk has its path. */
  predicate Allowed(diskInfo: map<int, Row>, id: int, row: Row) {
    !Incomplete(row) && forall other :: other in diskInfo && other != id ==> diskInfo[other].path != row.path
  }

  datatype Refused = ConstraintViolated

  class DiskDb {
    var entityInfo: set<int>
    var diskInfo: map<int, Row>
    var nextId: int

    ghost predicate Valid()
      reads this
    {
      && (forall id :: id in entityInfo ==> id < nextId)
      && (forall id :: id in diskInfo ==> id in entityInfo && Allowed(diskInfo, id, diskInfo[id]))
    }

    constructor ()
      ensures Valid() && entityInfo == {} && diskInfo == map[]
    {
      entityInfo, diskInfo, nextId := {}, map[], 0;
    }
  }

  datatype Found = IsFound | NotFound | ReadOnly

  class Disk {
    const m: Tracked<DiskAttr, Value>
    const db: DiskDb

    ghost predicate Valid()
      reads this, m, db
    {
      m.Valid() && db.Valid() && m.classes == [DISK, ENTITY]
    }

    /** Not associated with a disk, in the database or out of it. */
    ghost predicate Unbound()
      reads this, m
    {
      && EntityId !in m.attrs && CreatedAt !in m.attrs && DiskInDb !in m.attrs && EntityInDb !in m.attrs
      && (EntityType in m.attrs ==> m.attrs[EntityType] == Nothing)
      && |m.updated| == 2 && m.updated[1] == []
      && HasRow(m.attrs)
    }

    /** Populated, and not written yet. */
    ghost predicate New()
      reads this, m
    {
      && |m.updated| == 2 && m.updated[1] != []
      && EntityType in m.attrs && m.attrs[EntityType] == ENTITY_DISK
      && EntityId !in m.attrs && CreatedAt !in m.attrs
      && DiskInDb in m.attrs && m.attrs[DiskInDb] == Flag(false)
      && EntityInDb in m.attrs && m.attrs[EntityInDb] == Flag(false)
      && HasRow(m.attrs)
    }

    /** The row in the database is as the attributes were at the last flush. */
    ghost predicate Bound()
      reads this, m, db
    {
      && |m.updated| == |m.flushed| == 2 && m.updated[1] == []
      && EntityType in m.attrs && m.attrs[EntityType] == ENTITY_DISK
      && DiskInDb in m.attrs && m.attrs[DiskInDb] == Flag(true)
      && EntityInDb in m.attrs && m.attrs[EntityInDb] == Flag(true)
      && EntityId in m.attrs && m.attrs[EntityId].Number? && m.attrs[EntityId].n in db.diskInfo
      && HasRow(m.attrs) && HasRow(m.flushed[0])
      && db.diskInfo[m.attrs[EntityId].n] == RowOf(m.flushed[0])
    }

    constructor (db: DiskDb)
      requires db.Valid()
      ensures Valid() && Unbound() && this.db == db && fresh(m)
      ensures m.updated == [[], []] && RowOf(m.attrs) == Row(Nothing, Nothing, Nothing)
    {
      m := new Tracked([DISK, ENTITY]);
      this.db := db;
      new;
      Clear();
    }

    method Clear()
      requires Valid()
      modifies m
      ensures Valid() && Unbound() && m.updated == [[], []]
      ensures RowOf(m.attrs) == Row(Nothing, Nothing, Nothing)
    {
      ClearEntity();
      assert !m.Clears(0, EntityInDb) && !m.Clears(0, EntityId) && !m.Clears(0, CreatedAt) && !m.Clears(0, EntityType);
      assert m.Clears(0, DiskInDb) && m.Clears(0, HostId) && m.Clears(0, Path) && m.Clears(0, Description);
      assert m.OwnsWritable(0) && m.Settable(HostId) && m.Settable(Path) && m.Settable(Description);
      m.ClearClass(0, Nothing);
      m.Flush(0);
    }

    /** The part of `clear` that concerns the entity. */
    method ClearEntity()
      requires Valid()
      modifies m
      ensures Valid() && |m.updated| == 2 && m.updated[1] == []
      ensures EntityId !in m.attrs && CreatedAt !in m.attrs && EntityInDb !in m.attrs
      ensures EntityType in m.attrs && m.attrs[EntityType] == Nothing
    {
      assert m.Clears(1, EntityInDb) && m.Clears(1, EntityId) && m.Clears(1, CreatedAt) && m.Clears(1, EntityType);
      assert m.Settable(EntityType);
      m.ClearClass(1, Nothing);
      m.Flush(1);
    }

    /** Assign all of the disk's own attributes. */
    method AssignAll(row: Row)
      requires Valid()
      modifies m
      ensures Valid() && HasRow(m.attrs) && RowOf(m.attrs) == row
      ensures m.attrs == old(m.attrs)[HostId := row.hostId][Path := row.path][Description := row.description]
      ensures old(New()) ==> New()
      ensures old(Bound()) ==> Bound()
      ensures m.updated[0] == [] <==> old(m.updated[0]) == [] && old(HasRow(m.attrs)) && old(RowOf(m.attrs)) == row
      ensures |m.updated| == 2 && m.updated[1] == old(m.updated[1]) && m.flushed == old(m.flushed)
    {
      Assign(HostId, row.hostId);
      Assign(Path, row.path);
      Assign(Description, row.description);
    }

    /** Assign one of the disk's own attributes. */
    method Assign(a: DiskAttr, v: Value)
      requires Valid() && a in DISK.writeAttrs
      modifies m
      ensures Valid() && m.attrs == old(m.attrs)[a := v]
      ensures old(New()) ==> New()
      ensures old(Bound()) ==> Bound()
      ensures m.updated[0] == [] <==> old(m.updated[0]) == [] && a in old(m.attrs) && old(m.attrs)[a] == v
      ensures |m.updated| == 2 && m.updated[1] == old(m.updated[1]) && m.flushed == old(m.flushed)
    {
      var ok := m.SetAttr(a, v);
    }

    /** Assign a read-only attribute; false if it has a value. */
    method SetOnce(a: DiskAttr, v: Value) returns (ok: bool)
      requires Valid() && (a in DISK.readAttrs || a in ENTITY.readAttrs)
      modifies m
      ensures Valid() && ok == (a !in old(m.attrs))
      ensures m.attrs == (if ok then old(m.attrs)[a := v] else old(m.attrs))
      ensures m.updated == old(m.updated) && m.flushed == old(m.flushed)
    {
      ok := m.SetAttr(a, v);
    }

    method SetType()
      requires Valid()
      modifies m
      ensures Valid() && m.attrs == old(m.attrs)[EntityType := ENTITY_DISK] && m.flushed == old(m.flushed)
      ensures |m.updated| == 2 && m.updated[0] == old(m.updated[0])
      ensures m.updated[1] == if EntityType in old(m.attrs) && old(m.attrs)[EntityType] == ENTITY_DISK
                              then old(m.updated[1]) else old(m.updated[1]) + [EntityType]
    {
      var ok := m.SetAttr(EntityType, ENTITY_DISK);
    }

    /** Set the mark that an object of a class is, or is not, in the database. */
    method MarkInDb(mark: DiskAttr, v: bool)
      requires Valid() && (mark == DiskInDb || mark == EntityInDb)
      modifies m
      ensures Valid() && m.attrs == old(m.attrs)[mark := Flag(v)]
      ensures m.updated == old(m.updated) && m.flushed == old(m.flushed)
    {
      m.DelAttr(mark);
      var ok := SetOnce(mark, Flag(v));
      assert ok;
    }

    /** The part of `find` that concerns the entity. */
    method FindEntity(id: int) returns (r: Found)
      requires Valid()
      modifies m
      ensures Valid()
      ensures r == (if id !in db.entityInfo then NotFound
                    else if EntityId in old(m.attrs) || CreatedAt in old(m.attrs) then ReadOnly
                    else IsFound)
      ensures |m.updated| == |m.flushed| == 2 && m.updated[0] == old(m.updated[0]) && m.flushed[0] == old(m.flushed[0])
      ensures r == IsFound ==>
                && m.updated[1] == []
                && m.attrs == old(m.attrs)[EntityId := Number(id)][EntityType := ENTITY_DISK]
                                          [CreatedAt := Nothing][EntityInDb := Flag(true)]
    {
      if id !in db.entityInfo {
        return NotFound;
      }
      var ok := SetOnce(EntityId, Number(id));
      if !ok {
        return ReadOnly;
      }
      SetType();
      ok := SetOnce(CreatedAt, Nothing);
      if !ok {
        return ReadOnly;
      }
      MarkInDb(EntityInDb, true);
      m.Flush(1);
      return IsFound;
    }

    /**
     Get the attributes from the database.  An object that is associated with a
     disk already has to be cleared first: its id is read-only.
     */
    method Find(id: int) returns (r: Found)
      requires Valid()
      modifies m
      ensures Valid()
      ensures r == (if id !in db.entityInfo then NotFound
                    else if EntityId in old(m.attrs) || CreatedAt in old(m.attrs) then ReadOnly
                    else if id !in db.diskInfo then NotFound
                    else IsFound)
      ensures r == IsFound ==>
                && Bound() && m.attrs[EntityId] == Number(id) && RowOf(m.attrs) == db.diskInfo[id]
                && m.updated[0] == []
    {
      r := FindEntity(id);
      if r != IsFound {
        return;
      }
      if id !in db.diskInfo {
        return NotFound;
      }
      AssignAll(db.diskInfo[id]);
      MarkInDb(DiskInDb, true);
      m.Flush(0);
    }

    /** The part of `populate` that concerns the entity. */
    method PopulateEntity() returns (ok: bool)
      requires Valid() && (Unbound() || New() || Bound())
      modifies m
      ensures Valid() && ok == !old(New()) && m.flushed == old(m.flushed)
      ensures |m.updated| == 2 && m.updated[0] == old(m.updated[0])
      ensures !ok || old(Bound()) ==> m.attrs == old(m.attrs) && m.updated == old(m.updated)
      ensures old(Unbound()) ==>
                && m.attrs == old(m.attrs)[EntityInDb := Flag(false)][EntityType := ENTITY_DISK]
                && m.updated[1] != []
    {
      if EntityInDb in m.attrs {
        if m.attrs[EntityInDb] == Flag(false) {
          return false;
        }
      } else {
        var _ := SetOnce(EntityInDb, Flag(false));
      }
      SetType();
      return true;
    }

    /** Set the attributes; fails for an object that was populated and not written. */
    method Populate(hostId: Value, path: Value, description: Value) returns (ok: bool)
      requires Valid() && (Unbound() || New() || Bound())
      modifies m
      ensures Valid() && ok == !old(New())
      ensures ok ==> HasRow(m.attrs) && RowOf(m.attrs) == Row(hostId, path, description)
      ensures old(Unbound()) ==> New()
      ensures old(Unbound()) ==>
                (m.updated[0] == [] <==> old(m.updated[0]) == [] && old(RowOf(m.attrs)) == Row(hostId, path, description))
      ensures old(Bound()) ==> Bound() && m.attrs[EntityId] == old(m.attrs[EntityId])
    {
      ok := PopulateEntity();
      if !ok {
        return;
      }
      if DiskInDb !in m.attrs {
        var _ := SetOnce(DiskInDb, Flag(false));
      }
      AssignAll(Row(hostId, path, description));
    }

    /** The part of `write_db` that concerns the entity: a new one gets an id. */
    method WriteEntity()
      requires Valid() && (New() || Bound())
      modifies m, db
      ensures Valid() && db.diskInfo == old(db.diskInfo) && old(db.entityInfo) <= db.entityInfo
      ensures |m.updated| == |m.flushed| == 2 && m.updated[0] == old(m.updated[0]) && m.flushed[0] == old(m.flushed[0])
      ensures m.updated[1] == []
      ensures old(Bound()) ==> m.attrs == old(m.attrs)
      ensures old(New()) ==>
                var id := old(db.nextId);
                && m.attrs == old(m.attrs)[EntityId := Number(id)][CreatedAt := Nothing][EntityInDb := Flag(true)]
                && db.entityInfo == old(db.entityInfo) + {id} && id !in old(db.entityInfo)
    {
      if m.updated[1] == [] {
        return;
      }
      var id := db.nextId;
      db.nextId := id + 1;
      db.entityInfo := db.entityInfo + {id};
      var ok := SetOnce(EntityId, Number(id));
      ok := SetOnce(CreatedAt, Nothing);
      MarkInDb(EntityInDb, true);
      m.Flush(1);
    }

    /** With nothing noted as changed, the attributes are as they were at the last flush. */
    lemma NothingChanged()
      requires Valid() && Bound() && m.updated[0] == []
      ensures RowOf(m.attrs) == RowOf(m.flushed[0])
    {
      forall a | a in DISK.writeAttrs ensures !m.Changed(0, a) {
        assert Owner(m.classes, a, 0) == 0;
        assert a !in m.updated[0];
      }
      assert HostId in DISK.writeAttrs && Path in DISK.writeAttrs && Description in DISK.writeAttrs;
    }

    /** The statement for the row, unless the row is there already as it is. */
    method WriteRow(id: int, row: Row, inDb: bool) returns (ok: bool)
      requires db.Valid() && id in db.entityInfo && (inDb ==> id in db.diskInfo)
      modifies db`diskInfo
      ensures db.Valid() && ok == Allowed(old(db.diskInfo), id, row)
      ensures db.diskInfo == if ok then old(db.diskInfo)[id := row] else old(db.diskInfo)
    {
      if inDb && !Incomplete(row) && db.diskInfo[id] == row {
        assert db.diskInfo[id := row] == db.diskInfo;
        return true;
      }
      ok := Allowed(db.diskInfo, id, row);
      if ok {
        db.diskInfo := db.diskInfo[id := row];
      }
    }

    /**
     Write what has changed.  A disk in the database is in it with its current
     attributes afterwards, also when nothing was written.  A new one is
     inserted, under a new id, unless populating it changed none of its
     attributes.  A row that the table does not allow is refused.
     */
    method WriteDb() returns (r: Result<Option<bool>, Refused>)
      requires Valid() && (New() || Bound())
      modifies m, db
      ensures Valid()
      ensures HasRow(m.attrs) && RowOf(m.attrs) == old(RowOf(m.attrs))
      ensures old(Bound()) ==> Bound() && m.attrs[EntityId] == old(m.attrs[EntityId])
      ensures old(New()) ==>
                && EntityId in m.attrs && m.attrs[EntityId].Number?
                && db.entityInfo == old(db.entityInfo) + {m.attrs[EntityId].n} && m.attrs[EntityId].n !in old(db.entityInfo)
      ensures r.Err? <==>
                && old(m.updated[0]) != []
                && (|| m.attrs[HostId] == Nothing || m.attrs[Path] == Nothing || m.attrs[Description] == Nothing
                    || exists id :: id in old(db.diskInfo) && id != m.attrs[EntityId].n
                                    && old(db.diskInfo)[id].path == m.attrs[Path])
      ensures r.Ok? ==> r.value == if old(m.updated[0]) == [] then None else Some(old(New()))
      ensures r.Ok? && (r.value.Some? || old(Bound())) ==>
                && Bound() && m.updated[0] == []
                && db.diskInfo == old(db.diskInfo)[m.attrs[EntityId].n := RowOf(m.attrs)]
      ensures r.Err? || r.value.None? ==> db.diskInfo == old(db.diskInfo)
    {
      WriteEntity();
      if m.updated[0] == [] {
        if old(Bound()) {
          NothingChanged();
        }
        return Ok(None);
      }
      var inDb := m.attrs[DiskInDb] == Flag(true);
      var id := m.attrs[EntityId].n;
      var row := Row(m.attrs[HostId], m.attrs[Path], m.attrs[Description]);
      var ok := WriteRow(id, row, inDb);
      if !ok {
        return Err(ConstraintViolated);
      }
      MarkInDb(DiskInDb, true);
      m.Flush(0);
      return Ok(Some(!inDb));
    }
  }

  /** A disk populated with nothing gets an id, but no row. */
  method EmptyDiskIsNotInserted() returns (db: DiskDb, r: Result<Option<bool>, Refused>)
    ensures db.Valid() && r == Ok(None) && db.diskInfo == map[] && db.entityInfo != {}
  {
    db := new DiskDb();
    var disk := new Disk(db);
    var ok := disk.Populate(Nothing, Nothing, Nothing);
    r := disk.WriteDb();
  }

  function WithAttr(row: Row, a: DiskAttr, v: Value): Row {
    match a
    case HostId => row.(hostId := v)
    case Path => row.(path := v)
    case Description => row.(description := v)
    case _ => row
  }

  /**
   What is assigned to a disk that was found is found again after it was written,
   and nothing else has changed, unless the table refuses it.
   */
  method FindAssignWriteFind(disk: Disk, id: int, a: DiskAttr, v: Value) returns (r: Result<Found, Refused>)
    requires disk.Valid() && disk.Unbound() && id in disk.db.diskInfo && a in DISK.writeAttrs
    modifies disk.m, disk.db
    ensures disk.Valid()
    ensures var row := WithAttr(old(disk.db.diskInfo[id]), a, v);
            if Allowed(old(disk.db.diskInfo), id, row) then
              && r == Ok(IsFound) && disk.Bound()
              && disk.m.attrs[EntityId] == Number(id) && RowOf(disk.m.attrs) == row
              && disk.db.diskInfo == old(disk.db.diskInfo)[id := row]
            else
              r == Err(ConstraintViolated) && disk.db.diskInfo == old(disk.db.diskInfo)
  {
    var found := disk.Find(id);
    disk.Assign(a, v);
    var written := disk.WriteDb();
    if written.Err? {
      return Err(ConstraintViolated);
    }
    disk.Clear();
    found := disk.Find(id);
    return Ok(found);
  }

  /** A disk that was populated and inserted is found as it was populated. */
  method PopulateWriteFind(disk: Disk, hostId: Value, path: Value, description: Value)
    returns (r: Result<Found, Refused>)
    requires disk.Valid() && disk.Unbound() && disk.m.updated[0] == [] && RowOf(disk.m.attrs) == Row(Nothing, Nothing, Nothing)
    requires !Incomplete(Row(hostId, path, description))
    modifies disk.m, disk.db
    ensures disk.Valid()
    ensures var row := Row(hostId, path, description);
            if exists id :: id in old(disk.db.diskInfo) && old(disk.db.diskInfo)[id].path == path then
              r == Err(ConstraintViolated) && disk.db.diskInfo == old(disk.db.diskInfo)
            else
              && r == Ok(IsFound) && disk.Bound() && RowOf(disk.m.attrs) == row
              && disk.m.attrs[EntityId].n !in old(disk.db.entityInfo)
              && disk.db.diskInfo == old(disk.db.diskInfo)[disk.m.attrs[EntityId].n := row]
  {
    var ok := disk.Populate(hostId, path, description);
    var written := disk.WriteDb();
    if written.Err? {
      return Err(ConstraintViolated);
    }
    var id := disk.m.attrs[EntityId].n;
    disk.Clear();
    var found := disk.Find(id);
    return Ok(found);
  }
}
