/**
 Tables whose rows belong to a source system, and the two ways in which an
 entity's rows of one source are brought in line with what was populated:
 as a whole (contact information, addresses), or for the types that were
 declared as affected (external ids, person names).
 */
module DiffSync {
  import opened Wrappers
  import opened Sets

  /** Primary key of a row: its source system and its place within that source. */
  datatype Key<K> = Key(source: int, place: K)

  ghost function Slice<K, V>(rows: map<Key<K>, V>, source: int): map<K, V> {
    map k | k in rows && k.source == source :: k.place := rows[k]
  }

  ghost function Others<K, V>(rows: map<Key<K>, V>, source: int): map<Key<K>, V> {
    map k | k in rows && k.source != source :: rows[k]
  }

  lemma SliceAt<K, V>(rows: map<Key<K>, V>, source: int, p: K)
    ensures p in Slice(rows, source) <==> Key(source, p) in rows
    ensures p in Slice(rows, source) ==> Slice(rows, source)[p] == rows[Key(source, p)]
  {
    if Key(source, p) in rows {
      assert Key(source, p).place == p;
    }
  }

  /** The places where `b` has an entry that `a` lacks or has differently. */
  ghost function Differing<K, V>(a: map<K, V>, b: map<K, V>): set<K> {
    set p | p in b && !(p in a && a[p] == b[p])
  }

  /** The places where `b` has the same entry as `a`. */
  ghost function Right<K, V>(a: map<K, V>, b: map<K, V>): set<K> {
    set p | p in b && p in a && a[p] == b[p]
  }

  lemma DeleteInSlice<K, V>(rows: map<Key<K>, V>, source: int, p: K)
    ensures Slice(rows - {Key(source, p)}, source) == Slice(rows, source) - {p}
    ensures Others(rows - {Key(source, p)}, source) == Others(rows, source)
  {
    var less := rows - {Key(source, p)};
    forall k | k in rows && k.source == source ensures k in less <==> k.place != p {
      assert k == Key(source, k.place);
    }
  }

  lemma WriteInSlice<K, V>(rows: map<Key<K>, V>, source: int, p: K, v: V)
    ensures Slice(rows[Key(source, p) := v], source) == Slice(rows, source)[p := v]
    ensures Others(rows[Key(source, p) := v], source) == Others(rows, source)
  {
    var more := rows[Key(source, p) := v];
    forall k | k in more && k.source == source ensures more[k] == if k.place == p then v else rows[k] {
      assert k == Key(source, k.place);
    }
    assert Key(source, p).place == p;
    assert Slice(more, source).Keys == Slice(rows, source).Keys + {p};
  }

  /** Rows that agree in one source and in all others agree. */
  lemma SameRows<K, V>(rows: map<Key<K>, V>, rows': map<Key<K>, V>, source: int)
    requires Slice(rows', source) == Slice(rows, source) && Others(rows', source) == Others(rows, source)
    ensures rows' == rows
  {
    forall k | k in rows ensures k in rows' && rows'[k] == rows[k] {
      SliceAt(rows, source, k.place);
      SliceAt(rows', source, k.place);
      assert k.source != source ==> k in Others(rows, source) && Others(rows, source)[k] == rows[k];
      assert k.source == source ==> k == Key(source, k.place);
    }
    forall k | k in rows' ensures k in rows {
      SliceAt(rows, source, k.place);
      SliceAt(rows', source, k.place);
      assert k.source != source ==> k in Others(rows', source);
      assert k.source == source ==> k == Key(source, k.place);
    }
  }

  /** What a write of `data` for the source does to the rows, and which of them it deletes and adds. */
  ghost predicate Wrote<K, V>(rows: map<Key<K>, V>, rows': map<Key<K>, V>, source: int, data: map<K, V>,
                              deleted: set<K>, added: set<K>)
  {
    && Slice(rows', source) == data
    && Others(rows', source) == Others(rows, source)
    && deleted == Differing(data, Slice(rows, source))
    && added == Differing(Slice(rows, source), data)
  }

  /** A second write of the same data deletes and adds nothing, and leaves all rows as they are. */
  lemma SecondWriteIsIdle<K, V>(rows: map<Key<K>, V>, rows': map<Key<K>, V>, rows'': map<Key<K>, V>, source: int,
                                data: map<K, V>, deleted: set<K>, added: set<K>, deleted': set<K>, added': set<K>)
    requires Wrote(rows, rows', source, data, deleted, added) && Wrote(rows', rows'', source, data, deleted', added')
    ensures deleted' == added' == {} && rows'' == rows'
  {
    SameRows(rows', rows'', source);
  }

  /** One more entry of `m` on top of `base`. */
  lemma OneMore<K, V>(base: map<K, V>, m: map<K, V>, left: set<K>, p: K)
    requires left <= m.Keys && p in left
    ensures base + (m - (left - {p})) == (base + (m - left))[p := m[p]]
  {
  }

  class SourceTable<K(==), V(==)> {
    /** How a value is stored: `populate` may drop what it takes to be empty. */
    const norm: V -> V
    var rows: map<Key<K>, V>
    /** The source that is being populated, and the data for it so far. */
    var srcSys: Option<int>
    var data: map<K, V>

    constructor (norm: V -> V)
      ensures this.norm == norm && rows == map[] && srcSys == None && data == map[]
    {
      this.norm, rows, srcSys, data := norm, map[], None, map[];
    }

    method Clear()
      modifies this`srcSys, this`data
      ensures srcSys == None && data == map[]
    {
      srcSys, data := None, map[];
    }

    /** Fails when another source is being populated; an entry is optional. */
    method Populate(source: int, entry: Option<(K, V)>) returns (ok: bool)
      modifies this`srcSys, this`data
      ensures ok == (old(srcSys).None? || old(srcSys).value == source)
      ensures srcSys == if ok then Some(source) else old(srcSys)
      ensures data == if ok && entry.Some? then old(data)[entry.value.0 := norm(entry.value.1)] else old(data)
    {
      if srcSys.None? {
        srcSys := Some(source);
      } else if srcSys.value != source {
        return false;
      }
      if entry.Some? {
        data := data[entry.value.0 := norm(entry.value.1)];
      }
      return true;
    }

    method DeleteRow(source: int, p: K)
      modifies this`rows
      ensures Slice(rows, source) == old(Slice(rows, source)) - {p}
      ensures Others(rows, source) == old(Others(rows, source))
    {
      DeleteInSlice(rows, source, p);
      rows := rows - {Key(source, p)};
    }

    /** An INSERT; there must not be such a row yet. */
    method AddRow(source: int, p: K, v: V)
      requires p !in Slice(rows, source)
      modifies this`rows
      ensures Slice(rows, source) == old(Slice(rows, source))[p := v]
      ensures Others(rows, source) == old(Others(rows, source))
    {
      WriteInSlice(rows, source, p, v);
      rows := rows[Key(source, p) := v];
    }

    /** Delete the rows that are not as populated; what they leave to be added is returned. */
    method DeleteStale(src: int) returns (left: map<K, V>, deleted: set<K>)
      modifies this`rows
      ensures Others(rows, src) == old(Others(rows, src))
      ensures deleted == Differing(data, old(Slice(rows, src)))
      ensures Slice(rows, src) == old(Slice(rows, src)) - deleted
      ensures left == data - Right(data, old(Slice(rows, src)))
    {
      left, deleted := data, {};
      ghost var was := Slice(rows, src);
      var unread := set k | k in rows && k.source == src :: k.place;
      assert unread == was.Keys;
      while unread != {}
        invariant unread <= was.Keys && deleted !! unread
        invariant Others(rows, src) == old(Others(rows, src))
        invariant Slice(rows, src) == was - deleted
        invariant deleted == Differing(data, was) - unread
        invariant left == data - (Right(data, was) - unread)
      {
        ghost var _ := HasMember(unread);
        var p :| p in unread;
        SliceAt(rows, src, p);
        if p in left && left[p] == rows[Key(src, p)] {
          left := left - {p};
        } else {
          DeleteRow(src, p);
          deleted := deleted + {p};
        }
        unread := unread - {p};
      }
    }

    method AddMissing(src: int, left: map<K, V>) returns (added: set<K>)
      requires left.Keys !! Slice(rows, src).Keys
      modifies this`rows
      ensures Others(rows, src) == old(Others(rows, src))
      ensures Slice(rows, src) == old(Slice(rows, src)) + left && added == left.Keys
    {
      added := {};
      ghost var kept := Slice(rows, src);
      var todo := left.Keys;
      while todo != {}
        invariant todo <= left.Keys && added == left.Keys - todo
        invariant Others(rows, src) == old(Others(rows, src))
        invariant Slice(rows, src) == kept + (left - todo)
      {
        ghost var _ := HasMember(todo);
        var p :| p in todo;
        OneMore(kept, left, todo, p);
        AddRow(src, p, left[p]);
        added := added + {p};
        todo := todo - {p};
      }
      assert left - todo == left;
    }

    /**
     Make the rows of the populated source equal to the populated data.  Rows
     that are right already are neither deleted nor added.
     */
    method WriteDb() returns (deleted: set<K>, added: set<K>)
      modifies this`rows
      ensures srcSys.None? ==> rows == old(rows) && deleted == {} && added == {}
      ensures srcSys.Some? ==> Wrote(old(rows), rows, srcSys.value, data, deleted, added)
    {
      deleted, added := {}, {};
      if srcSys.Some? {
        var left: map<K, V>;
        left, deleted := DeleteStale(srcSys.value);
        added := AddMissing(srcSys.value, left);
      }
    }
  }

  /** The entries at the given places come from `info`, all others stay. */
  ghost function Overlaid<K, V>(was: map<K, V>, info: map<K, V>, places: set<K>): map<K, V> {
    (was - places) + map p | p in places && p in info :: info[p]
  }

  /** The entry at `p` is not what it is to be. */
  ghost predicate Wrong<K, V>(was: map<K, V>, info: map<K, V>, p: K) {
    !((p in info <==> p in was) && (p in info ==> was[p] == info[p]))
  }

  ghost function WrongAt<K, V>(was: map<K, V>, info: map<K, V>, places: set<K>): set<K> {
    set p | p in places && Wrong(was, info, p)
  }

  ghost function SetOf<K>(s: seq<K>): set<K> {
    set p | p in s
  }

  lemma SetOfMore<K>(s: seq<K>, i: nat)
    requires i < |s|
    ensures SetOf(s[..i + 1]) == SetOf(s[..i]) + {s[i]}
  {
    assert s[..i + 1] == s[..i] + [s[i]];
  }

  /** Overlaying one more place. */
  lemma OverlaidMore<K, V>(was: map<K, V>, info: map<K, V>, done: set<K>, p: K)
    ensures Overlaid(Overlaid(was, info, done), info, {p}) == Overlaid(was, info, done + {p})
  {
    var once, twice := Overlaid(was, info, done), Overlaid(was, info, done + {p});
    assert Overlaid(once, info, {p}).Keys == twice.Keys;
  }

  /** Overlaying one place writes its entry or removes it, or changes nothing where it is right. */
  lemma OverlaidAtOne<K, V>(was: map<K, V>, info: map<K, V>, p: K)
    ensures Overlaid(was, info, {p}) == if p in info then was[p := info[p]] else was - {p}
    ensures !Wrong(was, info, p) ==> Overlaid(was, info, {p}) == was
  {
    var m := Overlaid(was, info, {p});
    assert p in info ==> m.Keys == was.Keys + {p};
  }

  lemma WrongOnce<K, V>(was: map<K, V>, info: map<K, V>, done: set<K>, p: K)
    ensures Wrong(Overlaid(was, info, done), info, p) <==> p !in done && Wrong(was, info, p)
  {
  }

  lemma WrongMore<K, V>(was: map<K, V>, info: map<K, V>, done: set<K>, p: K)
    ensures WrongAt(was, info, done + {p})
            == if p !in done && Wrong(was, info, p) then WrongAt(was, info, done) + {p} else WrongAt(was, info, done)
  {
  }

  /** What a write of `info` at some places of the source does to the rows, and where it changes them. */
  ghost predicate WroteAt<K, V>(rows: map<Key<K>, V>, rows': map<Key<K>, V>, source: int, places: set<K>,
                                info: map<K, V>, changed: set<K>)
  {
    && Slice(rows', source) == Overlaid(Slice(rows, source), info, places)
    && Others(rows', source) == Others(rows, source)
    && changed == WrongAt(Slice(rows, source), info, places)
  }

  /** A second write at the same places changes nothing. */
  lemma SecondWriteAtIsIdle<K, V>(rows: map<Key<K>, V>, rows': map<Key<K>, V>, rows'': map<Key<K>, V>, source: int,
                                  places: set<K>, info: map<K, V>, changed: set<K>, changed': set<K>)
    requires WroteAt(rows, rows', source, places, info, changed)
    requires WroteAt(rows', rows'', source, places, info, changed')
    ensures changed' == {} && rows'' == rows'
  {
    var was := Slice(rows, source);
    forall p | p in places ensures !Wrong(Overlaid(was, info, places), info, p) {
      WrongOnce(was, info, places, p);
    }
    assert Overlaid(Overlaid(was, info, places), info, places).Keys == Overlaid(was, info, places).Keys;
    SameRows(rows', rows'', source);
  }

  /** Rows of a source that are written place by place, for the places declared as affected. */
  class AffectedTable<K(==), V(==)> {
    var rows: map<Key<K>, V>
    var affected: Option<(int, seq<K>)>
    var info: map<K, V>

    constructor ()
      ensures rows == map[] && affected == None && info == map[]
    {
      rows, affected, info := map[], None, map[];
    }

    method Clear()
      modifies this`affected, this`info
      ensures affected == None && info == map[]
    {
      affected, info := None, map[];
    }

    method Affect(source: int, places: seq<K>)
      modifies this`affected
      ensures affected == Some((source, places))
    {
      affected := Some((source, places));
    }

    /** Fails unless the source, and with `strict` the place too, has been declared as affected. */
    method Populate(source: int, p: K, v: V, strict: bool) returns (ok: bool)
      modifies this`info
      ensures ok <==> affected.Some? && affected.value.0 == source && (strict ==> p in affected.value.1)
      ensures info == if ok then old(info)[p := v] else old(info)
    {
      if affected.None? || affected.value.0 != source || (strict && p !in affected.value.1) {
        return false;
      }
      info := info[p := v];
      return true;
    }

    /** Insert, update or delete the row of one place, or leave it if it is right. */
    method WriteOne(source: int, p: K) returns (changed: bool)
      modifies this`rows
      ensures Slice(rows, source) == Overlaid(old(Slice(rows, source)), info, {p})
      ensures Others(rows, source) == old(Others(rows, source))
      ensures changed <==> Wrong(old(Slice(rows, source)), info, p)
      ensures !changed ==> rows == old(rows)
    {
      var k := Key(source, p);
      SliceAt(rows, source, p);
      OverlaidAtOne(Slice(rows, source), info, p);
      if p in info {
        changed := k !in rows || rows[k] != info[p];
        if changed {
          WriteInSlice(rows, source, p, info[p]);
          rows := rows[k := info[p]];
        }
      } else {
        changed := k in rows;
        if changed {
          DeleteInSlice(rows, source, p);
          rows := rows - {k};
        }
      }
    }

    /** Bring the affected rows in line with what was populated; nothing else is touched. */
    method WriteDb() returns (changed: set<K>)
      modifies this
      ensures old(affected).None? ==> rows == old(rows) && changed == {}
      ensures old(affected).Some? ==>
                var (src, places) := old(affected).value;
                WroteAt(old(rows), rows, src, SetOf(places), old(info), changed)
      ensures affected == None && info == map[]
    {
      changed := {};
      if affected.Some? {
        var (src, places) := affected.value;
        changed := WritePlaces(src, places);
      }
      Clear();
    }

    method WritePlaces(src: int, places: seq<K>) returns (changed: set<K>)
      modifies this`rows
      ensures WroteAt(old(rows), rows, src, SetOf(places), info, changed)
    {
      changed := {};
      ghost var was := Slice(rows, src);
      ghost var done: set<K> := {};
      assert Overlaid(was, info, {}) == was;
      for i := 0 to |places|
        invariant done == SetOf(places[..i])
        invariant Slice(rows, src) == Overlaid(was, info, done)
        invariant Others(rows, src) == old(Others(rows, src))
        invariant changed == WrongAt(was, info, done)
      {
        SetOfMore(places, i);
        OverlaidMore(was, info, done, places[i]);
        WrongOnce(was, info, done, places[i]);
        WrongMore(was, info, done, places[i]);
        var did := WriteOne(src, places[i]);
        if did {
          changed := changed + {places[i]};
        }
        done := done + {places[i]};
      }
      assert places[..|places|] == places;
    }
  }
}
