/**
 The account_type table: which affiliations of a person an account stands for,
 and in what order.  The row with the lowest priority names the person's
 primary account.
 */
module AccountTypes {
  import opened Wrappers
  import opened SlotRuns

  /** Everything in a row but its priority; this is what an UPDATE selects by. */
  datatype RowKey = RowKey(person: int, ou: int, affiliation: int, account: int)

  type Rows = map<RowKey, int>

  /** The answer of `SetAccountType`, for the cases where it gives one. */
  datatype Change = Added(priority: int) | Modified(priority: int)

  /** One person's rows: the list whose slots must stay distinct. */
  ghost function Of(rows: Rows, person: int): map<RowKey, int> {
    map k | k in rows && k.person == person :: rows[k]
  }

  ghost function Others(rows: Rows, person: int): Rows {
    map k | k in rows && k.person != person :: rows[k]
  }

  /** The table's constraint: a person has no two rows with the same priority. */
  ghost predicate Consistent(rows: Rows) {
    forall a, b :: a in rows && b in rows && a.person == b.person && rows[a] == rows[b] ==> a == b
  }

  /** Same table, except that one person's rows are now `pos`. */
  ghost predicate ReplacesOf(rows: Rows, rows': Rows, person: int, pos: map<RowKey, int>) {
    Of(rows', person) == pos && Others(rows', person) == Others(rows, person)
  }

  /** The default priority: 5 higher than the highest one, counting from 0. */
  ghost predicate FiveAbove(pos: map<RowKey, int>, p: int) {
    && 5 <= p && (forall k :: k in pos ==> pos[k] + 5 <= p)
    && (p == 5 || exists k :: k in pos && pos[k] + 5 == p)
  }

  /** Once the run at `p` is pushed, a row may be written to `p`. */
  lemma WriteAfterPush(rows: Rows, rows': Rows, row: RowKey, p: int)
    requires Consistent(rows) && Consistent(rows')
    requires ReplacesOf(rows, rows', row.person, Pushed(Of(rows, row.person), p))
    ensures Consistent(rows'[row := p])
    ensures ReplacesOf(rows, rows'[row := p], row.person, Placed(Of(rows, row.person), p, row))
  {
    var of := Of(rows', row.person);
    PushKeepsDistinct(Of(rows, row.person), p);
    forall a | a in rows' && a != row && a.person == row.person ensures rows'[a] != p {
      assert of[a] in of.Values;
    }
    assert Of(rows'[row := p], row.person) == of[row := p];
    assert Others(rows'[row := p], row.person) == Others(rows', row.person);
  }

  class AccountTypeTable {
    var rows: Rows
    /** The table after each statement so far, the latest last. */
    ghost var history: seq<Rows>

    ghost predicate Valid()
      reads this
    {
      && history != [] && history[|history| - 1] == rows
      && forall i :: 0 <= i < |history| ==> Consistent(history[i])
    }

    constructor ()
      ensures Valid() && rows == map[]
    {
      rows := map[];
      history := [map[]];
    }

    /** An INSERT or UPDATE of one row; it must not break the constraint. */
    method Write(k: RowKey, p: int)
      requires Valid()
      requires Consistent(rows[k := p])
      modifies this
      ensures Valid()
      ensures rows == old(rows)[k := p]
      ensures history == old(history) + [rows]
    {
      rows := rows[k := p];
      history := history + [rows];
    }

    /**
     Put the row at `origPri` on `newPri`, after pushing the row that is there,
     if any, to the slot above, and so on.  `allPris` is the caller's snapshot
     of the person's rows: it is not refreshed while the rows move.
     */
    method SetAccountTypePriority(person: int, allPris: map<int, RowKey>, origPri: int, newPri: int)
      requires Valid()
      requires Snapshot(allPris, Of(rows, person))
      requires origPri in allPris && origPri != newPri
      modifies this
      ensures Valid() && old(history) <= history
      ensures ReplacesOf(old(rows), rows, person,
                         Placed(old(Of(rows, person)), newPri, allPris[origPri]))
      decreases AtOrAbove(allPris.Keys, newPri)
    {
      if newPri in allPris {
        AboveShrinks(allPris.Keys, newPri);
        SetAccountTypePriority(person, allPris, newPri, newPri + 1);
      }
      RunIsPushed(old(Of(rows, person)), Of(rows, person), allPris, newPri);
      WriteAfterPush(old(rows), rows, allPris[origPri], newPri);
      Write(allPris[origPri], newPri);
    }

    /** The person's rows by priority, the priority of the given row, and the highest one, or 0. */
    method ReadPriorities(row: RowKey) returns (allPris: map<int, RowKey>, origPri: Option<int>, maxPri: int)
      requires Valid()
      ensures Snapshot(allPris, Of(rows, row.person))
      ensures origPri == if row in rows then Some(rows[row]) else None
      ensures row in rows ==> rows[row] in allPris && allPris[rows[row]] == row
      ensures FiveAbove(Of(rows, row.person), maxPri + 5)
      ensures Consistent(rows)
    {
      allPris, origPri, maxPri := map[], None, 0;
      ghost var pos := Of(rows, row.person);
      assert Consistent(rows) && Distinct(pos);
      var unread := set k | k in rows && k.person == row.person;
      while unread != {}
        invariant unread <= pos.Keys
        invariant Snapshot(allPris, pos - unread)
        invariant 0 <= maxPri && forall k :: k in pos && k !in unread ==> pos[k] <= maxPri
        invariant maxPri == 0 || exists k :: k in pos && pos[k] == maxPri
        invariant origPri == if row in pos && row !in unread then Some(rows[row]) else None
      {
        var k :| k in unread;
        SnapshotGrows(allPris, pos, unread, k);
        allPris := allPris[rows[k] := k];
        if row.ou == k.ou && row.affiliation == k.affiliation && row.account == k.account {
          origPri := Some(rows[k]);
        }
        if rows[k] > maxPri {
          maxPri := rows[k];
        }
        unread := unread - {k};
      }
      assert pos - unread == pos;
      assert row in rows ==> row in pos;
    }

    /** Insert a row, after pushing what is in its place. */
    method InsertAt(row: RowKey, newPri: int, allPris: map<int, RowKey>)
      requires Valid() && Consistent(rows)
      requires Snapshot(allPris, Of(rows, row.person))
      modifies this
      ensures Valid() && old(history) <= history
      ensures ReplacesOf(old(rows), rows, row.person, Placed(old(Of(rows, row.person)), newPri, row))
    {
      if newPri in allPris {
        SetAccountTypePriority(row.person, allPris, newPri, newPri + 1);
      }
      RunIsPushed(old(Of(rows, row.person)), Of(rows, row.person), allPris, newPri);
      WriteAfterPush(old(rows), rows, row, newPri);
      Write(row, newPri);
    }

    /** Insert the account's row, or move it, so that it has the given priority. */
    method SetAccountType(person: int, account: int, ou: int, affiliation: int, priority: Option<int>)
      returns (change: Option<Change>)
      requires Valid()
      modifies this
      ensures Valid() && old(history) <= history
      ensures var row := RowKey(person, ou, affiliation, account);
              var pos := old(Of(rows, person));
              row in rows &&
              var p := rows[row];
              && (priority.Some? ==> p == priority.value)
              && (priority.None? ==> FiveAbove(pos, p))
              && change == (if row !in pos then Some(Added(p))
                            else if pos[row] != p then Some(Modified(p))
                            else None)
              && (if change.Some?
                  then ReplacesOf(old(rows), rows, person, Placed(pos, p, row))
                  else rows == old(rows) && history == old(history))
    {
      var row := RowKey(person, ou, affiliation, account);
      var allPris, origPri, maxPri := ReadPriorities(row);
      var newPri := if priority.None? then maxPri + 5 else priority.value;
      if origPri.None? {
        InsertAt(row, newPri, allPris);
        change := Some(Added(newPri));
      } else if origPri.value != newPri {
        SetAccountTypePriority(person, allPris, origPri.value, newPri);
        change := Some(Modified(newPri));
      } else {
        change := None;
      }
      assert change.Some? ==> row in Of(rows, person);
    }

    method DelAccountType(person: int, account: int, ou: int, affiliation: int)
      requires Valid()
      modifies this
      ensures Valid() && old(history) <= history
      ensures rows == old(rows) - {RowKey(person, ou, affiliation, account)}
    {
      var row := RowKey(person, ou, affiliation, account);
      if row !in rows {
        return;
      }
      rows := rows - {row};
      history := history + [rows];
    }
  }

  /** A row put above all others of its person names the primary account. */
  lemma LowestPriorityIsPrimary(rows: Rows, rows': Rows, row: RowKey, p: int)
    requires Consistent(rows)
    requires ReplacesOf(rows, rows', row.person, Placed(Of(rows, row.person), p, row))
    requires forall k :: k in rows && k.person == row.person ==> p <= rows[k]
    ensures row in rows' && forall k :: k in rows' && k.person == row.person && k != row ==>
              rows'[row] < rows'[k]
  {
    var pos := Of(rows, row.person);
    PlaceMeaning(pos, p, row);
    forall k | k in rows' && k.person == row.person && k != row ensures rows'[row] < rows'[k] {
      assert k in Of(rows', row.person) && k in pos;
      assert pos[k] in pos.Values;
    }
  }

  datatype Row = Row(key: RowKey, priority: int)

  /** ORDER BY person_id, priority. */
  ghost predicate NotAfter(a: Row, b: Row) {
    || a.key.person < b.key.person
    || (a.key.person == b.key.person && a.priority <= b.priority)
  }

  ghost predicate HasPrimary(ret: seq<Row>, r: Row) {
    exists q :: q in ret && q.key.person == r.key.person && q.priority <= r.priority
  }

  ghost predicate InOrder(rows: seq<Row>) {
    forall i, j :: 0 <= i < j < |rows| ==> NotAfter(rows[i], rows[j])
  }

  ghost predicate PersonsRise(ret: seq<Row>) {
    forall i, j :: 0 <= i < j < |ret| ==> ret[i].key.person < ret[j].key.person
  }

  /** The last row kept does not go after any row from the n-th on. */
  ghost predicate LastIsBefore(rows: seq<Row>, n: nat, ret: seq<Row>)
    requires n <= |rows|
  {
    ret != [] ==> forall i :: n <= i < |rows| ==> NotAfter(ret[|ret| - 1], rows[i])
  }

  predicate HasPerson(ret: seq<Row>, person: int) {
    ret != [] && ret[|ret| - 1].key.person == person
  }

  /** Keep one row for each person: one with the person's lowest priority. */
  method PrimaryOnly(rows: seq<Row>) returns (ret: seq<Row>)
    requires InOrder(rows)
    ensures PersonsRise(ret)
    ensures forall r :: r in ret ==> r in rows
    ensures forall r :: r in rows ==> HasPrimary(ret, r)
  {
    ret := [];
    var prev: Option<int> := None;
    for n := 0 to |rows|
      invariant PersonsRise(ret) && LastIsBefore(rows, n, ret)
      invariant forall r :: r in ret ==> r in rows
      invariant forall i :: 0 <= i < n ==> HasPrimary(ret, rows[i])
      invariant prev == if ret == [] then None else Some(ret[|ret| - 1].key.person)
    {
      var row := rows[n];
      if prev != Some(row.key.person) {
        ret := KeepFirst(rows, n, ret);
        prev := Some(row.key.person);
      } else {
        PrimaryIsLast(ret, row);
      }
    }
  }

  /** The first row of another person is kept. */
  method KeepFirst(rows: seq<Row>, n: nat, ret: seq<Row>) returns (more: seq<Row>)
    requires n < |rows| && InOrder(rows) && PersonsRise(ret) && LastIsBefore(rows, n, ret)
    requires !HasPerson(ret, rows[n].key.person)
    requires forall i :: 0 <= i < n ==> HasPrimary(ret, rows[i])
    ensures more == ret + [rows[n]] && PersonsRise(more) && LastIsBefore(rows, n + 1, more)
    ensures forall i :: 0 <= i <= n ==> HasPrimary(more, rows[i])
  {
    more := ret + [rows[n]];
    PrimaryIsLast(more, rows[n]);
    forall i | 0 <= i < n ensures HasPrimary(more, rows[i]) {
      PrimaryStays(ret, rows[n], rows[i]);
    }
  }

  lemma PrimaryStays(ret: seq<Row>, row: Row, r: Row)
    requires HasPrimary(ret, r)
    ensures HasPrimary(ret + [row], r)
  {
    var q :| q in ret && q.key.person == r.key.person && q.priority <= r.priority;
    assert q in ret + [row];
  }

  lemma PrimaryIsLast(ret: seq<Row>, row: Row)
    requires ret != [] && ret[|ret| - 1].key.person == row.key.person && NotAfter(ret[|ret| - 1], row)
    ensures HasPrimary(ret, row)
  {
    assert ret[|ret| - 1] in ret;
  }
}
