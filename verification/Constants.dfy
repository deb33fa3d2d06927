/**
 Writing the declared constants to their code tables.  A class of constants may
 have to wait until the class it depends on has been written in full.
 */
module Constants {
  import opened Wrappers
  import opened Sets

  datatype Failure = AllCircular | SomeCircular | CodePresent

  /** A code, by its string; a code table has no string twice. */
  datatype Code = Code(text: string)

  type Table = set<Code>

  /**
   Insert the declared codes that are missing; fails, when not updating, if one
   is there already, with some of the others inserted.
   */
  method InsertCodes(table: Table, declared: set<Code>, update: bool) returns (failed: bool, t: Table, count: nat)
    ensures failed <==> !update && table * declared != {}
    ensures if failed then table <= t <= table + declared else t == table + declared && count == |declared|
  {
    t, count := table, 0;
    var todo := declared;
    while todo != {}
      invariant todo <= declared && count == |declared| - |todo|
      invariant t == table + (declared - todo) && (!update ==> table !! declared - todo)
    {
      ghost var _ := HasMember(todo);
      var s :| s in todo;
      count := count + 1;
      if s in t {
        if !update {
          assert s in table * declared;
          return true, t, count;
        }
      } else {
        t := t + {s};
      }
      todo := todo - {s};
    }
    failed := false;
  }

  /** Look through a table for codes that are not declared, and delete them if that is asked for. */
  method PruneRows(table: Table, declared: set<Code>, delete: bool) returns (t: Table, extra: set<Code>)
    ensures extra == table - declared
    ensures t == if delete then table - extra else table
  {
    t, extra := table, {};
    var unread := table;
    while unread != {}
      invariant unread <= table && extra == table - declared - unread
      invariant t == if delete then table - extra else table
    {
      ghost var _ := HasMember(unread);
      var c :| c in unread;
      if c !in declared {
        extra := extra + {c};
        if delete {
          t := t - {c};
        }
      }
      unread := unread - {c};
    }
  }

  /**
   The superfluous codes of a table that has all declared ones.  The look is
   spared when the table has just as many codes as were declared.
   */
  method Prune(table: Table, declared: set<Code>, count: nat, delete: bool) returns (t: Table, extra: set<Code>)
    requires declared <= table && count == |declared|
    ensures extra == table - declared
    ensures t == if delete then declared else table
  {
    SubsetSize(declared, table);
    if count != |table| {
      t, extra := PruneRows(table, declared, delete);
    } else {
      t, extra := table, {};
    }
  }

  /** The classes that have constants, the class each waits for, and what is declared. */
  datatype Declarations = Declarations(codes: map<int, set<Code>>, dependency: map<int, Option<int>>)

  ghost predicate WellFormed(d: Declarations) {
    d.dependency.Keys == d.codes.Keys
  }

  /** Waiting classes lead from `cls` to one that waits for nothing, all of them with constants. */
  ghost predicate Chain(d: Declarations, path: seq<int>)
    requires WellFormed(d)
  {
    && path != []
    && (forall i :: 0 <= i < |path| ==> path[i] in d.codes)
    && (forall i :: 0 <= i < |path| - 1 ==> d.dependency[path[i]] == Some(path[i + 1]))
    && d.dependency[path[|path| - 1]] == None
  }

  ghost predicate Reachable(d: Declarations, cls: int)
    requires WellFormed(d)
  {
    exists path :: Chain(d, path) && path[0] == cls
  }

  /** What is still to be written: classes by what they wait for. */
  type Order = map<Option<int>, set<int>>

  /** The class that a class waits for was written before it. */
  ghost predicate InTurn(d: Declarations, done: seq<int>)
    requires WellFormed(d)
  {
    && (forall i, j :: 0 <= i < j < |done| ==> done[i] != done[j])
    && (forall i :: 0 <= i < |done| ==> done[i] in d.codes && Waited(d, done[i], done[..i]))
  }

  ghost predicate Waited(d: Declarations, cls: int, before: seq<int>)
    requires WellFormed(d) && cls in d.codes
  {
    d.dependency[cls].Some? ==> d.dependency[cls].value in before
  }

  /** The class has constants, and waits for nothing or for one of the classes given. */
  ghost predicate Due(d: Declarations, done: set<int>, c: int)
    requires WellFormed(d)
  {
    c in d.codes && (d.dependency[c].Some? ==> d.dependency[c].value in done)
  }

  lemma {:induction false} ChainIsDone(d: Declarations, done: set<int>, path: seq<int>)
    requires WellFormed(d) && Chain(d, path)
    requires forall c :: Due(d, done, c) ==> c in done
    ensures path[0] in done
    decreases |path|
  {
    if |path| > 1 {
      ChainIsDone(d, done, path[1..]);
    }
    assert Due(d, done, path[0]);
  }

  lemma {:induction false} DoneIsReachable(d: Declarations, done: seq<int>, i: nat)
    requires WellFormed(d) && InTurn(d, done) && i < |done|
    ensures Reachable(d, done[i])
  {
    assert Waited(d, done[i], done[..i]);
    if d.dependency[done[i]].Some? {
      var j :| 0 <= j < i && done[..i][j] == d.dependency[done[i]].value;
      DoneIsReachable(d, done, j);
      var path :| Chain(d, path) && path[0] == done[j];
      assert Chain(d, [done[i]] + path);
    } else {
      assert Chain(d, [done[i]]);
    }
  }

  lemma InTurnMore(d: Declarations, done: seq<int>, cls: int)
    requires WellFormed(d) && InTurn(d, done) && cls in d.codes && cls !in done && Waited(d, cls, done)
    ensures InTurn(d, done + [cls])
  {
    var more := done + [cls];
    forall i | 0 <= i < |more| ensures more[i] in d.codes && Waited(d, more[i], more[..i]) {
      if i < |done| {
        assert more[..i] == done[..i];
      } else {
        assert more[..i] == done;
      }
    }
  }

  /** What is in a table after its class was written. */
  ghost function Written(d: Declarations, delete: bool, before: Table, cls: int): Table
    requires cls in d.codes
  {
    if delete then d.codes[cls] else before + d.codes[cls]
  }

  /** The tables of the classes written are right, and those of the others are as they were. */
  ghost predicate Recorded(d: Declarations, delete: bool, before: map<int, Table>, tables: map<int, Table>,
                           extra: map<int, set<Code>>, done: seq<int>)
  {
    && tables.Keys == before.Keys == d.codes.Keys
    && (forall c :: c in tables ==>
          tables[c] == if c in done then Written(d, delete, before[c], c) else before[c])
    && (forall c :: c in tables && c in done ==> c in extra && extra[c] == before[c] - d.codes[c])
  }

  /** `order` has the classes that are still to be written; those in `open` are being worked on. */
  ghost predicate Ordered(d: Declarations, order: Order, done: seq<int>, open: set<Option<int>>)
    requires WellFormed(d)
  {
    && (forall r, c :: r in order ==> (c in order[r] <==> Waiting(d, done, r, c)))
    && (forall c :: c in d.codes && c !in done ==> d.dependency[c] in order)
    && (forall c :: Some(c) in open ==> c in done)
    && (forall r :: r in order && r !in open ==> order[r] != {})
    && open <= order.Keys
  }

  ghost predicate Waiting(d: Declarations, done: seq<int>, root: Option<int>, c: int)
    requires WellFormed(d)
  {
    c in d.codes && d.dependency[c] == root && c !in done
  }

  lemma OrderedAfterWrite(d: Declarations, order: Order, done: seq<int>, open: set<Option<int>>,
                          root: Option<int>, cls: int)
    requires WellFormed(d) && Ordered(d, order, done, open) && root in open && cls in order[root]
    ensures Ordered(d, order[root := order[root] - {cls}], done + [cls], open)
    ensures Waiting(d, done, root, cls) && Some(cls) !in open
  {
    assert Waiting(d, done, root, cls);
    var order' := order[root := order[root] - {cls}];
    forall r, c | r in order' ensures c in order'[r] <==> Waiting(d, done + [cls], r, c) {
      assert c in order[r] <==> Waiting(d, done, r, c);
    }
  }

  /** More classes have been written, all with those that wait for them; what is being worked on is as it was. */
  ghost predicate Advanced(order: Order, done: seq<int>, order': Order, done': seq<int>, open: set<Option<int>>) {
    && order'.Keys <= order.Keys && done <= done'
    && (forall r :: r in open && r in order ==> r in order' && order'[r] == order[r])
    && (forall c :: c in done' && c !in done ==> Some(c) !in order')
  }

  lemma AdvancedTrans(order: Order, done: seq<int>, order1: Order, done1: seq<int>, order': Order, done': seq<int>,
                      open: set<Option<int>>)
    requires Advanced(order, done, order1, done1, open) && Advanced(order1, done1, order', done', open)
    ensures Advanced(order, done, order', done', open)
  {
  }

  lemma AdvancedAfterAll(order: Order, done: seq<int>, order1: Order, done1: seq<int>, open: set<Option<int>>,
                         root: Option<int>)
    requires root !in open && Advanced(order, done, order1, done1, open)
    ensures Advanced(order, done, order1 - {root}, done1, open)
  {
  }

  /** A class is written and then, with the class it waits for still worked on, those that wait for it. */
  lemma AdvancedOn(order: Order, done: seq<int>, order1: Order, done1: seq<int>, order': Order, done': seq<int>,
                   open: set<Option<int>>, root: Option<int>, cls: int)
    requires root in order && root !in open && done1 == done + [cls] && Some(cls) !in order'
    requires order1 == order[root := order[root] - {cls}]
    requires Advanced(order1, done1, order', done', open + {root})
    ensures Advanced(order, done, order', done', open) && root in order' && order'[root] == order[root] - {cls}
  {
    assert root in open + {root};
    forall c | c in done' && c !in done ensures Some(c) !in order' {
      assert c in done1 ==> c == cls;
    }
  }

  lemma OrderedAfterAll(d: Declarations, order: Order, done: seq<int>, open: set<Option<int>>, root: Option<int>)
    requires WellFormed(d) && root in order && root !in open
    requires Ordered(d, order, done, open + {root}) && order[root] == {}
    ensures Ordered(d, order - {root}, done, open)
  {
    forall c | c in d.codes && c !in done ensures d.dependency[c] != root {
      assert Waiting(d, done, d.dependency[c], c);
    }
  }

  lemma NotDoneIsOrdered(d: Declarations, order: Order, done: seq<int>, c: int)
    requires WellFormed(d) && Ordered(d, order, done, {}) && c in d.codes
    ensures c in done || d.dependency[c] in order
  {
  }

  /** When nothing in the order waits for what is done, all that can be reached is done. */
  lemma AllReachableDone(d: Declarations, order: Order, done: seq<int>)
    requires WellFormed(d) && InTurn(d, done) && Ordered(d, order, done, {})
    requires None !in order && forall c :: c in done ==> Some(c) !in order
    ensures forall c :: c in done <==> Reachable(d, c)
    ensures order == map[] <==> forall c :: c in d.codes ==> Reachable(d, c)
  {
    var written := set c | c in done;
    forall c | Due(d, written, c) ensures c in written {
      assert d.dependency[c].Some? ==> d.dependency[c] == Some(d.dependency[c].value);
      NotDoneIsOrdered(d, order, done, c);
    }
    NothingDue(d, written);
    forall c | c in done ensures Reachable(d, c) {
      var i :| 0 <= i < |done| && done[i] == c;
      DoneIsReachable(d, done, i);
    }
    if order != map[] {
      var r := HasMember(order.Keys);
      var c := HasMember(order[r]);
      assert Waiting(d, done, r, c);
    } else {
      forall c | c in d.codes ensures c in done {
        NotDoneIsOrdered(d, order, done, c);
      }
    }
  }

  /** If nothing more is due, everything reachable is done. */
  lemma NothingDue(d: Declarations, done: set<int>)
    requires WellFormed(d)
    requires forall c :: Due(d, done, c) ==> c in done
    ensures forall c :: Reachable(d, c) ==> c in done
  {
    forall c | Reachable(d, c) ensures c in done {
      var path :| Chain(d, path) && path[0] == c;
      ChainIsDone(d, done, path);
    }
  }

  /** With no class that waits for nothing, none can be reached. */
  lemma NothingReachable(d: Declarations, order: Order)
    requires WellFormed(d) && Ordered(d, order, [], {}) && None !in order
    ensures forall c :: !Reachable(d, c)
    ensures d.codes != map[] ==> !forall c :: c in d.codes ==> Reachable(d, c)
  {
    forall c | c in d.codes ensures d.dependency[c] != None {
      assert c in [] || d.dependency[c] in order;
    }
    NothingDue(d, {});
    if d.codes != map[] {
      var c := HasMember(d.codes.Keys);
      assert !Reachable(d, c);
    }
  }

  class Initializer {
    const d: Declarations
    const update: bool
    const delete: bool
    var tables: map<int, Table>
    /** The codes found in the tables that are not declared, by class. */
    var extra: map<int, set<Code>>
    var order: Order
    /** The classes written so far, in the order of writing. */
    ghost var done: seq<int>
    /** The tables as they were at first. */
    ghost const before: map<int, Table>

    constructor (d: Declarations, tables: map<int, Table>, update: bool, delete: bool)
      requires WellFormed(d) && tables.Keys == d.codes.Keys
      ensures this.d == d && this.tables == tables && this.update == update && this.delete == delete
      ensures before == tables && done == [] && order == map[] && extra == map[]
    {
      this.d, this.tables, this.update, this.delete := d, tables, update, delete;
      order, extra := map[], map[];
      done, before := [], tables;
    }

    /** A declared code of the class was there at first, where it may not be. */
    ghost predicate Refused(c: int)
      requires c in d.codes && before.Keys == d.codes.Keys
    {
      !update && before[c] * d.codes[c] != {}
    }

    /** The classes `done` have been written, and nothing else. */
    ghost predicate Progress()
      reads this
    {
      && WellFormed(d) && InTurn(d, done) && Recorded(d, delete, before, tables, extra, done)
      && forall c :: c in done ==> !Refused(c)
    }

    /** Writing stopped at the class: its turn had come, but it has a code that may not be there. */
    ghost predicate StoppedAt(c: int)
      reads this
    {
      && WellFormed(d) && InTurn(d, done) && tables.Keys == before.Keys == d.codes.Keys
      && c in d.codes && c !in done && Waited(d, c, done) && Refused(c)
      && Recorded(d, delete, before, tables[c := before[c]], extra, done)
      && before[c] <= tables[c] <= before[c] + d.codes[c]
    }

    lemma StoppedIsReachable(c: int)
      requires StoppedAt(c)
      ensures Reachable(d, c)
    {
      InTurnMore(d, done, c);
      DoneIsReachable(d, done + [c], |done|);
    }

    ghost predicate Inv(open: set<Option<int>>)
      reads this
    {
      Progress() && Ordered(d, order, done, open)
    }

    /** Bring the table of one class in line with what is declared. */
    method WriteClass(cls: int) returns (failed: bool)
      requires Progress() && cls in d.codes && cls !in done && Waited(d, cls, done)
      modifies this`tables, this`extra, this`done
      ensures failed <==> Refused(cls)
      ensures if failed then StoppedAt(cls) else Progress() && done == old(done) + [cls]
    {
      var t, count;
      failed, t, count := InsertCodes(tables[cls], d.codes[cls], update);
      if failed {
        tables := tables[cls := t];
        assert tables[cls := before[cls]] == old(tables);
        return;
      }
      var pruned, superfluous := Prune(t, d.codes[cls], count, delete);
      assert superfluous == before[cls] - d.codes[cls];
      tables := tables[cls := pruned];
      extra := extra[cls := superfluous];
      InTurnMore(d, done, cls);
      done := done + [cls];
      return false;
    }

    /** Write one class, and after it those that wait for it. */
    method InsertClass(root: Option<int>, cls: int, ghost open: set<Option<int>>) returns (failed: bool)
      requires root !in open && Inv(open + {root}) && root in order && cls in order[root]
      requires root.Some? ==> root.value in done
      modifies this`tables, this`extra, this`done, this`order
      ensures failed ==> exists c :: StoppedAt(c)
      ensures !failed ==>
                && Inv(open + {root}) && Advanced(old(order), old(done), order, done, open)
                && order[root] == old(order)[root] - {cls}
      decreases order.Keys - open, 0
    {
      ghost var working := open + {root};
      failed := WriteAndStrike(root, cls, working);
      if failed {
        return;
      }
      assert root in order.Keys - open && root !in order.Keys - working;
      ghost var order1, done1 := order, done;
      if Some(cls) !in order {
        AdvancedOn(old(order), old(done), order1, done1, order, done, open, root, cls);
        return;
      }
      failed := InsertClasses(Some(cls), working);
      if !failed {
        AdvancedOn(old(order), old(done), order1, done1, order, done, open, root, cls);
      }
    }

    /** Write one class and take it off the order. */
    method WriteAndStrike(root: Option<int>, cls: int, ghost working: set<Option<int>>) returns (failed: bool)
      requires Inv(working) && root in working && root in order && cls in order[root]
      requires root.Some? ==> root.value in done
      modifies this`tables, this`extra, this`done, this`order
      ensures failed ==> exists c :: StoppedAt(c)
      ensures !failed ==>
                && Inv(working) && done == old(done) + [cls] && Some(cls) !in working
                && order == old(order)[root := old(order)[root] - {cls}]
    {
      OrderedAfterWrite(d, order, done, working, root, cls);
      failed := WriteClass(cls);
      if !failed {
        order := order[root := order[root] - {cls}];
      }
    }

    /** Write the classes that wait for `root`, and after each of them those that wait for it. */
    method InsertClasses(root: Option<int>, ghost open: set<Option<int>>) returns (failed: bool)
      requires Inv(open) && root in order && root !in open
      requires root.Some? ==> root.value in done
      modifies this`tables, this`extra, this`done, this`order
      ensures failed ==> exists c :: StoppedAt(c)
      ensures !failed ==>
                Inv(open) && root !in order && Advanced(old(order), old(done), order, done, open)
      decreases order.Keys - open, 1
    {
      var todo := order[root];
      while todo != {}
        invariant Inv(open + {root}) && todo == order[root]
        invariant Advanced(old(order), old(done), order, done, open)
        decreases todo
      {
        ghost var _ := HasMember(todo);
        var cls :| cls in todo;
        ghost var order1, done1 := order, done;
        failed := InsertClass(root, cls, open);
        if failed {
          return;
        }
        AdvancedTrans(old(order), old(done), order1, done1, order, done, open);
        todo := todo - {cls};
      }
      OrderedAfterAll(d, order, done, open, root);
      AdvancedAfterAll(old(order), old(done), order, done, open, root);
      order := order - {root};
      return false;
    }

    /** The classes that have constants, by what they wait for. */
    method GetDependencyOrder() returns (r: Order)
      requires WellFormed(d)
      ensures Ordered(d, r, [], {})
    {
      r := map[];
      var unread := d.codes.Keys;
      while unread != {}
        invariant unread <= d.codes.Keys
        invariant forall w, c :: w in r ==> (c in r[w] <==> Waiting(d, [], w, c) && c !in unread)
        invariant forall c :: c in d.codes && c !in unread ==> d.dependency[c] in r
        invariant forall w :: w in r ==> r[w] != {}
      {
        ghost var _ := HasMember(unread);
        var cls :| cls in unread;
        var dep := d.dependency[cls];
        r := r[dep := (if dep in r then r[dep] else {}) + {cls}];
        unread := unread - {cls};
      }
    }

    /** Write all classes; what is left in the order at the end waits for something that is never written. */
    method Initialize() returns (failure: Option<Failure>)
      requires WellFormed(d) && done == [] && tables == before && tables.Keys == d.codes.Keys
      modifies this
      ensures failure == Some(AllCircular) <==> forall c :: c in d.codes ==> d.dependency[c] != None
      ensures failure == Some(CodePresent) <==> exists c :: Reachable(d, c) && Refused(c)
      ensures failure == Some(CodePresent) ==> exists c :: StoppedAt(c)
      ensures failure != Some(CodePresent) ==>
                && InTurn(d, done) && (forall c :: c in done <==> Reachable(d, c))
                && Recorded(d, delete, before, tables, extra, done)
                && (failure == None <==> d.codes != map[] && forall c :: c in d.codes ==> Reachable(d, c))
    {
      order := GetDependencyOrder();
      assert Progress();
      if None !in order {
        NothingReachable(d, order);
        return Some(AllCircular);
      }
      ghost var first := HasMember(order[None]);
      assert Waiting(d, [], None, first);
      var failed := InsertClasses(None, {});
      if failed {
        ghost var c :| StoppedAt(c);
        StoppedIsReachable(c);
        return Some(CodePresent);
      }
      AllReachableDone(d, order, done);
      if order != map[] {
        return Some(SomeCircular);
      }
      return None;
    }
  }
}
