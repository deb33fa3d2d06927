/**
 The structure of organisational units in one perspective: every unit may have a
 parent.  Nothing in the table keeps the structure free of loops.
 */
module OrgTree {
  import opened Wrappers
  import opened Sets
  import opened Sequences

  datatype Failure = NotFound | LoopDetected | RecursionLimit

  /** The rows of ou_structure: a root has no parent, or itself for a parent. */
  type Parents = map<int, Option<int>>

  predicate IsParent(parents: Parents, x: int, p: int) {
    x in parents && parents[x] == Some(p)
  }

  /** Every node of the chain is followed by its parent. */
  ghost predicate Chain(parents: Parents, path: seq<int>) {
    forall i :: 0 <= i < |path| - 1 ==> IsParent(parents, path[i], path[i + 1])
  }

  ghost predicate ChainFromTo(parents: Parents, path: seq<int>, x: int, a: int) {
    path != [] && path[0] == x && path[|path| - 1] == a && Chain(parents, path)
  }

  /** `a` is reached by going up from `x`, by at least one step. */
  ghost predicate Below(parents: Parents, x: int, a: int) {
    exists path :: ChainFromTo(parents, path, x, a) && |path| >= 2
  }

  ghost predicate AtOrBelow(parents: Parents, x: int, a: int) {
    x == a || Below(parents, x, a)
  }

  ghost predicate Acyclic(parents: Parents) {
    forall x :: !Below(parents, x, x)
  }

  /** Neither `o` nor anything below it is below itself. */
  ghost predicate NoCycleUnder(parents: Parents, o: int) {
    forall x :: AtOrBelow(parents, x, o) ==> !Below(parents, x, x)
  }

  lemma BelowTrans(parents: Parents, x: int, y: int, z: int)
    requires AtOrBelow(parents, x, y) && AtOrBelow(parents, y, z)
    ensures AtOrBelow(parents, x, z)
    ensures Below(parents, x, y) || Below(parents, y, z) ==> Below(parents, x, z)
  {
    if x != y && y != z {
      var p :| ChainFromTo(parents, p, x, y) && |p| >= 2;
      var q :| ChainFromTo(parents, q, y, z) && |q| >= 2;
      assert ChainFromTo(parents, p + q[1..], x, z);
    } else if Below(parents, x, y) && Below(parents, y, z) {
      var p :| ChainFromTo(parents, p, x, y) && |p| >= 2;
      var q :| ChainFromTo(parents, q, y, z) && |q| >= 2;
      assert ChainFromTo(parents, p + q[1..], x, z);
    }
  }

  lemma ParentIsAbove(parents: Parents, x: int, p: int)
    requires IsParent(parents, x, p)
    ensures Below(parents, x, p)
  {
    assert ChainFromTo(parents, [x, p], x, p);
  }

  /** All that is above `x` is its parent or above its parent. */
  lemma AboveTheParent(parents: Parents, x: int, a: int)
    requires Below(parents, x, a)
    ensures x in parents && parents[x].Some? && AtOrBelow(parents, parents[x].value, a)
  {
    var p :| ChainFromTo(parents, p, x, a) && |p| >= 2;
    assert IsParent(parents, p[0], p[1]);
    if |p| > 2 {
      assert ChainFromTo(parents, p[1..], p[1], a);
    }
  }

  /** There is only one way up. */
  lemma {:induction false} OneWayUp(parents: Parents, p: seq<int>, q: seq<int>)
    requires p != [] && q != [] && p[0] == q[0] && |p| <= |q|
    requires Chain(parents, p) && Chain(parents, q)
    ensures p == q[..|p|]
    decreases |p|
  {
    if |p| > 1 {
      assert IsParent(parents, p[0], p[1]) && IsParent(parents, q[0], q[1]);
      OneWayUp(parents, p[1..], q[1..]);
    }
  }

  /** A walk that goes from unit to unit; a step from a node to itself is not one. */
  ghost predicate Walk(parents: Parents, path: seq<int>, x: int) {
    && path != [] && path[0] == x && Chain(parents, path)
    && (forall i :: 0 <= i < |path| ==> path[i] in parents)
    && (forall i :: 0 <= i < |path| - 1 ==> path[i] != path[i + 1])
  }

  /** The walk comes back to a node it has been at. */
  ghost predicate Loops(parents: Parents, path: seq<int>, x: int) {
    Walk(parents, path, x) && path[|path| - 1] in path[..|path| - 1]
  }

  /** There is no going on from the node. */
  ghost predicate Stuck(parents: Parents, x: int) {
    x !in parents || parents[x].None? || parents[x].value == x || parents[x].value !in parents
  }

  /** The walk ends where the unit has no parent, or itself for one. */
  ghost predicate WalkToRoot(parents: Parents, path: seq<int>, x: int) {
    && Walk(parents, path, x) && NoDuplicates(path)
    && var last := path[|path| - 1];
    last in parents && (parents[last] == None || parents[last] == Some(last))
  }

  lemma WalkGoesOn(parents: Parents, path: seq<int>, x: int, n: nat)
    requires Walk(parents, path, x) && n < |path| - 1
    ensures !Stuck(parents, path[n])
  {
    assert IsParent(parents, path[n], path[n + 1]);
  }

  /** A walk that cannot go on is the only long one, so none loops. */
  lemma StuckWalkExcludesLoop(parents: Parents, path: seq<int>, x: int, other: seq<int>)
    requires Walk(parents, path, x) && NoDuplicates(path) && Stuck(parents, path[|path| - 1])
    ensures !Loops(parents, other, x)
  {
    if Walk(parents, other, x) {
      if |other| <= |path| {
        OneWayUp(parents, other, path);
      } else {
        WalkGoesOn(parents, other, x, |path| - 1);
        OneWayUp(parents, path, other);
      }
    }
  }

  /** All nodes of a walk without repetitions are different units. */
  lemma {:induction false} WalkIsShort(ous: set<int>, path: seq<int>)
    requires NoDuplicates(path) && forall i :: 0 <= i < |path| ==> path[i] in ous
    ensures |path| <= |ous|
    decreases |path|
  {
    if path != [] {
      var last := path[|path| - 1];
      WalkIsShort(ous - {last}, path[..|path| - 1]);
    }
  }

  /** No two children of `o` share anything below them, if neither is below itself. */
  lemma SiblingsAreApart(parents: Parents, o: int, c: int, d: int, x: int)
    requires !Below(parents, c, c) && !Below(parents, d, d)
    requires IsParent(parents, c, o) && IsParent(parents, d, o) && c != d
    ensures !(AtOrBelow(parents, x, c) && AtOrBelow(parents, x, d))
  {
    if AtOrBelow(parents, x, c) && AtOrBelow(parents, x, d) {
      Comparable(parents, x, c, d);
      if AtOrBelow(parents, c, d) {
        ChildNotBelowSibling(parents, o, c, d);
      } else {
        ChildNotBelowSibling(parents, o, d, c);
      }
    }
  }

  lemma ChildNotBelowSibling(parents: Parents, o: int, c: int, d: int)
    requires !Below(parents, d, d) && IsParent(parents, c, o) && IsParent(parents, d, o)
    ensures !Below(parents, c, d)
  {
    if Below(parents, c, d) {
      AboveTheParent(parents, c, d);
      ParentIsAbove(parents, d, o);
      BelowTrans(parents, d, o, d);
    }
  }

  /** Of two nodes above the same node one is above the other. */
  lemma Comparable(parents: Parents, x: int, a: int, b: int)
    requires AtOrBelow(parents, x, a) && AtOrBelow(parents, x, b)
    ensures AtOrBelow(parents, a, b) || AtOrBelow(parents, b, a)
  {
    if x != a && x != b {
      var p :| ChainFromTo(parents, p, x, a) && |p| >= 2;
      var q :| ChainFromTo(parents, q, x, b) && |q| >= 2;
      if |p| <= |q| {
        OneWayUp(parents, p, q);
        assert ChainFromTo(parents, q[|p| - 1..], a, b);
      } else {
        OneWayUp(parents, q, p);
        assert ChainFromTo(parents, p[|q| - 1..], b, a);
      }
    }
  }

  /** What is below `o` is a child of it or below one. */
  lemma BelowSomeChild(parents: Parents, x: int, o: int) returns (c: int)
    requires Below(parents, x, o)
    ensures IsParent(parents, c, o) && AtOrBelow(parents, x, c)
  {
    var p :| ChainFromTo(parents, p, x, o) && |p| >= 2;
    c := p[|p| - 2];
    assert IsParent(parents, p[|p| - 2], p[|p| - 1]);
    if |p| > 2 {
      assert ChainFromTo(parents, p[..|p| - 1], x, c);
    }
  }

  lemma ChildIsBelow(parents: Parents, x: int, c: int, o: int)
    requires IsParent(parents, c, o) && AtOrBelow(parents, x, c)
    ensures Below(parents, x, o)
  {
    ParentIsAbove(parents, c, o);
    BelowTrans(parents, x, c, o);
  }

  lemma NoDuplicatesTogether(a: seq<int>, b: seq<int>)
    requires NoDuplicates(a) && NoDuplicates(b) && forall x :: x in a ==> x !in b
    ensures NoDuplicates(a + b)
  {
    var ab := a + b;
    forall i, j | 0 <= i < j < |ab| ensures ab[i] != ab[j] {
      assert (i < |a| ==> ab[i] in a) && (j >= |a| ==> ab[j] in b);
      assert i >= |a| ==> ab[i] == b[i - |a|] && ab[j] == b[j - |a|];
    }
  }

  /** All that is below `o`. */
  ghost function Descendants(parents: Parents, o: int): set<int> {
    set x | x in parents && Below(parents, x, o)
  }

  lemma FewerDescendants(parents: Parents, o: int, c: int)
    requires !Below(parents, c, c) && IsParent(parents, c, o)
    ensures Descendants(parents, c) < Descendants(parents, o)
  {
    ParentIsAbove(parents, c, o);
    forall x | x in Descendants(parents, c) ensures x in Descendants(parents, o) {
      BelowTrans(parents, x, c, o);
    }
    assert c in Descendants(parents, o) && c !in Descendants(parents, c);
  }

  /** Listing what is below `o` takes no more than `n` calls inside each other. */
  ghost predicate EndsWithin(parents: Parents, o: int, n: nat)
    decreases n
  {
    n > 0 && forall c :: IsParent(parents, c, o) ==> EndsWithin(parents, c, n - 1)
  }

  /** No chain up to `o` is longer than listing is deep. */
  lemma {:induction false} ChainsAreShort(parents: Parents, o: int, n: nat, path: seq<int>)
    requires EndsWithin(parents, o, n) && path != [] && Chain(parents, path) && path[|path| - 1] == o
    ensures |path| <= n
    decreases n
  {
    if |path| > 1 {
      assert IsParent(parents, path[|path| - 2], path[|path| - 1]);
      ChainsAreShort(parents, path[|path| - 2], n - 1, path[..|path| - 1]);
    }
  }

  lemma EndsWithoutCycle(parents: Parents, o: int, n: nat)
    requires EndsWithin(parents, o, n)
    ensures NoCycleUnder(parents, o)
  {
    forall x | AtOrBelow(parents, x, o) ensures !Below(parents, x, x) {
      if Below(parents, x, x) {
        var path := CycleDescendsForever(parents, x, o, n);
        ChainsAreShort(parents, o, n, path);
      }
    }
  }

  lemma {:induction false} EndsAtLast(parents: Parents, o: int)
    requires NoCycleUnder(parents, o)
    ensures EndsWithin(parents, o, |Descendants(parents, o)| + 1)
    decreases Descendants(parents, o)
  {
    var n := |Descendants(parents, o)|;
    forall c | IsParent(parents, c, o) ensures EndsWithin(parents, c, n) {
      ParentIsAbove(parents, c, o);
      forall x | AtOrBelow(parents, x, c) ensures AtOrBelow(parents, x, o) {
        BelowTrans(parents, x, c, o);
      }
      FewerDescendants(parents, o, c);
      EndsAtLast(parents, c);
      SubsetSize(Descendants(parents, c), Descendants(parents, o));
      EndsWithinMore(parents, c, |Descendants(parents, c)| + 1, n);
    }
  }

  lemma {:induction false} EndsWithinMore(parents: Parents, o: int, m: nat, n: nat)
    requires EndsWithin(parents, o, m) && m <= n
    ensures EndsWithin(parents, o, n)
    decreases m
  {
    forall c | IsParent(parents, c, o) ensures EndsWithin(parents, c, n - 1) {
      EndsWithinMore(parents, c, m - 1, n - 1);
    }
  }

  /** Listing what is below `o` ends at some depth just when there is no cycle at or below `o`. */
  lemma ListingEndsWithoutCycle(parents: Parents, o: int)
    ensures (exists n: nat :: EndsWithin(parents, o, n)) <==> NoCycleUnder(parents, o)
  {
    forall n: nat | EndsWithin(parents, o, n) ensures NoCycleUnder(parents, o) {
      EndsWithoutCycle(parents, o, n);
    }
    if NoCycleUnder(parents, o) {
      EndsAtLast(parents, o);
      var n: nat := |Descendants(parents, o)| + 1;
      assert EndsWithin(parents, o, n);
    }
  }

  /** With a cycle at or below `o` there are arbitrarily long chains up to it. */
  lemma {:induction false} CycleDescendsForever(parents: Parents, x: int, o: int, n: nat) returns (path: seq<int>)
    requires AtOrBelow(parents, x, o) && Below(parents, x, x)
    ensures |path| > n && Chain(parents, path) && path[|path| - 1] == o && path[0] == x
  {
    if n == 0 {
      if x == o {
        path := [o];
      } else {
        path :| ChainFromTo(parents, path, x, o) && |path| >= 2;
      }
    } else {
      var rest := CycleDescendsForever(parents, x, o, n - 1);
      var round :| ChainFromTo(parents, round, x, x) && |round| >= 2;
      path := round + rest[1..];
    }
  }

  /** One more child, with all that is below it, goes on the list. */
  lemma AddChild(parents: Parents, o: int, rows: seq<int>, i: nat, n: nat, ouIds: seq<int>, below: seq<int>)
    requires NoDuplicates(rows) && i < |rows| && forall x :: x in rows ==> IsParent(parents, x, o)
    requires forall j :: 0 <= j <= i ==> EndsWithin(parents, rows[j], n)
    requires NoDuplicates(ouIds) && NoDuplicates(below)
    requires forall x :: x in ouIds <==> exists j :: 0 <= j < i && AtOrBelow(parents, x, rows[j])
    requires forall x :: x in below <==> Below(parents, x, rows[i])
    ensures NoDuplicates(ouIds + ([rows[i]] + below))
    ensures forall x :: x in ouIds + ([rows[i]] + below) <==> exists j :: 0 <= j <= i && AtOrBelow(parents, x, rows[j])
  {
    var c := rows[i];
    assert c in rows;
    EndsWithoutCycle(parents, c, n);
    forall x | x in ouIds ensures !AtOrBelow(parents, x, c) {
      var j :| 0 <= j < i && AtOrBelow(parents, x, rows[j]);
      assert rows[j] in rows;
      EndsWithoutCycle(parents, rows[j], n);
      SiblingsAreApart(parents, o, rows[j], c, x);
    }
    NoDuplicatesTogether([c], below);
    NoDuplicatesTogether(ouIds, [c] + below);
  }

  class OuStructure {
    /** Table ou_info. */
    var ous: set<int>
    /** Table ou_structure, for one perspective. */
    var parents: Parents

    /** The tables' constraints: rows are of units, and parents have rows themselves. */
    ghost predicate Valid()
      reads this
    {
      forall x :: x in parents ==> x in ous && (parents[x].Some? ==> parents[x].value in parents)
    }

    constructor (ous: set<int>)
      ensures Valid() && this.ous == ous && parents == map[]
    {
      this.ous, parents := ous, map[];
    }

    /** The unit and its parents, from the bottom up. */
    method ListOuPath(ou: int) returns (r: Result<seq<int>, Failure>)
      requires Valid()
      ensures r.Ok? <==> exists path :: WalkToRoot(parents, path, ou)
      ensures r.Ok? ==> WalkToRoot(parents, r.value, ou)
      ensures r == Err(LoopDetected) <==> exists path :: Loops(parents, path, ou)
      ensures r == Err(NotFound) <==> ou !in parents
      ensures r != Err(RecursionLimit)
    {
      if ou !in parents {
        return Err(NotFound);
      }
      var temp := ou;
      var visited: seq<int> := [];
      while true
        invariant Walk(parents, visited + [temp], ou) && NoDuplicates(visited)
        decreases |parents| - |visited|
      {
        ghost var path := visited + [temp];
        if temp in visited {
          assert Loops(parents, path, ou) by {
            assert path[..|path| - 1] == visited;
          }
          forall other ensures !WalkToRoot(parents, other, ou) {
            if WalkToRoot(parents, other, ou) {
              StuckWalkExcludesLoop(parents, other, ou, path);
            }
          }
          return Err(LoopDetected);
        }
        WalkIsShort(parents.Keys, path);
        visited := visited + [temp];
        if parents[temp] == None || parents[temp] == Some(temp) {
          forall other ensures !Loops(parents, other, ou) {
            StuckWalkExcludesLoop(parents, path, ou, other);
          }
          assert WalkToRoot(parents, visited, ou);
          return Ok(visited);
        }
        temp := parents[temp].value;
      }
    }

    /** One query: the units whose parent is `o`, in some order. */
    method Children(o: int) returns (rows: seq<int>)
      ensures NoDuplicates(rows) && forall x :: x in rows <==> IsParent(parents, x, o)
    {
      rows := [];
      var unread := set x | x in parents && parents[x] == Some(o);
      while unread != {}
        invariant NoDuplicates(rows)
        invariant forall x :: IsParent(parents, x, o) <==> x in rows || x in unread
        invariant forall x :: x in rows ==> x !in unread
      {
        ghost var _ := HasMember(unread);
        var x :| x in unread;
        rows, unread := rows + [x], unread - {x};
      }
    }

    /**
     All units below `o`, each of them once.  There is no guard against cycles:
     `depth` is how many nested calls the interpreter still allows.
     */
    method ListAllChildren(o: int, depth: nat) returns (r: Result<seq<int>, Failure>)
      ensures r.Ok? <==> EndsWithin(parents, o, depth)
      ensures r.Err? ==> r == Err(RecursionLimit)
      ensures r.Ok? ==> NoDuplicates(r.value) && forall x :: x in r.value <==> Below(parents, x, o)
      decreases depth
    {
      if depth == 0 {
        return Err(RecursionLimit);
      }
      var ouIds: seq<int> := [];
      var rows := Children(o);
      for i := 0 to |rows|
        invariant NoDuplicates(ouIds)
        invariant forall j :: 0 <= j < i ==> EndsWithin(parents, rows[j], depth - 1)
        invariant forall x :: x in ouIds <==> exists j :: 0 <= j < i && AtOrBelow(parents, x, rows[j])
      {
        var c := rows[i];
        assert c in rows;
        var below := ListAllChildren(c, depth - 1);
        if below.Err? {
          return Err(RecursionLimit);
        }
        AddChild(parents, o, rows, i, depth - 1, ouIds, below.value);
        ouIds := ouIds + ([c] + below.value);
      }
      forall x ensures x in ouIds <==> Below(parents, x, o) {
        if Below(parents, x, o) {
          ghost var c := BelowSomeChild(parents, x, o);
          assert c in rows;
        } else if x in ouIds {
          ghost var j :| 0 <= j < |rows| && AtOrBelow(parents, x, rows[j]);
          assert rows[j] in rows;
          ChildIsBelow(parents, x, rows[j], o);
        }
      }
      return Ok(ouIds);
    }

    /**
     Give the unit a parent, or make it a root.  Refused unless the parent has a
     row, if only the one being written.
     */
    method SetParent(ou: int, parent: Option<int>) returns (ok: bool)
      requires Valid() && ou in ous
      modifies this`parents
      ensures Valid()
      ensures ok <==> parent.None? || parent == Some(ou) || parent.value in old(parents)
      ensures parents == if ok then old(parents)[ou := parent] else old(parents)
    {
      if ou in parents && parents[ou] == parent {
        return true;
      }
      if parent.Some? && parent.value != ou && parent.value !in parents {
        return false;
      }
      parents := parents[ou := parent];
      return true;
    }

    /** Take the unit out of the structure.  Refused while it has children other than itself. */
    method UnsetParent(ou: int) returns (ok: bool)
      requires Valid()
      modifies this`parents
      ensures Valid()
      ensures ok <==> forall x :: IsParent(old(parents), x, ou) ==> x == ou
      ensures parents == if ok then old(parents) - {ou} else old(parents)
    {
      if ou !in parents {
        return true;
      }
      if exists x :: x in parents && parents[x] == Some(ou) && x != ou {
        ghost var x :| x in parents && parents[x] == Some(ou) && x != ou;
        assert IsParent(parents, x, ou);
        return false;
      }
      parents := parents - {ou};
      return true;
    }
  }

  /**
   `x` is below `o` just when `o` is another unit on the path of `x`, or the root
   that the path ends with and its own parent.
   */
  lemma PathHasAncestors(parents: Parents, path: seq<int>, x: int, o: int)
    requires WalkToRoot(parents, path, x)
    ensures Below(parents, x, o) <==> (x != o && o in path) || (o == path[|path| - 1] && IsParent(parents, o, o))
    ensures !Below(parents, o, o) ==> (Below(parents, x, o) <==> x != o && o in path)
  {
    var n := |path| - 1;
    if Below(parents, x, o) {
      var p :| ChainFromTo(parents, p, x, o) && |p| >= 2;
      if |p| <= |path| {
        OneWayUp(parents, p, path);
        assert path[|p| - 1] == o;
      } else {
        assert IsParent(parents, p[n], p[n + 1]);
        OneWayUp(parents, path, p);
        RootStays(parents, p[n..]);
      }
    }
    if x != o && o in path {
      var i :| 0 <= i < |path| && path[i] == o;
      assert ChainFromTo(parents, path[..i + 1], x, o);
    }
    if IsParent(parents, o, o) {
      ParentIsAbove(parents, o, o);
      if o == path[n] {
        assert ChainFromTo(parents, path + [o], x, o);
      }
    }
  }

  /** A chain from a root that is its own parent goes nowhere. */
  lemma {:induction false} RootStays(parents: Parents, p: seq<int>)
    requires p != [] && Chain(parents, p) && IsParent(parents, p[0], p[0])
    ensures p[|p| - 1] == p[0]
    decreases |p|
  {
    if |p| > 1 {
      assert IsParent(parents, p[0], p[1]);
      RootStays(parents, p[1..]);
    }
  }

  /** What is listed below `o` are just the other units on whose path `o` is. */
  lemma ListedJustWhenOnPath(parents: Parents, ouIds: seq<int>, depth: nat, path: seq<int>, x: int, o: int)
    requires EndsWithin(parents, o, depth) && forall y :: y in ouIds <==> Below(parents, y, o)
    requires WalkToRoot(parents, path, x)
    ensures x in ouIds <==> x != o && o in path
  {
    EndsWithoutCycle(parents, o, depth);
    PathHasAncestors(parents, path, x, o);
  }

  /** A chain in the changed structure is an old one, or it uses the new parent. */
  lemma {:induction false} BelowAfterSet(parents: Parents, x: int, p: int, path: seq<int>)
    requires Chain(parents[x := Some(p)], path) && |path| >= 2
    ensures || Below(parents, path[0], path[|path| - 1])
            || (AtOrBelow(parents, path[0], x) && AtOrBelow(parents, p, path[|path| - 1]))
            || AtOrBelow(parents, p, x)
    decreases |path|
  {
    var changed := parents[x := Some(p)];
    var y, z := path[1], path[|path| - 1];
    assert IsParent(changed, path[0], y);
    if |path| > 2 {
      BelowAfterSet(parents, x, p, path[1..]);
    }
    if path[0] != x {
      ParentIsAbove(parents, path[0], y);
      if AtOrBelow(parents, y, z) {
        BelowTrans(parents, path[0], y, z);
      } else if AtOrBelow(parents, y, x) {
        BelowTrans(parents, path[0], y, x);
      }
    }
  }

  /** The way up to `x` need not pass `x` before, so that it is still there when the parent of `x` changes. */
  lemma {:induction false} StillBelowAfterSet(parents: Parents, x: int, p: int, path: seq<int>)
    requires path != [] && Chain(parents, path) && path[|path| - 1] == x
    ensures AtOrBelow(parents[x := Some(p)], path[0], x)
    decreases |path|
  {
    if path[0] != x {
      assert IsParent(parents, path[0], path[1]);
      StillBelowAfterSet(parents, x, p, path[1..]);
      ChildIsBelow(parents[x := Some(p)], path[0], path[0], path[1]);
      BelowTrans(parents[x := Some(p)], path[0], path[1], x);
    }
  }

  /**
   A new parent puts the unit on a cycle just when it is the unit itself or
   something below it; a structure without cycles then has none otherwise.
   */
  lemma SetParentMakesCycle(parents: Parents, x: int, p: int)
    ensures Below(parents[x := Some(p)], x, x) <==> AtOrBelow(parents, p, x)
    ensures Acyclic(parents) ==> (Acyclic(parents[x := Some(p)]) <==> !AtOrBelow(parents, p, x))
  {
    var changed := parents[x := Some(p)];
    ParentIsAbove(changed, x, p);
    if AtOrBelow(parents, p, x) {
      if p != x {
        var path :| ChainFromTo(parents, path, p, x) && |path| >= 2;
        StillBelowAfterSet(parents, x, p, path);
        BelowTrans(changed, x, p, x);
      }
    } else {
      if Below(changed, x, x) {
        var path :| ChainFromTo(changed, path, x, x) && |path| >= 2;
        assert IsParent(changed, path[0], path[1]);
        BelowAfterSet(parents, x, p, path[1..]);
      }
      if Acyclic(parents) {
        forall y ensures !Below(changed, y, y) {
          if Below(changed, y, y) {
            var path :| ChainFromTo(changed, path, y, y) && |path| >= 2;
            BelowAfterSet(parents, x, p, path);
            BelowTrans(parents, p, y, x);
          }
        }
      }
    }
  }
}
