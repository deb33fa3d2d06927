/**
 Rows that each occupy one integer slot, no two the same one.

 Both account types (`priority`) and person affiliations (`precedence`) make
 room for a row by pushing a contiguous run of occupied slots up by one.  This
 module states what such a push does to the whole list, independently of the
 order in which the rows are written.
 */
module SlotRuns {

  ghost predicate Distinct<K>(pos: map<K, int>) {
    forall a, b :: a in pos && b in pos && pos[a] == pos[b] ==> a == b
  }

  ghost function AtOrAbove(taken: set<int>, p: int): set<int> {
    set s | s in taken && p <= s
  }

  lemma AboveShrinks(taken: set<int>, p: int)
    requires p in taken
    ensures AtOrAbove(taken, p + 1) < AtOrAbove(taken, p)
  {
    assert p in AtOrAbove(taken, p) && p !in AtOrAbove(taken, p + 1);
  }

  /** The first slot at or above `p` that nobody occupies. */
  ghost function FirstFree(taken: set<int>, p: int): (e: int)
    ensures p <= e && e !in taken
    ensures forall s :: p <= s < e ==> s in taken
    decreases AtOrAbove(taken, p)
  {
    if p in taken then
      AboveShrinks(taken, p);
      FirstFree(taken, p + 1)
    else
      p
  }

  /** `p` up to the first free slot is the run of rows that stands in the way. */
  ghost predicate InRun<K>(pos: map<K, int>, p: int, k: K)
    requires k in pos
  {
    p <= pos[k] < FirstFree(pos.Values, p)
  }

  /** Every row of the run that starts at `p` moves up by one. */
  ghost function Pushed<K>(pos: map<K, int>, p: int): map<K, int> {
    map k | k in pos :: if InRun(pos, p, k) then pos[k] + 1 else pos[k]
  }

  /** Make room at `p`, then put row `k` there. */
  ghost function Placed<K>(pos: map<K, int>, p: int, k: K): map<K, int> {
    Pushed(pos, p)[k := p]
  }

  lemma PushNothing<K>(pos: map<K, int>, p: int)
    requires p !in pos.Values
    ensures Pushed(pos, p) == pos
  {
  }

  /** Pushing the run at `p` is pushing the run at `p + 1`, then moving the row at `p`. */
  lemma PushStep<K>(pos: map<K, int>, p: int, k: K)
    requires Distinct(pos) && k in pos && pos[k] == p
    ensures Pushed(pos, p) == Pushed(pos, p + 1)[k := p + 1]
  {
    assert pos[k] in pos.Values;
  }

  lemma PushKeepsDistinct<K>(pos: map<K, int>, p: int)
    requires Distinct(pos)
    ensures Distinct(Pushed(pos, p))
    ensures p !in Pushed(pos, p).Values
  {
    var q := Pushed(pos, p);
    var e := FirstFree(pos.Values, p);
    forall a, b | a in q && b in q && q[a] == q[b] ensures a == b {
      assert pos[a] in pos.Values && pos[b] in pos.Values;
    }
    forall a | a in q ensures q[a] != p {
      assert pos[a] in pos.Values;
    }
  }

  /** What placing a row guarantees to everybody. */
  lemma PlaceMeaning<K>(pos: map<K, int>, p: int, k: K)
    requires Distinct(pos)
    ensures var q := Placed(pos, p, k);
            && q.Keys == pos.Keys + {k}
            && q[k] == p
            && Distinct(q)
            && (forall a :: a in pos && a != k ==> pos[a] <= q[a] <= pos[a] + 1)
            && (forall a :: a in pos && a != k ==> (q[a] != pos[a] <==> InRun(pos, p, a)))
            && (forall a, b :: a in pos && b in pos && a != k && b != k ==>
                  (pos[a] < pos[b] <==> q[a] < q[b]))
  {
    PushKeepsDistinct(pos, p);
    var q, r := Placed(pos, p, k), Pushed(pos, p);
    forall a | a in r ensures r[a] != p {
      assert r[a] in r.Values;
    }
    forall a, b | a in pos && b in pos && a != k && b != k
      ensures pos[a] < pos[b] <==> q[a] < q[b]
    {
      assert pos[a] in pos.Values && pos[b] in pos.Values;
    }
  }

  /** A row put on a free slot displaces nobody. */
  lemma PlaceOnFreeSlot<K>(pos: map<K, int>, p: int, k: K)
    requires p !in pos.Values
    ensures Placed(pos, p, k) == pos[k := p]
  {
    PushNothing(pos, p);
  }

  /** `bySlot` lists the rows by the slot that each of them has. */
  ghost predicate Snapshot<K>(bySlot: map<int, K>, pos: map<K, int>) {
    && (forall p :: p in bySlot ==> bySlot[p] in pos && pos[bySlot[p]] == p)
    && (forall k :: k in pos ==> pos[k] in bySlot && bySlot[pos[k]] == k)
  }

  lemma SnapshotIsDistinct<K>(bySlot: map<int, K>, pos: map<K, int>)
    requires Snapshot(bySlot, pos)
    ensures Distinct(pos)
    ensures bySlot.Keys == pos.Values
  {
    forall p | p in bySlot ensures p in pos.Values {
      assert pos[bySlot[p]] == p;
    }
  }

  /** Reading one more row keeps the snapshot exact for the rows read so far. */
  lemma SnapshotGrows<K>(bySlot: map<int, K>, pos: map<K, int>, unread: set<K>, k: K)
    requires Distinct(pos) && unread <= pos.Keys && k in unread
    requires Snapshot(bySlot, pos - unread)
    ensures Snapshot(bySlot[pos[k] := k], pos - (unread - {k}))
  {
    var seen := pos - unread;
    assert pos - (unread - {k}) == seen[k := pos[k]];
    forall a | a in seen ensures pos[a] != pos[k] {
      assert a != k;
    }
    forall p | p in bySlot ensures p != pos[k] {
      assert seen[bySlot[p]] == p;
    }
  }

  /** Sending the row at `p` to `p + 1`, if there is such a row, pushes the whole run. */
  lemma RunIsPushed<K>(pos: map<K, int>, pos': map<K, int>, bySlot: map<int, K>, p: int)
    requires Snapshot(bySlot, pos)
    requires pos' == if p in bySlot then Placed(pos, p + 1, bySlot[p]) else pos
    ensures pos' == Pushed(pos, p)
  {
    SnapshotIsDistinct(bySlot, pos);
    if p in bySlot {
      PushStep(pos, p, bySlot[p]);
    } else {
      PushNothing(pos, p);
    }
  }
}
