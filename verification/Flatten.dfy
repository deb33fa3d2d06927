/**
 Flattening: make one group's direct members the transformed members, direct and
 indirect, of another group.
 */
module Flatten {
  import opened Wrappers
  import opened Sets
  import opened Groups

  type Transform = (EntityType, int) -> Option<(EntityType, int)>

  function Noop(): Transform {
    (t, id) => Some((t, id))
  }

  /** Persons become their primary accounts; everything else is left out. */
  function PersonalAccount(primaryAccounts: map<int, int>): Transform {
    (t, id) => if t == PersonType && id in primaryAccounts then Some((AccountType, primaryAccounts[id])) else None
  }

  /** Accounts become their owners, persons stay; everything else is left out. */
  function Person(owners: map<int, int>): Transform {
    (t, id) =>
      if t == PersonType then Some((t, id))
      else if t == AccountType && id in owners then Some((PersonType, owners[id]))
      else None
  }

  /** Given entities under their own types, a transform answers the same way. */
  ghost predicate WellTyped(entityType: map<int, EntityType>, transform: Transform) {
    forall t, id :: id in entityType && entityType[id] == t && transform(t, id).Some? ==>
      transform(t, id).value.1 in entityType && entityType[transform(t, id).value.1] == transform(t, id).value.0
  }

  lemma TransformsAreWellTyped(entityType: map<int, EntityType>, primaryAccounts: map<int, int>, owners: map<int, int>)
    ensures WellTyped(entityType, Noop())
    ensures (forall p :: p in primaryAccounts ==>
               primaryAccounts[p] in entityType && entityType[primaryAccounts[p]] == AccountType) ==>
              WellTyped(entityType, PersonalAccount(primaryAccounts))
    ensures (forall a :: a in owners ==> owners[a] in entityType && entityType[owners[a]] == PersonType) ==>
              WellTyped(entityType, Person(owners))
  {
  }

  function TransformMembers(items: set<(EntityType, int)>, transform: Transform): set<(EntityType, int)> {
    set m | m in items && transform(m.0, m.1).Some? :: transform(m.0, m.1).value
  }

  function DirectMembers(members: set<Member>, group: int): set<(EntityType, int)> {
    set m | m in members && m.group == group :: (m.memberType, m.member)
  }

  /** What a row says about its member. */
  function MemberOf(row: Member): (EntityType, int) {
    (row.memberType, row.member)
  }

  /** The rows under `source` and the groups within it, but for those of groups and of members that are `gone`. */
  ghost function RowsUnder(members: set<Member>, gone: set<int>, source: int): set<Member> {
    set r | r in members && WithinOrSame(members, r.group, source) && r.memberType != GroupType && r.member !in gone
  }

  /** The members that flattening `source` is to give. */
  ghost function Flattened(members: set<Member>, gone: set<int>, source: int, transform: Transform)
    : set<(EntityType, int)>
  {
    TransformMembers(set r | r in RowsUnder(members, gone, source) :: MemberOf(r), transform)
  }

  /** Only the rows of one group may differ. */
  ghost predicate OthersSame(members: set<Member>, members': set<Member>, group: int) {
    forall m: Member :: m.group != group ==> (m in members <==> m in members')
  }

  lemma RemoveOne(entityType: map<int, EntityType>, members: set<Member>, group: int, m: (EntityType, int))
    requires forall r :: r in members ==> r.member in entityType && r.memberType == entityType[r.member]
    requires m in DirectMembers(members, group)
    ensures DirectMembers((set r | r in members && !(r.group == group && r.member == m.1)), group)
            == DirectMembers(members, group) - {m}
  {
    var left := set r | r in members && !(r.group == group && r.member == m.1);
    forall x | x in DirectMembers(members, group) - {m} ensures x in DirectMembers(left, group) {
      var r :| r in members && r.group == group && (r.memberType, r.member) == x;
      assert r in left;
    }
  }

  lemma AddOne(members: set<Member>, group: int, m: (EntityType, int))
    ensures DirectMembers(members + {Member(group, m.0, m.1)}, group) == DirectMembers(members, group) + {m}
  {
    var more := members + {Member(group, m.0, m.1)};
    assert Member(group, m.0, m.1) in more;
    forall x | x in DirectMembers(members, group) ensures x in DirectMembers(more, group) {
      var r :| r in members && r.group == group && (r.memberType, r.member) == x;
      assert r in more;
    }
  }

  /** Take out some of the group's direct members. */
  method RemoveMembers(db: GroupDb, dest: int, toRemove: set<(EntityType, int)>)
    requires db.Valid() && toRemove <= DirectMembers(db.members, dest)
    modifies db`members
    ensures db.Valid() && OthersSame(old(db.members), db.members, dest)
    ensures DirectMembers(db.members, dest) == old(DirectMembers(db.members, dest)) - toRemove
  {
    var left := toRemove;
    while left != {}
      invariant db.Valid() && OthersSame(old(db.members), db.members, dest) && left <= toRemove
      invariant DirectMembers(db.members, dest) == old(DirectMembers(db.members, dest)) - (toRemove - left)
    {
      ghost var _ := HasMember(left);
      var m :| m in left;
      RemoveOne(db.entityType, db.members, dest, m);
      db.RemoveMember(dest, m.1);
      left := left - {m};
    }
  }

  /** Put in some new direct members; it stops only at the group itself. */
  method AddMembers(db: GroupDb, dest: int, toAdd: set<(EntityType, int)>) returns (ok: bool)
    requires db.Valid() && dest in db.groups && toAdd !! DirectMembers(db.members, dest)
    requires forall m :: m in toAdd ==> m.1 in db.entityType && db.entityType[m.1] == m.0
    modifies db`members
    ensures db.Valid() && OthersSame(old(db.members), db.members, dest)
    ensures ok <==> (GroupType, dest) !in toAdd
    ensures old(DirectMembers(db.members, dest)) <= DirectMembers(db.members, dest)
                                                 <= old(DirectMembers(db.members, dest)) + toAdd
    ensures ok ==> DirectMembers(db.members, dest) == old(DirectMembers(db.members, dest)) + toAdd
  {
    var left := toAdd;
    while left != {}
      invariant db.Valid() && OthersSame(old(db.members), db.members, dest) && left <= toAdd
      invariant DirectMembers(db.members, dest) == old(DirectMembers(db.members, dest)) + (toAdd - left)
      invariant (GroupType, dest) !in toAdd - left
    {
      ghost var _ := HasMember(left);
      var m :| m in left;
      AddOne(db.members, dest, m);
      var failure := db.AddMember(dest, m.1);
      if failure.Some? {
        return false;
      }
      left := left - {m};
    }
    return true;
  }

  /** No chain of memberships up to `source` goes through `dest`, so it does not depend on its rows. */
  lemma {:induction false} ChainAvoids(members: set<Member>, members': set<Member>, dest: int, source: int, path: seq<int>)
    requires OthersSame(members, members', dest) && dest != source && !Within(members, dest, source)
    requires path != [] && path[|path| - 1] == source && Chain(members', path)
    ensures Chain(members, path)
    decreases |path|
  {
    if |path| > 1 {
      ChainAvoids(members, members', dest, source, path[1..]);
      assert path[1] != dest by {
        if path[1] == dest {
          assert ChainFromTo(members, path[1..], dest, source);
        }
      }
      assert DirectMember(members', path[0], path[1]);
      var t :| Member(path[1], t, path[0]) in members';
      assert Member(path[1], t, path[0]).group != dest;
      assert DirectMember(members, path[0], path[1]);
      forall i | 0 < i < |path| - 1 ensures DirectMember(members, path[i], path[i + 1]) {
        assert DirectMember(members, path[1..][i - 1], path[1..][i]);
      }
    }
  }

  /** Changing the rows of a group that is not within `source` changes nothing within `source`. */
  lemma UnreachableIsIrrelevant(members: set<Member>, members': set<Member>, dest: int, source: int, x: int)
    requires OthersSame(members, members', dest) && dest != source && !Within(members, dest, source)
    ensures !Within(members', dest, source)
    ensures Within(members, x, source) <==> Within(members', x, source)
  {
    forall y | Within(members', y, source) ensures Within(members, y, source) {
      var path :| ChainFromTo(members', path, y, source) && |path| >= 2;
      ChainAvoids(members, members', dest, source, path);
      assert ChainFromTo(members, path, y, source);
    }
    if Within(members, x, source) {
      var path :| ChainFromTo(members, path, x, source) && |path| >= 2;
      ChainAvoids(members', members, dest, source, path);
      assert ChainFromTo(members', path, x, source);
    }
  }

  method FetchDirect(db: GroupDb, group: int, now: int) returns (found: set<(EntityType, int)>)
    requires db.Valid()
    ensures found == DirectMembers(db.members, group)
  {
    var rows := db.SearchMembers({group}, true, false, false, now);
    found := set m | m in rows.value :: MemberOf(m);
  }

  method FetchWanted(db: GroupDb, source: int, transform: Transform, now: int) returns (wanted: set<(EntityType, int)>)
    requires db.Valid()
    ensures wanted == Flattened(db.members, db.ExpiredIds(now), source, transform)
  {
    var rows := db.SearchMembers({source}, true, true, true, now);
    var sourceRows := set m | m in rows.value && m.memberType != GroupType;
    forall r: Member ensures r in sourceRows <==> r in RowsUnder(db.members, db.ExpiredIds(now), source) {
      assert source in {source};
    }
    assert sourceRows == RowsUnder(db.members, db.ExpiredIds(now), source);
    wanted := TransformMembers(set m | m in sourceRows :: MemberOf(m), transform);
  }

  /**
   Make the direct members of `dest` what flattening `source` gives; it stops
   only if that is to have `dest` itself.  It is still what flattening gives
   afterwards, so that doing it again changes nothing, if `dest` takes no part in
   `source`, or if what the transform answers is settled.
   */
  method SyncMembers(db: GroupDb, source: int, dest: int, transform: Transform, now: int)
    returns (ok: bool, toAdd: set<(EntityType, int)>, toRemove: set<(EntityType, int)>)
    requires db.Valid() && dest in db.groups && WellTyped(db.entityType, transform)
    modifies db`members
    ensures db.Valid() && OthersSame(old(db.members), db.members, dest)
    ensures var wanted := old(Flattened(db.members, db.ExpiredIds(now), source, transform));
            && (ok <==> (GroupType, dest) !in wanted)
            && toAdd == wanted - old(DirectMembers(db.members, dest))
            && toRemove == old(DirectMembers(db.members, dest)) - wanted
            && (ok ==> DirectMembers(db.members, dest) == wanted)
            && DirectMembers(db.members, dest) <= wanted
    ensures ok ==> SyncStep(db.entityType, db.ExpiredIds(now), transform, old(db.members), db.members, source, dest)
    ensures ok && (!WithinOrSame(old(db.members), dest, source) || Settled(db.entityType, db.ExpiredIds(now), transform)) ==>
              Flattened(db.members, db.ExpiredIds(now), source, transform) == DirectMembers(db.members, dest)
  {
    var currentMembers := FetchDirect(db, dest, now);
    var wantedMembers := FetchWanted(db, source, transform, now);
    toAdd := wantedMembers - currentMembers;
    toRemove := currentMembers - wantedMembers;
    assert (GroupType, dest) !in currentMembers;
    RemoveMembers(db, dest, toRemove);
    ok := AddMembers(db, dest, toAdd);
    if ok {
      ghost var gone := db.ExpiredIds(now);
      if !WithinOrSame(old(db.members), dest, source) {
        UnreachableIsStable(old(db.members), db.members, gone, source, dest, transform);
      } else if Settled(db.entityType, gone, transform) {
        SettledIsStable(db.entityType, gone, transform, old(db.members), db.members, source, dest);
      }
    }
  }

  lemma UnreachableIsStable(members: set<Member>, members': set<Member>, gone: set<int>, source: int, dest: int,
                            transform: Transform)
    requires OthersSame(members, members', dest) && !WithinOrSame(members, dest, source)
    ensures Flattened(members', gone, source, transform) == Flattened(members, gone, source, transform)
  {
    forall r: Member ensures r in RowsUnder(members', gone, source) <==> r in RowsUnder(members, gone, source) {
      UnreachableIsIrrelevant(members, members', dest, source, r.group);
    }
    assert RowsUnder(members', gone, source) == RowsUnder(members, gone, source);
  }

  /** Rows of a valid group table. */
  ghost predicate TypedRows(entityType: map<int, EntityType>, members: set<Member>) {
    forall m :: m in members ==>
      && m.group in entityType && entityType[m.group] == GroupType
      && m.member in entityType && m.memberType == entityType[m.member]
  }

  /** From the first table to the second one, the direct members of `dest` have become what flattening gave. */
  ghost predicate SyncStep(entityType: map<int, EntityType>, gone: set<int>, transform: Transform,
                           members: set<Member>, members': set<Member>, source: int, dest: int)
  {
    && TypedRows(entityType, members) && TypedRows(entityType, members')
    && dest in entityType && entityType[dest] == GroupType
    && OthersSame(members, members', dest)
    && DirectMembers(members', dest) == Flattened(members, gone, source, transform)
  }

  /** An entity that flattening has the transform look at. */
  ghost predicate Eligible(entityType: map<int, EntityType>, gone: set<int>, t: EntityType, id: int) {
    id in entityType && entityType[id] == t && t != GroupType && id !in gone
  }

  /** What the transform answers is eligible in turn, and answered with itself. */
  ghost predicate Settled(entityType: map<int, EntityType>, gone: set<int>, transform: Transform) {
    forall t, id :: Eligible(entityType, gone, t, id) && transform(t, id).Some? ==>
      var w := transform(t, id).value;
      w.0 != GroupType && w.1 !in gone && transform(w.0, w.1) == Some(w)
  }

  /** A chain of groups in the synced table was there before: `dest` has no groups now. */
  lemma {:induction false} GroupChainWasThere(entityType: map<int, EntityType>, members: set<Member>, members': set<Member>,
                                              dest: int, path: seq<int>)
    requires TypedRows(entityType, members') && OthersSame(members, members', dest)
    requires forall m :: m in DirectMembers(members', dest) ==> m.0 != GroupType
    requires path != [] && path[0] in entityType && entityType[path[0]] == GroupType && Chain(members', path)
    ensures Chain(members, path)
    decreases |path|
  {
    if |path| > 1 {
      assert DirectMember(members', path[0], path[1]);
      var t :| Member(path[1], t, path[0]) in members';
      assert path[1] == dest ==> MemberOf(Member(path[1], t, path[0])) in DirectMembers(members', dest);
      assert Member(path[1], t, path[0]).group == path[1];
      GroupChainWasThere(entityType, members, members', dest, path[1..]);
      assert DirectMember(members, path[0], path[1]);
      forall i | 0 < i < |path| - 1 ensures DirectMember(members, path[i], path[i + 1]) {
        assert DirectMember(members, path[1..][i - 1], path[1..][i]);
      }
    }
  }

  /** The way up from `dest` does not need the rows of `dest`. */
  lemma {:induction false} StillTakesPart(members: set<Member>, members': set<Member>, dest: int, source: int, path: seq<int>)
    requires OthersSame(members, members', dest)
    requires dest in path && path[|path| - 1] == source && Chain(members, path)
    ensures WithinOrSame(members', dest, source)
    decreases |path|
  {
    if dest in path[1..] {
      StillTakesPart(members, members', dest, source, path[1..]);
    } else if |path| > 1 {
      assert path == [path[0]] + path[1..];
      forall i | 0 <= i < |path| - 1 ensures DirectMember(members', path[i], path[i + 1]) {
        assert DirectMember(members, path[i], path[i + 1]) && path[i + 1] in path[1..];
        var t :| Member(path[i + 1], t, path[i]) in members;
        assert Member(path[i + 1], t, path[i]).group != dest;
      }
      assert ChainFromTo(members', path, dest, source);
    }
  }

  /** With a settled transform, flattening gives the same after a sync, whatever part the destination takes. */
  lemma SettledIsStable(entityType: map<int, EntityType>, gone: set<int>, transform: Transform,
                        members: set<Member>, members': set<Member>, source: int, dest: int)
    requires SyncStep(entityType, gone, transform, members, members', source, dest)
    requires Settled(entityType, gone, transform)
    ensures Flattened(members', gone, source, transform) == Flattened(members, gone, source, transform)
  {
    if !WithinOrSame(members, dest, source) {
      UnreachableIsStable(members, members', gone, source, dest, transform);
      return;
    }
    if dest != source {
      var path :| ChainFromTo(members, path, dest, source) && |path| >= 2;
      StillTakesPart(members, members', dest, source, path);
    }
    var wanted := Flattened(members, gone, source, transform);
    forall w | w in wanted ensures w.0 != GroupType && w.1 !in gone && transform(w.0, w.1) == Some(w) {
      var r :| r in RowsUnder(members, gone, source) && transform(r.memberType, r.member) == Some(w);
      assert Eligible(entityType, gone, r.memberType, r.member);
    }
    forall w | w in wanted ensures w in Flattened(members', gone, source, transform) {
      var r :| r in members' && r.group == dest && MemberOf(r) == w;
      assert r in RowsUnder(members', gone, source);
      InFlattened(members', gone, source, transform, r);
    }
    forall w | w in Flattened(members', gone, source, transform) ensures w in wanted {
      var r :| r in RowsUnder(members', gone, source) && transform(r.memberType, r.member) == Some(w);
      if r.group == dest {
        assert MemberOf(r) in DirectMembers(members', dest);
      } else {
        if r.group != source {
          var path :| ChainFromTo(members', path, r.group, source) && |path| >= 2;
          GroupChainWasThere(entityType, members, members', dest, path);
          assert ChainFromTo(members, path, r.group, source);
        }
        assert r in RowsUnder(members, gone, source);
        InFlattened(members, gone, source, transform, r);
      }
    }
  }

  lemma InFlattened(members: set<Member>, gone: set<int>, source: int, transform: Transform, r: Member)
    requires r in RowsUnder(members, gone, source) && transform(r.memberType, r.member).Some?
    ensures transform(r.memberType, r.member).value in Flattened(members, gone, source, transform)
  {
    assert MemberOf(r) in (set q | q in RowsUnder(members, gone, source) :: MemberOf(q));
  }

  /** Syncing twice is always the same as syncing once. */
  ghost predicate Stable(entityType: map<int, EntityType>, gone: set<int>, transform: Transform) {
    forall members, members', source, dest :: SyncStep(entityType, gone, transform, members, members', source, dest) ==>
      Flattened(members', gone, source, transform) == Flattened(members, gone, source, transform)
  }

  /** Just the settled transforms are stable, among those that answer no groups. */
  lemma StableMeaning(entityType: map<int, EntityType>, gone: set<int>, transform: Transform, group: int)
    requires group in entityType && entityType[group] == GroupType && WellTyped(entityType, transform)
    requires forall t, id :: Eligible(entityType, gone, t, id) && transform(t, id).Some? ==>
               transform(t, id).value.0 != GroupType
    ensures Stable(entityType, gone, transform) <==> Settled(entityType, gone, transform)
  {
    if Settled(entityType, gone, transform) {
      forall members, members', source, dest | SyncStep(entityType, gone, transform, members, members', source, dest)
        ensures Flattened(members', gone, source, transform) == Flattened(members, gone, source, transform)
      {
        SettledIsStable(entityType, gone, transform, members, members', source, dest);
      }
    } else {
      var t, id :| Eligible(entityType, gone, t, id) && transform(t, id).Some?
                   && !(transform(t, id).value.1 !in gone
                        && transform(transform(t, id).value.0, transform(t, id).value.1) == transform(t, id));
      UnsettledIsUnstable(entityType, gone, transform, group, t, id);
    }
  }

  /** A group with one member, synced with itself, has something else for a member then. */
  lemma UnsettledIsUnstable(entityType: map<int, EntityType>, gone: set<int>, transform: Transform, group: int,
                            t: EntityType, id: int)
    requires group in entityType && entityType[group] == GroupType && WellTyped(entityType, transform)
    requires Eligible(entityType, gone, t, id) && transform(t, id).Some? && transform(t, id).value.0 != GroupType
    requires var w := transform(t, id).value; !(w.1 !in gone && transform(w.0, w.1) == Some(w))
    ensures !Stable(entityType, gone, transform)
  {
    var w := transform(t, id).value;
    var members, members' := {Member(group, t, id)}, {Member(group, w.0, w.1)};
    OneRow(members, gone, transform, group, t, id);
    OneRow(members', gone, transform, group, w.0, w.1);
    assert DirectMembers(members', group) == {w} by {
      assert Member(group, w.0, w.1) in members';
    }
    assert SyncStep(entityType, gone, transform, members, members', group, group);
  }

  lemma OneRow(members: set<Member>, gone: set<int>, transform: Transform, group: int, t: EntityType, id: int)
    requires members == {Member(group, t, id)} && t != GroupType
    ensures Flattened(members, gone, group, transform)
            == if id in gone || transform(t, id).None? then {} else {transform(t, id).value}
  {
    var r := Member(group, t, id);
    assert RowsUnder(members, gone, group) == if id in gone then {} else {r};
    if id !in gone && transform(t, id).Some? {
      InFlattened(members, gone, group, transform, r);
    }
  }

  /**
   Copying members and taking owners for accounts are settled, unless a person
   could expire; taking accounts for persons is so only where it answers nothing.
   */
  lemma WhichAreSettled(entityType: map<int, EntityType>, gone: set<int>, owners: map<int, int>, primaryAccounts: map<int, int>)
    requires forall id :: id in entityType && entityType[id] == PersonType ==> id !in gone
    requires forall a :: a in owners ==> owners[a] in entityType && entityType[owners[a]] == PersonType
    ensures Settled(entityType, gone, Noop())
    ensures Settled(entityType, gone, Person(owners))
    ensures Settled(entityType, gone, PersonalAccount(primaryAccounts)) <==>
            forall p :: p in primaryAccounts ==> !Eligible(entityType, gone, PersonType, p)
  {
    forall t, id | Eligible(entityType, gone, t, id) && Person(owners)(t, id).Some?
      ensures var w := Person(owners)(t, id).value;
              w.0 != GroupType && w.1 !in gone && Person(owners)(w.0, w.1) == Some(w)
    {
      assert t == PersonType || (t == AccountType && id in owners);
      assert Eligible(entityType, gone, PersonType, if t == PersonType then id else owners[id]);
    }
    forall p | p in primaryAccounts && Eligible(entityType, gone, PersonType, p)
      ensures !Settled(entityType, gone, PersonalAccount(primaryAccounts))
    {
      assert PersonalAccount(primaryAccounts)(PersonType, p) == Some((AccountType, primaryAccounts[p]));
    }
  }

  /** The row is one of those that flattening `source` looks at. */
  ghost predicate LooksAt(members: set<Member>, gone: set<int>, source: int, r: Member) {
    && r in members && (r.group == source || Within(members, r.group, source))
    && r.memberType != GroupType && r.member !in gone
  }

  /** What a sync leaves in the destination: what the transform answers for the rows it looks at. */
  lemma RowsAfterSync(entityType: map<int, EntityType>, gone: set<int>, transform: Transform,
                      members: set<Member>, members': set<Member>, source: int, dest: int)
    requires SyncStep(entityType, gone, transform, members, members', source, dest)
    ensures forall t, id :: Member(dest, t, id) in members' <==>
              exists r :: LooksAt(members, gone, source, r) && transform(r.memberType, r.member) == Some((t, id))
  {
    forall t, id ensures Member(dest, t, id) in members' <==>
                         exists r :: LooksAt(members, gone, source, r) && transform(r.memberType, r.member) == Some((t, id))
    {
      if Member(dest, t, id) in members' {
        assert MemberOf(Member(dest, t, id)) in DirectMembers(members', dest);
        var r :| r in RowsUnder(members, gone, source) && transform(r.memberType, r.member) == Some((t, id));
        assert LooksAt(members, gone, source, r);
      }
      if r :| LooksAt(members, gone, source, r) && transform(r.memberType, r.member) == Some((t, id)) {
        InFlattened(members, gone, source, transform, r);
        var q :| q in members' && q.group == dest && (q.memberType, q.member) == (t, id);
        assert q == Member(dest, t, id);
      }
    }
  }

  /** Copying: the members, other than groups, that have not expired. */
  lemma NoopRows(entityType: map<int, EntityType>, gone: set<int>, members: set<Member>, members': set<Member>,
                 source: int, dest: int)
    requires SyncStep(entityType, gone, Noop(), members, members', source, dest)
    ensures forall t, id :: Member(dest, t, id) in members' <==>
              exists r :: LooksAt(members, gone, source, r) && r.memberType == t && r.member == id
  {
    RowsAfterSync(entityType, gone, Noop(), members, members', source, dest);
  }

  /** Taking accounts for persons: the primary accounts of the persons, and nothing else. */
  lemma PersonalAccountRows(entityType: map<int, EntityType>, gone: set<int>, primaryAccounts: map<int, int>,
                            members: set<Member>, members': set<Member>, source: int, dest: int)
    requires SyncStep(entityType, gone, PersonalAccount(primaryAccounts), members, members', source, dest)
    ensures forall t, id :: Member(dest, t, id) in members' <==>
              && t == AccountType
              && exists r :: LooksAt(members, gone, source, r) && r.memberType == PersonType
                             && r.member in primaryAccounts && primaryAccounts[r.member] == id
  {
    RowsAfterSync(entityType, gone, PersonalAccount(primaryAccounts), members, members', source, dest);
  }

  /** Taking owners for accounts: the persons, the owners of the accounts, and nothing else. */
  lemma PersonRows(entityType: map<int, EntityType>, gone: set<int>, owners: map<int, int>,
                   members: set<Member>, members': set<Member>, source: int, dest: int)
    requires SyncStep(entityType, gone, Person(owners), members, members', source, dest)
    ensures forall t, id :: Member(dest, t, id) in members' <==>
              && t == PersonType
              && exists r :: LooksAt(members, gone, source, r)
                             && (|| (r.memberType == PersonType && r.member == id)
                                 || (r.memberType == AccountType && r.member in owners && owners[r.member] == id))
  {
    RowsAfterSync(entityType, gone, Person(owners), members, members', source, dest);
  }
}
