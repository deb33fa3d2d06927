/**
 Group membership: a table whose rows lead from groups to members, some of
 which are groups themselves, in cycles or not.  Searching upward for the groups
 of a member and downward for the members of a group are two different loops;
 here each is proved to compute a closure, and the two closures to be dual.
 */
module Groups {
  import opened Wrappers
  import opened Sets

  datatype EntityType = GroupType | PersonType | AccountType | OtherType

  datatype Member = Member(group: int, memberType: EntityType, member: int)

  datatype Failure = NotFound | SelfMember | Duplicate | NoIds

  /** `path` is a chain of memberships: each node is a direct member of the next. */
  ghost predicate Chain(members: set<Member>, path: seq<int>) {
    forall i :: 0 <= i < |path| - 1 ==> DirectMember(members, path[i], path[i + 1])
  }

  ghost predicate DirectMember(members: set<Member>, member: int, group: int) {
    exists t :: Member(group, t, member) in members
  }

  /** `member` is a direct or indirect member of `group`, by at least one row. */
  ghost predicate Within(members: set<Member>, member: int, group: int) {
    exists path :: ChainFromTo(members, path, member, group) && |path| >= 2
  }

  ghost predicate ChainFromTo(members: set<Member>, path: seq<int>, first: int, last: int) {
    |path| > 0 && path[0] == first && path[|path| - 1] == last && Chain(members, path)
  }

  lemma DirectIsWithin(members: set<Member>, member: int, group: int)
    requires DirectMember(members, member, group)
    ensures Within(members, member, group)
  {
    assert ChainFromTo(members, [member, group], member, group);
  }

  lemma WithinTrans(members: set<Member>, a: int, b: int, c: int)
    requires Within(members, a, b) && (b == c || Within(members, b, c))
    ensures Within(members, a, c)
  {
    if b != c {
      var p :| ChainFromTo(members, p, a, b) && |p| >= 2;
      var q :| ChainFromTo(members, q, b, c) && |q| >= 2;
      assert ChainFromTo(members, p + q[1..], a, c);
    }
  }

  /** Every membership starts with a direct one. */
  lemma WithinSplit(members: set<Member>, member: int, group: int) returns (first: int)
    requires Within(members, member, group)
    ensures DirectMember(members, member, first)
    ensures first == group || Within(members, first, group)
  {
    var p :| ChainFromTo(members, p, member, group) && |p| >= 2;
    first := p[1];
    if |p| > 2 {
      assert ChainFromTo(members, p[1..], first, group);
    }
  }

  /** One step up from a node that was reached already. */
  lemma ReachedUpward(members: set<Member>, start: set<int>, reached: set<int>, m: int, group: int)
    requires m in start + reached && DirectMember(members, m, group)
    requires forall g :: g in reached ==> exists s :: s in start && Within(members, s, g)
    ensures exists s :: s in start && Within(members, s, group)
  {
    DirectIsWithin(members, m, group);
    if m !in start {
      var s :| s in start && Within(members, s, m);
      WithinTrans(members, s, m, group);
    }
  }

  /** A set that has all groups of its nodes has everything they are within. */
  lemma {:induction false} ClosedUpward(members: set<Member>, s: set<int>, path: seq<int>)
    requires path != [] && path[0] in s && Chain(members, path)
    requires forall a, b :: a in s && DirectMember(members, a, b) ==> b in s
    ensures path[|path| - 1] in s
    decreases |path|
  {
    if |path| > 1 {
      assert DirectMember(members, path[0], path[1]);
      ClosedUpward(members, s, path[1..]);
    }
  }

  /** A set that has all group members of its nodes has every group that is within them. */
  lemma {:induction false} ClosedDownward(members: set<Member>, s: set<int>, groups: set<int>, path: seq<int>)
    requires path != [] && path[|path| - 1] in s && Chain(members, path)
    requires forall i :: 0 <= i < |path| ==> path[i] in groups
    requires forall a, b :: b in s && a in groups && DirectMember(members, a, b) ==> a in s
    ensures path[0] in s
    decreases |path|
  {
    if |path| > 1 {
      ClosedDownward(members, s, groups, path[1..]);
      assert DirectMember(members, path[0], path[1]);
    }
  }

  /**
   Upward and downward search answer the same question: `member` is within
   `group` just when `group`, or a group within it, has a row for `member`.
   */
  lemma SearchesAreDual(members: set<Member>, member: int, group: int)
    ensures Within(members, member, group) <==>
            exists row :: row in members && row.member == member && WithinOrSame(members, row.group, group)
  {
    if Within(members, member, group) {
      var first := WithinSplit(members, member, group);
      var t :| Member(first, t, member) in members;
      assert WithinOrSame(members, Member(first, t, member).group, group);
    }
    forall row | row in members && row.member == member && WithinOrSame(members, row.group, group)
      ensures Within(members, member, group)
    {
      assert Member(row.group, row.memberType, member) in members;
      DirectIsWithin(members, member, row.group);
      WithinTrans(members, member, row.group, group);
    }
  }

  ghost predicate WithinOrSame(members: set<Member>, a: int, b: int) {
    a == b || Within(members, a, b)
  }

  /** Either there are more groups than before, or none of those found is new. */
  lemma MoreGroups(groups: set<int>, before: set<int>, found: set<int>, tmp: set<int>)
    requires before + found <= groups && tmp != {}
    ensures groups - (before + found) < groups - before || (before + found == before && found - before == {} < tmp)
  {
    if found - before == {} {
      assert forall x :: x in found && x !in before ==> x in found - before;
      assert before + found == before;
    } else {
      var x := HasMember(found - before);
      assert x in groups - before && x !in groups - (before + found);
    }
  }

  predicate Expired(expire: Option<int>, now: int) {
    expire.Some? && expire.value <= now
  }

  class GroupDb {
    /** Table entity_info. */
    var entityType: map<int, EntityType>
    /** Tables group_info and account_info: the expire dates. */
    var groups: map<int, Option<int>>
    var accounts: map<int, Option<int>>
    /** Table group_member. */
    var members: set<Member>

    ghost predicate Valid()
      reads this
    {
      && (forall g :: g in groups ==> g in entityType && entityType[g] == GroupType)
      && (forall m :: m in members ==>
            && m.group in groups && m.member in entityType && m.memberType == entityType[m.member]
            && m.group != m.member)
      && (forall a :: a in accounts ==> a in entityType && entityType[a] == AccountType)
    }

    predicate IsGroup(id: int)
      reads this
    {
      id in entityType && entityType[id] == GroupType
    }

    method AddMember(group: int, member: int) returns (failure: Option<Failure>)
      requires Valid() && group in groups
      modifies this`members
      ensures Valid()
      ensures failure == (if member !in entityType then Some(NotFound)
                          else if member == group then Some(SelfMember)
                          else if DirectMember(old(members), member, group) then Some(Duplicate)
                          else None)
      ensures members == if failure.None? then old(members) + {Member(group, entityType[member], member)}
                         else old(members)
    {
      if member !in entityType {
        return Some(NotFound);
      }
      if member == group {
        return Some(SelfMember);
      }
      var row := Member(group, entityType[member], member);
      if row in members {
        return Some(Duplicate);
      }
      members := members + {row};
      return None;
    }

    method RemoveMember(group: int, member: int)
      requires Valid()
      modifies this`members
      ensures Valid()
      ensures members == set m | m in old(members) && !(m.group == group && m.member == member)
    {
      members := set m | m in members && !(m.group == group && m.member == member);
    }

    /** One query: the groups that any of the given members is a direct member of. */
    function DirectGroups(ids: set<int>): (r: set<int>)
      reads this
      ensures forall g :: g in r <==> exists m :: m in ids && DirectMember(members, m, g)
    {
      var r := set m | m in members && m.member in ids :: m.group;
      assert forall g, m :: m in ids && DirectMember(members, m, g) ==> g in r by {
        forall g, m | m in ids && DirectMember(members, m, g) ensures g in r {
          var t :| Member(g, t, m) in members;
          assert Member(g, t, m).group == g;
        }
      }
      r
    }

    /** One query: the groups that are direct members of any of the given groups. */
    function DirectGroupMembers(ids: set<int>): (r: set<int>)
      requires Valid()
      reads this
      ensures forall a :: a in r <==> IsGroup(a) && exists g :: g in ids && DirectMember(members, a, g)
    {
      var r := set m | m in members && m.group in ids && m.memberType == GroupType :: m.member;
      assert forall a, g :: IsGroup(a) && g in ids && DirectMember(members, a, g) ==> a in r by {
        forall a, g | IsGroup(a) && g in ids && DirectMember(members, a, g) ensures a in r {
          var t :| Member(g, t, a) in members;
          assert Member(g, t, a).member == a;
        }
      }
      r
    }

    /** The groups that were found are added to the result; those that are new there are to be looked at next. */
    static method Absorb(before: set<int>, found: set<int>) returns (result: set<int>, workset: set<int>)
      ensures result == before + found && workset == found - before
    {
      result, workset := before, {};
      var rows := found;
      while rows != {}
        invariant rows <= found && result == before + (found - rows) && workset == found - rows - before
      {
        ghost var _ := HasMember(rows);
        var group :| group in rows;
        rows := rows - {group};
        if group in result {
          continue;
        }
        result := result + {group};
        if group !in workset {
          workset := workset + {group};
        }
      }
    }

    /** All groups that any of `start` is a direct or indirect member of. */
    method TransitiveClosure(start: set<int>) returns (result: set<int>)
      requires Valid()
      ensures forall g :: g in result <==> exists m :: m in start && Within(members, m, g)
    {
      result := {};
      var workset := start;
      while workset != {}
        invariant result <= groups.Keys && workset <= start + result
        invariant forall g :: g in result ==> exists m :: m in start && Within(members, m, g)
        invariant forall a, b :: a in start + result && a !in workset && DirectMember(members, a, b) ==> b in result
        decreases groups.Keys - result, workset
      {
        var tmp, found := workset, DirectGroups(workset);
        ghost var before := result;
        result, workset := Absorb(result, found);
        forall g | g in found ensures exists m :: m in start && Within(members, m, g) {
          ghost var m :| m in tmp && DirectMember(members, m, g);
          ReachedUpward(members, start, before, m, g);
        }
        MoreGroups(groups.Keys, before, found, tmp);
      }
      forall m, g | m in start && Within(members, m, g) ensures g in result {
        var path :| ChainFromTo(members, path, m, g) && |path| >= 2;
        assert DirectMember(members, path[0], path[1]);
        ClosedUpward(members, result, path[1..]);
      }
    }

    /** What the search for the next step of a reflexive closure answers. */
    function Neighbours(ids: set<int>, down: bool): set<int>
      requires Valid()
      reads this
    {
      if down then DirectGroupMembers(ids) else DirectGroups(ids)
    }

    /** A node that the reflexive closure of `start` has. */
    ghost predicate Reached(start: set<int>, down: bool, x: int)
      reads this
    {
      exists s :: s in start && (x == s || (if down then IsGroup(x) && Within(members, x, s) else Within(members, s, x)))
    }

    lemma ReachedNext(start: set<int>, down: bool, x: int, y: int)
      requires Valid() && Reached(start, down, x) && y in Neighbours({x}, down)
      ensures Reached(start, down, y)
    {
      var s :| s in start && (x == s || (if down then IsGroup(x) && Within(members, x, s) else Within(members, s, x)));
      if down {
        DirectIsWithin(members, y, x);
        WithinTrans(members, y, x, s);
      } else {
        DirectIsWithin(members, x, y);
        if x != s {
          WithinTrans(members, s, x, y);
        }
      }
    }

    /** A set closed under the search has all that can be reached from it. */
    lemma ReachedIsClosed(start: set<int>, down: bool, s: set<int>, x: int)
      requires Valid() && start <= s && Reached(start, down, x)
      requires forall a, b :: a in s && b in Neighbours({a}, down) ==> b in s
      ensures x in s
    {
      var r :| r in start && (x == r || (if down then IsGroup(x) && Within(members, x, r) else Within(members, r, x)));
      if x != r && down {
        var path :| ChainFromTo(members, path, x, r) && |path| >= 2;
        forall i | 0 <= i < |path| ensures IsGroup(path[i]) {
          if i > 0 {
            assert DirectMember(members, path[i - 1], path[i]);
          }
        }
        forall a, b | b in s && IsGroup(a) && DirectMember(members, a, b) ensures a in s {
          assert a in Neighbours({b}, down);
        }
        ClosedDownward(members, s, (set g | g in entityType && IsGroup(g)), path);
      } else if x != r {
        var path :| ChainFromTo(members, path, r, x) && |path| >= 2;
        forall a, b | a in s && DirectMember(members, a, b) ensures b in s {
          assert b in Neighbours({a}, down);
        }
        ClosedUpward(members, s, path);
      }
    }

    /** `start`, and all groups met on the way down, or up, from there. */
    method ReflexiveClosure(start: set<int>, down: bool) returns (result: set<int>)
      requires Valid()
      ensures forall x :: x in result <==> Reached(start, down, x)
    {
      result := {};
      var workset := start;
      while workset != {}
        invariant result <= start + entityType.Keys && workset !! result
        invariant start <= result + workset <= start + entityType.Keys
        invariant forall x :: x in result + workset ==> Reached(start, down, x)
        invariant forall a, b :: a in result && b in Neighbours({a}, down) ==> b in result + workset
        decreases start + entityType.Keys - result
      {
        var newSet := Neighbours(workset, down);
        ghost var before := workset;
        forall y | y in newSet ensures Reached(start, down, y) {
          ghost var x :| x in before && y in Neighbours({x}, down);
          ReachedNext(start, down, x, y);
        }
        forall a, b | a in before && b in Neighbours({a}, down) ensures b in newSet {
        }
        ghost var _ := HasMember(workset);
        result := result + workset;
        workset := newSet - result;
      }
      forall x | Reached(start, down, x) ensures x in result {
        ReachedIsClosed(start, down, result, x);
      }
    }

    /** All groups that any of `ids` is a member of, directly or not. */
    ghost function IndirectGroups(ids: set<int>): set<int>
      reads this
    {
      set g | g in groups && exists m :: m in ids && Within(members, m, g)
    }

    /** All rows under the groups `ids`, or, going up, all rows over the members `ids`. */
    ghost function IndirectRows(ids: set<int>, down: bool): set<Member>
      reads this
    {
      set r | r in members && Reached(ids, down, if down then r.group else r.member)
    }

    /** The groups and accounts that have expired. */
    function ExpiredIds(now: int): (ids: set<int>)
      reads this
      ensures forall id :: id in ids <==>
                || (id in accounts && accounts[id].Some? && accounts[id].value <= now)
                || (id in groups && groups[id].Some? && groups[id].value <= now)
    {
      (set a | a in accounts && Expired(accounts[a], now)) + (set g | g in groups && Expired(groups[g], now))
    }

    predicate MemberExpired(row: Member, now: int)
      reads this
    {
      || (row.member in accounts && Expired(accounts[row.member], now))
      || (row.member in groups && Expired(groups[row.member], now))
    }

    /** Search for groups by member; expiry is left out of account until the very end. */
    method Search(memberIds: set<int>, indirect: bool, filterExpired: bool, now: int)
      returns (r: Result<set<int>, Failure>)
      requires Valid()
      ensures if indirect && memberIds == {} then r == Err(NoIds) else r.Ok?
      ensures r.Ok? ==> forall g :: g in r.value <==>
                && g in groups
                && (exists m :: m in memberIds && if indirect then Within(members, m, g) else DirectMember(members, m, g))
                && (filterExpired ==> groups[g].None? || groups[g].value > now)
    {
      if indirect && memberIds == {} {
        return Err(NoIds);
      }
      var found: set<int>;
      if indirect {
        found := TransitiveClosure(memberIds);
        assert forall g :: g in found ==> g in groups by {
          forall g | g in found ensures g in groups {
            ghost var m :| m in memberIds && Within(members, m, g);
            WithinGroup(m, g);
          }
        }
        assert found == IndirectGroups(memberIds);
      } else {
        found := DirectGroups(memberIds);
      }
      r := Ok(set g | g in found && !(filterExpired && Expired(groups[g], now)));
    }

    /** Whatever something is within is a group. */
    lemma WithinGroup(m: int, g: int)
      requires Valid() && Within(members, m, g)
      ensures g in groups
    {
      var path :| ChainFromTo(members, path, m, g) && |path| >= 2;
      assert DirectMember(members, path[|path| - 2], path[|path| - 1]);
    }

    /** Search for membership rows by group (`down`) or by member. */
    method SearchMembers(ids: set<int>, down: bool, indirect: bool, filterExpired: bool, now: int)
      returns (r: Result<set<Member>, Failure>)
      requires Valid()
      ensures if indirect && ids == {} then r == Err(NoIds) else r.Ok?
      ensures r.Ok? ==> forall m :: m in r.value <==>
                && m in members
                && (if indirect then m in IndirectRows(ids, down) else (if down then m.group else m.member) in ids)
                && (filterExpired ==>
                      && (m.member in accounts ==> accounts[m.member].None? || accounts[m.member].value > now)
                      && (m.member in groups ==> groups[m.member].None? || groups[m.member].value > now))
    {
      if indirect && ids == {} {
        return Err(NoIds);
      }
      var expanded := ids;
      if indirect {
        expanded := ReflexiveClosure(ids, down);
      }
      var found := set m | && m in members && (if down then m.group else m.member) in expanded
                           && !(filterExpired && MemberExpired(m, now));
      assert forall m :: m in members && indirect ==>
          ((if down then m.group else m.member) in expanded <==> m in IndirectRows(ids, down));
      r := Ok(found);
    }

    /** The two indirect searches agree about every member and every group. */
    lemma IndirectSearchesAgree(member: int, group: int)
      requires Valid()
      ensures group in IndirectGroups({member}) <==>
              exists row :: row in IndirectRows({group}, true) && row.member == member
    {
      SearchesAreDual(members, member, group);
      if Within(members, member, group) {
        WithinGroup(member, group);
        var row :| row in members && row.member == member && WithinOrSame(members, row.group, group);
        assert group in {group} && row in IndirectRows({group}, true);
      }
      forall row | row in IndirectRows({group}, true) && row.member == member
        ensures group in IndirectGroups({member})
      {
        assert WithinOrSame(members, row.group, group);
        WithinGroup(member, group);
        assert member in {member};
      }
    }
  }
}
