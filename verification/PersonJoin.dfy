/**
 Joining two person objects: what the old person has is added to the new
 person, source system by source system, and where both have something, the new
 person's is kept.
 */
module PersonJoin {
  import opened Wrappers
  import opened Sets
  import opened DiffSync

  /** A row of contact information, apart from its source, type and preference. */
  datatype Contact = Contact(value: string, alias: Option<string>, description: Option<string>)

  /** Populating contact information drops an empty alias. */
  function NormContact(c: Contact): Contact {
    if c.alias == Some("") then c.(alias := None) else c
  }

  /** A row of an address, apart from its source and type. */
  datatype Address = Address(
    addressText: Option<string>,
    poBox: Option<string>,
    postalNumber: Option<string>,
    city: Option<string>,
    country: Option<string>)

  /** An address is stored as it is populated. */
  function NormAddress(a: Address): Address {
    a
  }

  ghost function Normalised<K, V>(m: map<K, V>, norm: V -> V): map<K, V> {
    map p | p in m :: norm(m[p])
  }

  /** The old person's entries, overridden by the new person's. */
  ghost function Merged<K, V>(was: map<K, V>, now: map<K, V>, norm: V -> V): map<K, V> {
    Normalised(was, norm) + Normalised(now, norm)
  }

  /** Populate everything that `from` has for the source. */
  method PopulateAll<K, V>(from: SourceTable<K, V>, into: SourceTable<K, V>, source: int)
    requires into.srcSys.None? || into.srcSys.value == source
    modifies into`srcSys, into`data
    ensures into.data == old(into.data) + Normalised(Slice(from.rows, source), into.norm)
    ensures into.srcSys == if Slice(from.rows, source) == map[] then old(into.srcSys) else Some(source)
  {
    ghost var slice := Slice(from.rows, source);
    ghost var all := Normalised(slice, into.norm);
    var unread := set k | k in from.rows && k.source == source :: k.place;
    assert unread == slice.Keys == all.Keys;
    while unread != {}
      invariant unread <= all.Keys && from.rows == old(from.rows)
      invariant into.data == old(into.data) + (all - unread)
      invariant into.srcSys == if unread == all.Keys then old(into.srcSys) else Some(source)
    {
      ghost var _ := HasMember(unread);
      var p :| p in unread;
      SliceAt(from.rows, source, p);
      OneMore(old(into.data), all, unread, p);
      var ok := into.Populate(source, Some((p, from.rows[Key(source, p)])));
      unread := unread - {p};
    }
    assert all - unread == all;
  }

  /** Join the contact information or the addresses of one source. */
  method JoinSource<K, V>(oldTable: SourceTable<K, V>, newTable: SourceTable<K, V>, source: int)
    requires oldTable != newTable
    modifies newTable
    ensures Slice(newTable.rows, source)
            == Merged(Slice(oldTable.rows, source), old(Slice(newTable.rows, source)), newTable.norm)
    ensures Others(newTable.rows, source) == old(Others(newTable.rows, source))
  {
    ghost var was, now := Slice(oldTable.rows, source), Slice(newTable.rows, source);
    ghost var norm := newTable.norm;
    assert map[] + Normalised(was, norm) == Normalised(was, norm);
    assert was == map[] && now == map[] ==> Merged(was, now, norm) == map[];
    newTable.Clear();
    PopulateAll(oldTable, newTable, source);
    PopulateAll(newTable, newTable, source);
    assert newTable.data == Merged(was, now, norm);
    var deleted, added := newTable.WriteDb();
  }

  /** What `now` has is in the merge as it is, but for what populating normalises. */
  lemma MergeKeepsNew<K, V>(was: map<K, V>, now: map<K, V>, norm: V -> V, p: K)
    requires p in now
    ensures p in Merged(was, now, norm)
    ensures Merged(was, now, norm)[p] == now[p] <==> norm(now[p]) == now[p]
  {
  }

  /** A contact of the new person comes out of the join unaltered unless its alias is an empty text. */
  lemma ContactKeptUnlessEmptyAlias(was: map<(int, int), Contact>, now: map<(int, int), Contact>, p: (int, int))
    requires p in now
    ensures p in Merged(was, now, NormContact)
    ensures Merged(was, now, NormContact)[p] == now[p] <==> now[p].alias != Some("")
    ensures now[p].alias == Some("") ==> Merged(was, now, NormContact)[p] == Contact(now[p].value, None, now[p].description)
  {
    MergeKeepsNew(was, now, NormContact, p);
  }

  /** An address of the new person always comes out unaltered. */
  lemma AddressesAreKept(was: map<int, Address>, now: map<int, Address>)
    ensures Merged(was, now, NormAddress) == was + now
  {
    assert Normalised(was, NormAddress) == was && Normalised(now, NormAddress) == now;
  }

  /** The rows of source `s` are merged if it is among the sources `done`, and else as they were. */
  ghost predicate Joined<K, V>(was: map<Key<K>, V>, before: map<Key<K>, V>, now: map<Key<K>, V>,
                               norm: V -> V, done: set<int>, s: int)
  {
    Slice(now, s) == if s in done then Merged(Slice(was, s), Slice(before, s), norm) else Slice(before, s)
  }

  lemma JoinedMore<K, V>(was: map<Key<K>, V>, before: map<Key<K>, V>, now: map<Key<K>, V>, now': map<Key<K>, V>,
                         norm: V -> V, done: set<int>, source: int, s: int)
    requires source !in done && Joined(was, before, now, norm, done, s) && Joined(was, before, now, norm, done, source)
    requires Slice(now', source) == Merged(Slice(was, source), Slice(now, source), norm)
    requires Others(now', source) == Others(now, source)
    ensures Joined(was, before, now', norm, done + {source}, s)
  {
    if s != source {
      SliceOfOthers(now, source, s);
      SliceOfOthers(now', source, s);
    }
  }

  /** Join all of several sources; the others are left alone. */
  method JoinSources<K, V>(oldTable: SourceTable<K, V>, newTable: SourceTable<K, V>, sources: set<int>)
    requires oldTable != newTable
    modifies newTable
    ensures forall s :: Joined(oldTable.rows, old(newTable.rows), newTable.rows, newTable.norm, sources, s)
  {
    var todo := sources;
    ghost var done := {};
    while todo != {}
      invariant done + todo == sources && done !! todo && oldTable.rows == old(oldTable.rows)
      invariant forall s :: Joined(oldTable.rows, old(newTable.rows), newTable.rows, newTable.norm, done, s)
    {
      ghost var _ := HasMember(todo);
      var source :| source in todo;
      ghost var before := newTable.rows;
      JoinSource(oldTable, newTable, source);
      forall s
        ensures Joined(oldTable.rows, old(newTable.rows), newTable.rows, newTable.norm, done + {source}, s)
      {
        JoinedMore(oldTable.rows, old(newTable.rows), before, newTable.rows, newTable.norm, done, source, s);
      }
      done, todo := done + {source}, todo - {source};
    }
  }

  lemma SliceOfOthers<K, V>(rows: map<Key<K>, V>, source: int, s: int)
    requires s != source
    ensures Slice(rows, s) == Slice(Others(rows, source), s)
  {
  }

  ghost function Restricted<K, V>(m: map<K, V>, places: set<K>): map<K, V> {
    map p | p in m && p in places :: m[p]
  }

  lemma RestrictedMore<K, V>(m: map<K, V>, done: set<K>, p: K)
    ensures Restricted(m, done + {p}) == if p in m then Restricted(m, done)[p := m[p]] else Restricted(m, done)
  {
  }

  lemma OverlayOfMerge<K, V>(was: map<K, V>, now: map<K, V>, places: set<K>)
    ensures Overlaid(now, Restricted(was + now, places), places) == Restricted(was, places) + now
  {
    var l, r := Overlaid(now, Restricted(was + now, places), places), Restricted(was, places) + now;
    assert l.Keys == r.Keys;
  }

  lemma OverlayOfAll<K, V>(was: map<K, V>, now: map<K, V>, places: set<K>)
    requires was.Keys + now.Keys <= places
    ensures Overlaid(now, was + now, places) == was + now
    ensures Overlaid(was, map[], places) == map[]
  {
    assert Overlaid(now, was + now, places).Keys == (was + now).Keys;
  }

  /** Populate the old name of a variant, if there is one, and then the new one. */
  method PopulateName(oldNames: AffectedTable<int, string>, newNames: AffectedTable<int, string>,
                      source: int, code: int)
    requires newNames.affected.Some? && newNames.affected.value.0 == source && code in newNames.affected.value.1
    modifies newNames`info
    ensures var names := Slice(oldNames.rows, source) + Slice(newNames.rows, source);
            newNames.info == if code in names then old(newNames.info)[code := names[code]] else old(newNames.info)
  {
    SliceAt(oldNames.rows, source, code);
    SliceAt(newNames.rows, source, code);
    if Key(source, code) in oldNames.rows {
      var ok := newNames.Populate(source, code, oldNames.rows[Key(source, code)], true);
    }
    if Key(source, code) in newNames.rows {
      var ok := newNames.Populate(source, code, newNames.rows[Key(source, code)], true);
    }
  }

  /** Join the names of one source: of each variant the old name, then the new one over it. */
  method JoinNames(oldNames: AffectedTable<int, string>, newNames: AffectedTable<int, string>,
                   source: int, variants: seq<int>)
    requires oldNames != newNames
    modifies newNames
    ensures Slice(newNames.rows, source)
            == Restricted(Slice(oldNames.rows, source), SetOf(variants)) + old(Slice(newNames.rows, source))
    ensures Others(newNames.rows, source) == old(Others(newNames.rows, source))
  {
    newNames.Clear();
    newNames.Affect(source, variants);
    ghost var was, now := Slice(oldNames.rows, source), Slice(newNames.rows, source);
    ghost var done := {};
    for i := 0 to |variants|
      invariant newNames.affected == Some((source, variants)) && newNames.rows == old(newNames.rows)
      invariant oldNames.rows == old(oldNames.rows)
      invariant done == SetOf(variants[..i]) && newNames.info == Restricted(was + now, done)
    {
      SetOfMore(variants, i);
      RestrictedMore(was + now, done, variants[i]);
      PopulateName(oldNames, newNames, source, variants[i]);
      done := done + {variants[i]};
    }
    assert variants[..|variants|] == variants;
    OverlayOfMerge(was, now, done);
    var changed := newNames.WriteDb();
  }

  /** The constraint on external ids: nobody else has the id that one has of a type and source. */
  ghost predicate NoIdTwice(a: map<Key<int>, string>, b: map<Key<int>, string>) {
    forall k :: k in a && k in b ==> a[k] != b[k]
  }

  /** All that `to` has, `a` or `b` had. */
  ghost predicate FromEither(to: map<Key<int>, string>, a: map<Key<int>, string>, b: map<Key<int>, string>) {
    forall k :: k in to ==> (k in a && to[k] == a[k]) || (k in b && to[k] == b[k])
  }

  /** Rows of one source replaced by the merge of two persons' are the rows of one of them each. */
  lemma MergedFromEither(a: map<Key<int>, string>, b: map<Key<int>, string>, to: map<Key<int>, string>, source: int)
    requires Slice(to, source) == Slice(a, source) + Slice(b, source) && Others(to, source) == Others(b, source)
    ensures FromEither(to, a, b)
  {
    forall k | k in to ensures (k in a && to[k] == a[k]) || (k in b && to[k] == b[k]) {
      RowOfSlice(to, source, k);
      RowOfSlice(a, source, k);
      RowOfSlice(b, source, k);
    }
  }

  lemma RowOfSlice<V>(rows: map<Key<int>, V>, source: int, k: Key<int>)
    ensures k.source == source ==>
              (k in rows <==> k.place in Slice(rows, source)) && (k in rows ==> rows[k] == Slice(rows, source)[k.place])
    ensures k.source != source ==>
              (k in rows <==> k in Others(rows, source)) && (k in rows ==> rows[k] == Others(rows, source)[k])
  {
    SliceAt(rows, source, k.place);
    assert k.source == source ==> k == Key(source, k.place);
  }

  /** With the ids of the old person removed first, no id is held twice at any time. */
  lemma OldFirstHoldsNoneTwice(a: map<Key<int>, string>, b: map<Key<int>, string>,
                               a': map<Key<int>, string>, b': map<Key<int>, string>, source: int)
    requires NoIdTwice(a, b)
    requires Slice(a', source) == map[] && Others(a', source) == Others(a, source)
    requires Slice(b', source) == Slice(a, source) + Slice(b, source) && Others(b', source) == Others(b, source)
    ensures NoIdTwice(a', b) && NoIdTwice(a', b')
  {
    forall k | k in a' ensures k.source != source && k in a && a'[k] == a[k] {
      RowOfSlice(a', source, k);
      RowOfSlice(a, source, k);
    }
    forall k | k in a' && k in b' ensures a'[k] != b'[k] {
      RowOfSlice(b', source, k);
      RowOfSlice(b, source, k);
    }
  }

  /** With those of the new person written first, some would be just when the old person has one that the new one lacks. */
  lemma NewFirstHoldsTwice(a: map<Key<int>, string>, b: map<Key<int>, string>, b': map<Key<int>, string>, source: int)
    requires NoIdTwice(a, b)
    requires Slice(b', source) == Slice(a, source) + Slice(b, source) && Others(b', source) == Others(b, source)
    ensures NoIdTwice(a, b') <==> Slice(a, source).Keys <= Slice(b, source).Keys
  {
    if !NoIdTwice(a, b') {
      var k :| k in a && k in b' && a[k] == b'[k];
      RowOfSlice(a, source, k);
      RowOfSlice(b, source, k);
      RowOfSlice(b', source, k);
      assert k.place in Slice(a, source) && k.place !in Slice(b, source);
    }
    forall p | p in Slice(a, source) && p !in Slice(b, source) ensures !NoIdTwice(a, b') {
      SliceAt(a, source, p);
      SliceAt(b', source, p);
    }
  }

  /**
   Join the external ids of one source.  The old person's ids are removed before
   the new person gets them, so that no id is held twice after either write;
   `between` is what the old person has in between.
   */
  method JoinExternalIds(oldIds: AffectedTable<int, string>, newIds: AffectedTable<int, string>,
                         source: int, types: seq<int>) returns (ghost between: map<Key<int>, string>)
    requires oldIds != newIds
    requires Slice(oldIds.rows, source).Keys + Slice(newIds.rows, source).Keys <= SetOf(types)
    modifies oldIds, newIds
    ensures Slice(newIds.rows, source) == old(Slice(oldIds.rows, source)) + old(Slice(newIds.rows, source))
    ensures Slice(oldIds.rows, source) == map[]
    ensures Others(newIds.rows, source) == old(Others(newIds.rows, source))
    ensures Others(oldIds.rows, source) == old(Others(oldIds.rows, source))
    ensures old(NoIdTwice(oldIds.rows, newIds.rows)) ==>
              NoIdTwice(between, old(newIds.rows)) && NoIdTwice(oldIds.rows, newIds.rows)
    ensures between == oldIds.rows && FromEither(newIds.rows, old(oldIds.rows), old(newIds.rows))
  {
    ghost var was, now := Slice(oldIds.rows, source), Slice(newIds.rows, source);
    PopulateBoth(oldIds, newIds, source, types);
    OverlayOfAll(was, now, SetOf(types));
    var removed := oldIds.WriteDb();
    between := oldIds.rows;
    var changed := newIds.WriteDb();
    MergedFromEither(old(oldIds.rows), old(newIds.rows), newIds.rows, source);
    if old(NoIdTwice(oldIds.rows, newIds.rows)) {
      OldFirstHoldsNoneTwice(old(oldIds.rows), old(newIds.rows), oldIds.rows, newIds.rows, source);
    }
  }

  /** The new person is to have both persons' ids of the source, and the old person none. */
  method PopulateBoth(oldIds: AffectedTable<int, string>, newIds: AffectedTable<int, string>,
                      source: int, types: seq<int>)
    requires oldIds != newIds
    modifies oldIds`affected, oldIds`info, newIds`affected, newIds`info
    ensures newIds.affected == oldIds.affected == Some((source, types)) && oldIds.info == map[]
    ensures newIds.info == Slice(oldIds.rows, source) + Slice(newIds.rows, source)
  {
    newIds.Clear();
    newIds.Affect(source, types);
    oldIds.Clear();
    oldIds.Affect(source, types);
    PopulateIds(oldIds, newIds, source);
    PopulateIds(newIds, newIds, source);
  }

  method PopulateIds(from: AffectedTable<int, string>, into: AffectedTable<int, string>, source: int)
    requires into.affected.Some? && into.affected.value.0 == source
    modifies into`info
    ensures into.info == old(into.info) + Slice(from.rows, source)
  {
    ghost var slice := Slice(from.rows, source);
    var unread := set k | k in from.rows && k.source == source :: k.place;
    assert unread == slice.Keys;
    while unread != {}
      invariant unread <= slice.Keys && into.info == old(into.info) + (slice - unread)
    {
      ghost var _ := HasMember(unread);
      var p :| p in unread;
      SliceAt(from.rows, source, p);
      OneMore(old(into.info), slice, unread, p);
      var ok := into.Populate(source, p, from.rows[Key(source, p)], false);
      unread := unread - {p};
    }
    assert slice - unread == slice;
  }
}
