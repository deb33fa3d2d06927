/**
 Whole runs of a cache with the recency and size mixins: it holds the most
 recently used keys, in recency order, with the values they were last set to.
 */
module CacheRuns {
  import opened Wrappers
  import opened Sequences
  import opened RecencyLists
  import opened Caching

  /** One use of the cache that succeeds. */
  datatype Use<K, V> = Set(key: K, value: V) | Get(key: K)

  const MRU_SLOTS: set<Mixin> := {Mru, Slots}

  ghost function Step<K, V>(st: State<K, V>, size: nat, use: Use<K, V>): State<K, V>
    requires use.Get? ==> use.key in st.dict
  {
    match use
    case Set(k, v) => Stored(Registered(st, k), MRU_SLOTS, size, k, v, 0)
    case Get(k) => Fetched(st, MRU_SLOTS, 0, k, 0)
  }

  /** The state after a run from an empty cache; None if some lookup misses. */
  ghost function Run<K, V>(uses: seq<Use<K, V>>, size: nat): Option<State<K, V>> {
    if uses == [] then
      Some(State(map[], [], map[]))
    else
      var last := uses[|uses| - 1];
      match Run(uses[..|uses| - 1], size)
      case None => None
      case Some(st) => if last.Get? && last.key !in st.dict then None else Some(Step(st, size, last))
  }

  /** All keys ever used, the most recently used first. */
  ghost function Recent<K, V>(uses: seq<Use<K, V>>): seq<K> {
    if uses == [] then [] else ToFront(Recent(uses[..|uses| - 1]), uses[|uses| - 1].key)
  }

  /** The value each key was last set to. */
  ghost function LastSet<K, V>(uses: seq<Use<K, V>>): map<K, V> {
    if uses == [] then map[]
    else
      var before := LastSet(uses[..|uses| - 1]);
      match uses[|uses| - 1]
      case Set(k, v) => before[k := v]
      case Get(_) => before
  }

  /** The place in the run where a key was last used; -1 if nowhere. */
  ghost function LastUse<K, V>(uses: seq<Use<K, V>>, k: K): int {
    if uses == [] then -1
    else if uses[|uses| - 1].key == k then |uses| - 1
    else LastUse(uses[..|uses| - 1], k)
  }

  lemma {:induction false} LastUseBelow<K, V>(uses: seq<Use<K, V>>, k: K)
    ensures -1 <= LastUse(uses, k) < |uses|
  {
    if uses != [] && uses[|uses| - 1].key != k {
      LastUseBelow(uses[..|uses| - 1], k);
    }
  }

  /** The list has exactly the keys used, each once, in the order of their last uses. */
  lemma {:induction false} RecentMeaning<K, V>(uses: seq<Use<K, V>>)
    ensures NoDuplicates(Recent(uses))
    ensures forall k :: k in Recent(uses) <==> LastUse(uses, k) >= 0
    ensures forall i, j :: 0 <= i < j < |Recent(uses)| ==>
              LastUse(uses, Recent(uses)[i]) > LastUse(uses, Recent(uses)[j])
  {
    if uses != [] {
      var before, k := uses[..|uses| - 1], uses[|uses| - 1].key;
      var r, r' := Recent(before), Recent(uses);
      RecentMeaning(before);
      RemoveMeaning(r, k);
      RemoveOrdered(before, r, k);
      forall i, j | 0 <= i < j < |r'| ensures LastUse(uses, r'[i]) > LastUse(uses, r'[j]) {
        assert r'[j] == Remove(r, k)[j - 1];
        assert r'[j] in Remove(r, k);
        LastUseBelow(before, r'[j]);
        if i > 0 {
          assert r'[i] == Remove(r, k)[i - 1];
          assert r'[i] in Remove(r, k);
        }
      }
    }
  }

  lemma {:induction false} RemoveOrdered<K, V>(uses: seq<Use<K, V>>, s: seq<K>, k: K)
    requires NoDuplicates(s)
    requires forall i, j :: 0 <= i < j < |s| ==> LastUse(uses, s[i]) > LastUse(uses, s[j])
    ensures forall i, j :: 0 <= i < j < |Remove(s, k)| ==>
              LastUse(uses, Remove(s, k)[i]) > LastUse(uses, Remove(s, k)[j])
  {
    if k in s {
      var m :| 0 <= m < |s| && s[m] == k;
      RemoveAt(s, k, m);
    } else {
      RemoveAbsent(s, k);
    }
  }

  /** The key was there: it moves to the front and nothing is dropped. */
  lemma RefreshMovesToFront<K, V>(st: State<K, V>, size: nat, k: K)
    requires WellFormed(st, MRU_SLOTS, size) && k in st.dict
    ensures Refreshed(st, k).registry == Take(ToFront(st.registry, k), size)
  {
    assert k in Elements(st.registry);
    RemoveMeaning(st.registry, k);
    if st.registry[0] == k {
      assert ToFront(st.registry, k) == st.registry;
    }
  }

  /** The key is new: it is put in front, and the last one is dropped if there is no room. */
  lemma StoreNewKey<K, V>(st: State<K, V>, size: nat, k: K, v: V)
    requires WellFormed(st, MRU_SLOTS, size) && k !in st.dict && size >= 1
    ensures Stored(Registered(st, k), MRU_SLOTS, size, k, v, 0).registry == Take(ToFront(st.registry, k), size)
  {
    RegisteredStoring(st, MRU_SLOTS, size, k);
    assert k !in Elements(st.registry);
    RemoveAbsent(st.registry, k);
    EvictedLast([k] + st.registry);
  }

  /** One use of a cache with these mixins moves its key to the front and keeps the first `size` keys. */
  lemma StepMovesToFront<K, V>(st: State<K, V>, size: nat, use: Use<K, V>)
    requires WellFormed(st, MRU_SLOTS, size) && size >= 1
    requires use.Get? ==> use.key in st.dict
    ensures Step(st, size, use).registry == Take(ToFront(st.registry, use.key), size)
    ensures WellFormed(Step(st, size, use), MRU_SLOTS, size)
  {
    if use.Get? {
      RefreshMovesToFront(st, size, use.key);
      RefreshedConsistent(st, MRU_SLOTS, use.key);
    } else {
      RegisteredStoring(st, MRU_SLOTS, size, use.key);
      StoredWellFormed(Registered(st, use.key), MRU_SLOTS, size, use.key, use.value, 0);
      if use.key in st.dict {
        RefreshMovesToFront(st, size, use.key);
      } else {
        StoreNewKey(st, size, use.key, use.value);
      }
    }
  }

  lemma StepValues<K, V>(st: State<K, V>, size: nat, use: Use<K, V>, k: K)
    requires WellFormed(st, MRU_SLOTS, size) && size >= 1
    requires (use.Get? ==> use.key in st.dict) && k in Step(st, size, use).dict
    ensures if use.Set? && k == use.key then Step(st, size, use).dict[k] == use.value
            else k in st.dict && Step(st, size, use).dict[k] == st.dict[k]
  {
  }

  /**
   A cache of a fixed size holds exactly the `size` most recently used keys, in
   recency order, each with the value it was last set to.
   */
  lemma {:induction false} HoldsMostRecentlyUsed<K, V>(uses: seq<Use<K, V>>, size: nat)
    requires size >= 1 && Run(uses, size).Some?
    ensures var st := Run(uses, size).value;
            && WellFormed(st, MRU_SLOTS, size)
            && st.registry == Take(Recent(uses), size)
            && forall k :: k in st.dict ==> k in LastSet(uses) && st.dict[k] == LastSet(uses)[k]
  {
    if uses != [] {
      var before, last := uses[..|uses| - 1], uses[|uses| - 1];
      HoldsMostRecentlyUsed(before, size);
      StepMovesToFront(Run(before, size).value, size, last);
      forall k | k in Run(uses, size).value.dict
        ensures k in LastSet(uses) && Run(uses, size).value.dict[k] == LastSet(uses)[k]
      {
        StepValues(Run(before, size).value, size, last, k);
      }
      RecentMeaning(before);
      TakeToFront(Recent(before), size, last.key);
    }
  }

  /** Either order of the mixins, and any time of day, gives the step that runs are made of. */
  lemma OrderAndTimeDoNotMatter<K, V>(mixins: seq<Mixin>, st: State<K, V>, size: nat, timeout: int, k: K, v: V, now: int)
    requires mixins == [Mru, Slots] || mixins == [Slots, Mru]
    ensures Stored(Registered(st, k), Members(mixins), size, k, v, now) == Step(st, size, Set(k, v))
    ensures k in st.dict ==> Fetched(st, Members(mixins), timeout, k, now) == Step(st, size, Get(k))
  {
    assert Members(mixins) == MRU_SLOTS;
  }

  /** The first `n` of the uses, and one more. */
  lemma RunStep<K, V>(uses: seq<Use<K, V>>, size: nat, n: nat)
    requires n < |uses|
    ensures Run(uses[..n + 1], size) ==
            match Run(uses[..n], size)
            case None => None
            case Some(st) => if uses[n].Get? && uses[n].key !in st.dict then None else Some(Step(st, size, uses[n]))
  {
    assert uses[..n + 1][..n] == uses[..n];
  }

  lemma {:induction false} NoRunAfterMiss<K, V>(uses: seq<Use<K, V>>, size: nat, n: nat)
    requires n <= |uses| && Run(uses[..n], size).None?
    ensures Run(uses, size).None?
    decreases |uses| - n
  {
    if n < |uses| {
      RunStep(uses, size, n);
      NoRunAfterMiss(uses, size, n + 1);
    } else {
      assert uses[..n] == uses;
    }
  }

  /** One use of the cache at some time; false for a lookup that misses. */
  method Perform<K, V>(cache: Cache<K, V>, use: Use<K, V>, now: int) returns (ok: bool)
    requires cache.Valid() && (cache.mixins == [Mru, Slots] || cache.mixins == [Slots, Mru])
    modifies cache
    ensures cache.Valid() && ok == (use.Set? || use.key in old(cache.dict))
    ensures ok ==> cache.St() == Step(old(cache.St()), cache.size, use)
  {
    match use {
      case Set(k, v) =>
        OrderAndTimeDoNotMatter(cache.mixins, cache.St(), cache.size, cache.timeout, k, v, now);
        cache.SetItem(k, v, now);
        ok := true;
      case Get(k) =>
        if k in cache.dict {
          OrderAndTimeDoNotMatter(cache.mixins, cache.St(), cache.size, cache.timeout, k, cache.dict[k], now);
        }
        var r := cache.GetItem(k, now);
        ok := r.Some?;
    }
  }

  /**
   A whole run of a new cache, up to the first lookup that misses: afterwards it
   holds the most recently used keys and the values they were last set to.
   */
  method PerformAll<K, V>(cache: Cache<K, V>, uses: seq<Use<K, V>>, times: seq<int>) returns (ok: bool)
    requires cache.Valid() && (cache.mixins == [Mru, Slots] || cache.mixins == [Slots, Mru])
    requires cache.St() == State(map[], [], map[]) && |times| == |uses|
    modifies cache
    ensures cache.Valid() && ok == Run(uses, cache.size).Some?
    ensures ok ==>
              && cache.St() == Run(uses, cache.size).value
              && cache.registry == Take(Recent(uses), cache.size)
              && forall k :: k in cache.dict ==> k in LastSet(uses) && cache.dict[k] == LastSet(uses)[k]
  {
    for n := 0 to |uses|
      invariant cache.Valid() && Run(uses[..n], cache.size) == Some(cache.St())
    {
      RunStep(uses, cache.size, n);
      ok := Perform(cache, uses[n], times[n]);
      if !ok {
        NoRunAfterMiss(uses, cache.size, n + 1);
        return;
      }
    }
    assert uses[..|uses|] == uses;
    HoldsMostRecentlyUsed(uses, cache.size);
    ok := true;
  }

  ghost predicate Remembers<K, V>(dict: map<K, V>, f: K -> V) {
    forall k :: k in dict ==> dict[k] == f(k)
  }

  /**
   A call of a memoized function.  It answers what the function itself would,
   unless the answer it remembers has timed out: then it raises KeyError.
   */
  method Memoized<K, V>(cache: Cache<K, V>, f: K -> V, rest: K, now: int) returns (r: Option<V>)
    requires cache.Valid() && Remembers(cache.dict, f)
    modifies cache
    ensures cache.Valid() && Remembers(cache.dict, f)
    ensures var raises := && rest in old(cache.dict)
                          && Timeout in cache.mixins && rest in old(cache.timestamps)
                          && now - old(cache.timestamps)[rest] >= cache.timeout;
            r == if raises then None else Some(f(rest))
    ensures rest in old(cache.dict) ==>
              && (Timeout in cache.mixins ==> rest in old(cache.timestamps))
              && cache.St() == Fetched(old(cache.St()), Members(cache.mixins), cache.timeout, rest, now)
    ensures rest !in old(cache.dict) ==>
              cache.St() == Stored(Registered(old(cache.St()), rest), Members(cache.mixins), cache.size, rest, f(rest), now)
  {
    if rest in cache.dict {
      r := cache.GetItem(rest, now);
      return;
    }
    var result := f(rest);
    cache.SetItem(rest, result, now);
    return Some(result);
  }

  /** After a `del` that fails, the timeout mixin has later ones go without the lock. */
  method FailingDeleteLeavesMark() returns (cache: Cache<int, int>)
    ensures cache.Valid() && cache.dontLock
  {
    cache := new Cache([Timeout], 1, 60);
    var ok := cache.Delete(0);
  }

  /** The second of two calls of a memoized function, made when its answer has timed out, raises KeyError. */
  method MemoizedTimesOut(f: int -> int) returns (first: Option<int>, second: Option<int>)
    ensures first == Some(f(0)) && second == None
  {
    var cache: Cache<int, int> := new Cache([Timeout], 1, 60);
    first := Memoized(cache, f, 0, 0);
    assert Timeout in cache.mixins && cache.timestamps == map[0 := 0];
    second := Memoized(cache, f, 0, 60);
  }
}
