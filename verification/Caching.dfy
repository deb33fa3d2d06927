/**
 A dictionary that may forget things: `cache_base` and the mixins for recency,
 size and age, which cooperate through `super()` in whatever order they are
 listed.  The class generated for a cache has `cache_base` first, then the
 mixins in the given order, then `dict`.
 */
module Caching {
  import opened Wrappers
  import opened Sequences
  import opened RecencyLists

  datatype Mixin = Mru | Slots | Timeout

  /** What a cache holds: values, keys by recency, and times of storing. */
  datatype State<K, V> = State(dict: map<K, V>, registry: seq<K>, timestamps: map<K, int>)

  /** Registry and dictionary have the same keys, each once; so have the timestamps, when used. */
  ghost predicate Consistent<K, V>(st: State<K, V>, mixins: set<Mixin>) {
    && NoDuplicates(st.registry) && Elements(st.registry) == st.dict.Keys
    && st.timestamps.Keys == (if Timeout in mixins then st.dict.Keys else {})
  }

  ghost predicate WellFormed<K, V>(st: State<K, V>, mixins: set<Mixin>, size: nat) {
    Consistent(st, mixins) && (Slots in mixins ==> |st.registry| <= size)
  }

  /** Brought to the front, unless it is there. */
  function Refreshed<K(==), V>(st: State<K, V>, k: K): State<K, V> {
    if st.registry != [] && st.registry[0] != k then st.(registry := ToFront(st.registry, k)) else st
  }

  function Deleted<K(==), V>(st: State<K, V>, k: K): State<K, V> {
    State(st.dict - {k}, Remove(st.registry, k), st.timestamps - {k})
  }

  /** The least recent key is dropped if there is one too many. */
  ghost function Evicted<K, V>(st: State<K, V>, size: nat): State<K, V> {
    if |st.registry| <= size then st else Deleted(st, st.registry[|st.registry| - 1])
  }

  /** What `cache_base` does to the registry before it hands over to the mixins. */
  function Registered<K(==), V>(st: State<K, V>, k: K): State<K, V> {
    if k in st.dict then st else st.(registry := [k] + st.registry)
  }

  /** What storing does, below `cache_base`, given which mixins take part; their order is left out. */
  ghost function Stored<K, V>(st: State<K, V>, mixins: set<Mixin>, size: nat, k: K, v: V, now: int): State<K, V> {
    var s1 := st.(dict := st.dict[k := v],
                  timestamps := if Timeout in mixins then st.timestamps[k := now] else st.timestamps);
    var s2 := if Slots in mixins then Evicted(s1, size) else s1;
    if Mru in mixins then Refreshed(s2, k) else s2
  }

  ghost predicate TimedOut<K, V>(st: State<K, V>, mixins: set<Mixin>, timeout: int, k: K, now: int)
    requires Timeout in mixins ==> k in st.timestamps
  {
    Timeout in mixins && now - st.timestamps[k] >= timeout
  }

  /** What a successful or failing lookup leaves behind. */
  ghost function Fetched<K, V>(st: State<K, V>, mixins: set<Mixin>, timeout: int, k: K, now: int): State<K, V>
    requires k in st.dict && (Timeout in mixins ==> k in st.timestamps)
  {
    if TimedOut(st, mixins, timeout, k, now) then Deleted(st, k)
    else if Mru in mixins then Refreshed(st, k)
    else st
  }

  ghost function Members(mixins: seq<Mixin>): set<Mixin> {
    set m | m in mixins
  }

  /** The state between `cache_base` and the mixins: the key is registered but maybe not stored yet. */
  ghost predicate Storing<K, V>(st: State<K, V>, mixins: set<Mixin>, size: nat, k: K) {
    && NoDuplicates(st.registry) && k in st.registry && Elements(st.registry) == st.dict.Keys + {k}
    && st.timestamps.Keys == (if Timeout in mixins then st.dict.Keys else {})
    && size >= 1
    && (Slots in mixins ==> |st.registry| <= if st.registry[0] == k then size + 1 else size)
  }

  /** One more mixin, further up, does its own part to what those below it did. */
  lemma StoredSlots<K, V>(st: State<K, V>, all: set<Mixin>, mixins: set<Mixin>, size: nat, k: K, v: V, now: int)
    requires Storing(st, all, size, k) && Slots in all && Slots !in mixins
    ensures Stored(st, mixins + {Slots}, size, k, v, now) == Evicted(Stored(st, mixins, size, k, v, now), size)
  {
    if |st.registry| > size {
      assert st.registry[0] == k;
    } else {
      RemoveMeaning(st.registry, k);
    }
  }

  lemma StoredTimeout<K, V>(st: State<K, V>, all: set<Mixin>, mixins: set<Mixin>, size: nat, k: K, v: V, now: int)
    requires Storing(st, all, size, k) && Timeout in all && Timeout !in mixins
    requires mixins <= all
    ensures var s := Stored(st, mixins, size, k, v, now);
            Stored(st, mixins + {Timeout}, size, k, v, now) == s.(timestamps := s.timestamps[k := now])
  {
    var last := st.registry[|st.registry| - 1];
    if Slots in mixins && |st.registry| > size {
      assert last != k;
      assert (st.timestamps[k := now]) - {last} == (st.timestamps - {last})[k := now];
    }
  }

  lemma MembersStep(mixins: seq<Mixin>, i: nat)
    requires i < |mixins| && NoDuplicates(mixins)
    ensures Members(mixins[i..]) == Members(mixins[i + 1..]) + {mixins[i]}
    ensures mixins[i] !in Members(mixins[i + 1..])
    ensures Members(mixins[i..]) <= Members(mixins)
  {
    assert mixins[i..] == [mixins[i]] + mixins[i + 1..];
    assert forall j :: i < j < |mixins| ==> mixins[j] != mixins[i];
  }

  /** If there is one key too many, it may be dropped: it is not the one being stored. */
  ghost predicate MayEvict<K, V>(st: State<K, V>, mixins: set<Mixin>, size: nat) {
    && |st.registry| <= size + 1
    && (|st.registry| > size ==>
          var last := st.registry[|st.registry| - 1];
          && last in st.dict && (Timeout in mixins ==> last in st.timestamps)
          && NoDuplicates(st.registry))
    && (Timeout !in mixins ==> st.timestamps == map[])
  }

  lemma StoredMayEvict<K, V>(st: State<K, V>, all: set<Mixin>, mixins: set<Mixin>, size: nat, k: K, v: V, now: int)
    requires Storing(st, all, size, k) && Slots in all && Slots !in mixins && mixins <= all
    ensures MayEvict(Stored(st, mixins, size, k, v, now), all, size)
    ensures |Stored(st, mixins, size, k, v, now).registry| == |st.registry|
  {
    RemoveMeaning(st.registry, k);
    if |st.registry| > size {
      assert st.registry[|st.registry| - 1] != k;
      assert st.registry[|st.registry| - 1] in Elements(st.registry);
    }
  }

  lemma EvictedLast<K>(registry: seq<K>)
    requires registry != [] && NoDuplicates(registry)
    ensures Remove(registry, registry[|registry| - 1]) == registry[..|registry| - 1]
  {
    RemoveAt(registry, registry[|registry| - 1], |registry| - 1);
  }

  lemma DeletedConsistent<K, V>(st: State<K, V>, mixins: set<Mixin>, k: K)
    requires Consistent(st, mixins)
    ensures Consistent(Deleted(st, k), mixins)
    ensures |Deleted(st, k).registry| == if k in st.dict then |st.registry| - 1 else |st.registry|
  {
    RemoveMeaning(st.registry, k);
    assert k in st.dict <==> k in Elements(st.registry);
    assert Elements(Remove(st.registry, k)) == Elements(st.registry) - {k};
  }

  lemma RefreshedConsistent<K, V>(st: State<K, V>, mixins: set<Mixin>, k: K)
    requires Consistent(st, mixins) && k in st.dict
    ensures Consistent(Refreshed(st, k), mixins)
    ensures |Refreshed(st, k).registry| == |st.registry|
  {
    RemoveMeaning(st.registry, k);
    assert k in Elements(st.registry);
    assert Elements(ToFront(st.registry, k)) == Elements(st.registry);
  }

  lemma RegisteredStoring<K, V>(st: State<K, V>, mixins: set<Mixin>, size: nat, k: K)
    requires WellFormed(st, mixins, size) && size >= 1
    ensures Storing(Registered(st, k), mixins, size, k)
  {
    assert k in st.dict <==> k in Elements(st.registry);
    assert Elements([k] + st.registry) == {k} + Elements(st.registry);
  }

  lemma StoredWellFormed<K, V>(st: State<K, V>, mixins: set<Mixin>, size: nat, k: K, v: V, now: int)
    requires Storing(st, mixins, size, k)
    ensures WellFormed(Stored(st, mixins, size, k, v, now), mixins, size)
  {
    var s1 := st.(dict := st.dict[k := v],
                  timestamps := if Timeout in mixins then st.timestamps[k := now] else st.timestamps);
    assert Consistent(s1, mixins);
    if Slots in mixins {
      EvictedConsistent(s1, mixins, size, k);
      RefreshedConsistent(Evicted(s1, size), mixins, k);
    } else {
      RefreshedConsistent(s1, mixins, k);
    }
  }

  /** The key that was just stored, at the front if there is one too many, is not dropped. */
  lemma EvictedConsistent<K, V>(st: State<K, V>, mixins: set<Mixin>, size: nat, k: K)
    requires Consistent(st, mixins) && k in st.dict && size >= 1
    requires |st.registry| <= size + 1 && (|st.registry| > size ==> st.registry[0] == k)
    ensures Consistent(Evicted(st, size), mixins) && k in Evicted(st, size).dict
    ensures |Evicted(st, size).registry| <= size
  {
    if |st.registry| > size {
      var last := st.registry[|st.registry| - 1];
      assert last in Elements(st.registry);
      DeletedConsistent(st, mixins, last);
    }
  }

  /** When an entry has timed out, whatever the mixins below did to it is undone with it. */
  lemma FetchedTimeout<K, V>(st: State<K, V>, mixins: set<Mixin>, timeout: int, k: K, now: int)
    requires k in st.dict && k in st.timestamps && Timeout !in mixins
    ensures Fetched(st, mixins + {Timeout}, timeout, k, now) ==
            if TimedOut(st, {Timeout}, timeout, k, now) then Deleted(Fetched(st, mixins, timeout, k, now), k)
            else Fetched(st, mixins, timeout, k, now)
    ensures Fetched(st, mixins, timeout, k, now).timestamps == st.timestamps
    ensures Fetched(st, mixins, timeout, k, now).dict == st.dict
    ensures k in st.registry ==> k in Fetched(st, mixins, timeout, k, now).registry
  {
    RemoveToFront(st.registry, k);
  }

  lemma RemoveToFront<K>(registry: seq<K>, k: K)
    ensures Remove(ToFront(registry, k), k) == Remove(registry, k)
  {
    assert ToFront(registry, k)[1..] == Remove(registry, k);
  }

  class Cache<K(==), V> {
    const mixins: seq<Mixin>
    const size: nat
    const timeout: int
    var dict: map<K, V>
    var registry: seq<K>
    var timestamps: map<K, int>
    var dontLock: bool
    /** Whether `_lock` is taken; taking it twice would never return. */
    var locked: bool

    ghost function St(): State<K, V>
      reads this
    {
      State(dict, registry, timestamps)
    }

    ghost predicate Config()
      reads this
    {
      NoDuplicates(mixins) && size >= 1
    }

    ghost predicate Valid()
      reads this
    {
      Config() && !locked && WellFormed(St(), Members(mixins), size)
    }

    constructor (mixins: seq<Mixin>, size: nat, timeout: int)
      requires NoDuplicates(mixins) && size >= 1
      ensures Valid() && !dontLock && dict == map[] && registry == []
      ensures this.mixins == mixins && this.size == size && this.timeout == timeout
    {
      this.mixins, this.size, this.timeout := mixins, size, timeout;
      dict, registry, timestamps := map[], [], map[];
      dontLock, locked := false, false;
    }

    method Acquire()
      requires !locked
      modifies this`locked
      ensures locked
    {
      locked := true;
    }

    method Release()
      requires locked
      modifies this`locked
      ensures !locked
    {
      locked := false;
    }

    /** `__delitem__` of the mixins from the i-th on, then of `dict`. */
    method DelChain(i: nat, k: K) returns (ok: bool)
      requires i <= |mixins| && NoDuplicates(mixins)
      requires Timeout in mixins && k in dict ==> k in timestamps
      modifies this`dict, this`timestamps, this`dontLock
      ensures ok == (k in old(dict))
      ensures dict == old(dict) - {k}
      ensures timestamps == if ok && Timeout in mixins[i..] then old(timestamps) - {k} else old(timestamps)
      ensures dontLock == if Timeout in mixins[i..] then !ok else old(dontLock)
      decreases |mixins| - i
    {
      if i == |mixins| {
        if k !in dict {
          return false;
        }
        dict := dict - {k};
        return true;
      }
      MembersStep(mixins, i);
      if mixins[i] == Timeout {
        dontLock := true;
        ok := DelChain(i + 1, k);
        if !ok {
          return;
        }
        dontLock := false;
        timestamps := timestamps - {k};
      } else {
        ok := DelChain(i + 1, k);
      }
    }

    /** `del cache[k]`; false when it raises KeyError. */
    method DelItem(k: K) returns (ok: bool)
      requires Config() && (!dontLock ==> !locked)
      requires Timeout in mixins && k in dict ==> k in timestamps
      requires Timeout !in mixins ==> timestamps == map[]
      requires k in dict ==> k in registry
      modifies this`dict, this`registry, this`timestamps, this`dontLock, this`locked
      ensures ok == (k in old(dict))
      ensures St() == if ok then Deleted(old(St()), k) else old(St())
      ensures locked == old(locked)
      ensures dontLock == if Timeout in mixins then !ok else old(dontLock)
    {
      if !dontLock {
        Acquire();
      }
      var didLock := !dontLock;
      ok := DelChain(0, k);
      assert mixins[0..] == mixins;
      if ok {
        registry := Remove(registry, k);
      }
      if didLock {
        Release();
      }
    }

    /** The loop of `cache_slots`; it has at most one key to drop. */
    method EvictStale()
      requires Config() && locked && MayEvict(St(), Members(mixins), size)
      modifies this`dict, this`registry, this`timestamps, this`dontLock, this`locked
      ensures locked && St() == Evicted(old(St()), size)
      ensures dontLock == (old(dontLock) && |old(registry)| <= size)
    {
      while |registry| > size
        invariant locked
        invariant if |registry| > size then St() == old(St()) && dontLock == old(dontLock)
                  else St() == Evicted(old(St()), size) && dontLock == (old(dontLock) && |old(registry)| <= size)
        decreases |registry|
      {
        var staleKey := registry[|registry| - 1];
        EvictedLast(registry);
        dontLock := true;
        var ok := DelItem(staleKey);
        assert ok;
        dontLock := false;
      }
    }

    /** `__setitem__` of the mixins from the i-th on, then of `dict`. */
    method SetChain(i: nat, k: K, v: V, now: int)
      requires i <= |mixins| && Config() && locked
      requires Storing(St(), Members(mixins), size, k)
      modifies this`dict, this`registry, this`timestamps, this`dontLock, this`locked
      ensures locked
      ensures St() == Stored(old(St()), Members(mixins[i..]), size, k, v, now)
      ensures dontLock == (old(dontLock) && !(Slots in Members(mixins[i..]) && |old(registry)| > size))
      decreases |mixins| - i
    {
      if i == |mixins| {
        dict := dict[k := v];
        return;
      }
      MembersStep(mixins, i);
      SetChain(i + 1, k, v, now);
      SetOne(mixins[i], k, v, now, old(St()), Members(mixins[i + 1..]));
    }

    /** What one mixin does in `__setitem__` once those `below` it are done; `st` is how they found the cache. */
    method SetOne(m: Mixin, k: K, v: V, now: int, ghost st: State<K, V>, ghost below: set<Mixin>)
      requires Config() && locked && Storing(st, Members(mixins), size, k)
      requires m in Members(mixins) && m !in below && below <= Members(mixins)
      requires St() == Stored(st, below, size, k, v, now)
      modifies this`dict, this`registry, this`timestamps, this`dontLock, this`locked
      ensures locked && St() == Stored(st, below + {m}, size, k, v, now)
      ensures dontLock == (old(dontLock) && !(m == Slots && |st.registry| > size))
    {
      match m {
        case Mru =>
          if registry[0] != k {
            registry := ToFront(registry, k);
          }
        case Slots =>
          StoredSlots(st, Members(mixins), below, size, k, v, now);
          StoredMayEvict(st, Members(mixins), below, size, k, v, now);
          EvictStale();
        case Timeout =>
          StoredTimeout(st, Members(mixins), below, size, k, v, now);
          timestamps := timestamps[k := now];
      }
    }

    /** `cache[k] = v`. */
    method SetItem(k: K, v: V, now: int)
      requires Valid()
      modifies this
      ensures Valid()
      ensures St() == Stored(Registered(old(St()), k), Members(mixins), size, k, v, now)
      ensures dontLock ==> old(dontLock)
    {
      RegisteredStoring(St(), Members(mixins), size, k);
      StoredWellFormed(Registered(St(), k), Members(mixins), size, k, v, now);
      Acquire();
      if k !in dict {
        registry := [k] + registry;
      }
      assert mixins[0..] == mixins;
      SetChain(0, k, v, now);
      Release();
    }

    /** `cache_timeout` deletes an entry while `cache_base` holds the lock for it. */
    method DropTimedOut(k: K)
      requires Config() && locked && Timeout in mixins && k in dict && k in timestamps && k in registry
      modifies this`dict, this`registry, this`timestamps, this`dontLock, this`locked
      ensures locked && !dontLock && St() == Deleted(old(St()), k)
    {
      dontLock := true;
      var ok := DelItem(k);
      dontLock := false;
    }

    /** `__getitem__` of the mixins from the i-th on, then of `dict`; None for KeyError. */
    method GetChain(i: nat, k: K, now: int) returns (r: Option<V>)
      requires i <= |mixins| && Config() && locked
      requires WellFormed(St(), Members(mixins), size)
      modifies this`dict, this`registry, this`timestamps, this`dontLock, this`locked
      ensures locked
      ensures k !in old(dict) ==> r == None && St() == old(St()) && dontLock == old(dontLock)
      ensures k in old(dict) ==>
                var has := Members(mixins[i..]);
                && (Timeout in has ==> k in old(timestamps))
                && St() == Fetched(old(St()), has, timeout, k, now)
                && (if TimedOut(old(St()), has, timeout, k, now) then r == None && !dontLock
                    else r == Some(old(dict)[k]) && dontLock == old(dontLock))
      decreases |mixins| - i
    {
      if i == |mixins| {
        return if k in dict then Some(dict[k]) else None;
      }
      MembersStep(mixins, i);
      assert k in dict ==> k in Elements(registry);
      ghost var has := Members(mixins[i + 1..]);
      r := GetChain(i + 1, k, now);
      if r.None? {
        return;
      }
      match mixins[i] {
        case Mru =>
          if registry[0] != k {
            registry := ToFront(registry, k);
          }
        case Slots =>
        case Timeout =>
          FetchedTimeout(old(St()), has, timeout, k, now);
          if now - timestamps[k] >= timeout {
            DropTimedOut(k);
            r := None;
          }
      }
    }

    /** `cache[k]`; None when it raises KeyError. */
    method GetItem(k: K, now: int) returns (r: Option<V>)
      requires Valid()
      modifies this
      ensures Valid()
      ensures k !in old(dict) ==> r == None && St() == old(St())
      ensures k in old(dict) ==>
                && (Timeout in mixins ==> k in old(timestamps))
                && St() == Fetched(old(St()), Members(mixins), timeout, k, now)
                && r == (if TimedOut(old(St()), Members(mixins), timeout, k, now) then None else Some(old(dict)[k]))
      ensures dontLock ==> old(dontLock)
    {
      if k in dict {
        DeletedConsistent(St(), Members(mixins), k);
        RefreshedConsistent(St(), Members(mixins), k);
      }
      Acquire();
      assert mixins[0..] == mixins;
      r := GetChain(0, k, now);
      Release();
    }

    /**
     `del cache[k]` from outside; false when it raises KeyError.  When it does,
     the timeout mixin leaves `_dont_lock` set, so that later deletions go
     without the lock; nothing else ever leaves it set.
     */
    method Delete(k: K) returns (ok: bool)
      requires Valid()
      modifies this
      ensures Valid()
      ensures ok == (k in old(dict))
      ensures St() == if ok then Deleted(old(St()), k) else old(St())
      ensures dontLock == if Timeout in mixins then !ok else old(dontLock)
    {
      DeletedConsistent(St(), Members(mixins), k);
      assert k in dict ==> k in Elements(registry);
      ok := DelItem(k);
    }
  }
}
