/** Lists of distinct keys, most recent first. */
module RecencyLists {
  import opened Sequences

  ghost function Elements<K>(s: seq<K>): set<K> {
    set k | k in s
  }

  /** Without the first occurrence of `k`. */
  function Remove<K(==)>(s: seq<K>, k: K): seq<K> {
    if s == [] then []
    else if s[0] == k then s[1..]
    else [s[0]] + Remove(s[1..], k)
  }

  function ToFront<K(==)>(s: seq<K>, k: K): seq<K> {
    [k] + Remove(s, k)
  }

  lemma {:induction false} RemoveMeaning<K>(s: seq<K>, k: K)
    requires NoDuplicates(s)
    ensures NoDuplicates(Remove(s, k))
    ensures forall x :: x in Remove(s, k) <==> x in s && x != k
    ensures |Remove(s, k)| == if k in s then |s| - 1 else |s|
  {
    if s != [] && s[0] == k {
      forall i, j | 0 <= i < j < |s| - 1 ensures s[1..][i] != s[1..][j] {
        assert s[i + 1] != s[j + 1];
      }
    } else if s != [] {
      forall i, j | 0 <= i < j < |s| - 1 ensures s[1..][i] != s[1..][j] {
        assert s[i + 1] != s[j + 1];
      }
      RemoveMeaning(s[1..], k);
      assert s[0] !in s[1..];
      assert s[0] !in Remove(s[1..], k);
    }
  }

  lemma {:induction false} RemoveAbsent<K>(s: seq<K>, k: K)
    requires k !in s
    ensures Remove(s, k) == s
  {
    if s != [] {
      RemoveAbsent(s[1..], k);
    }
  }

  /** Removing keeps the order of what stays. */
  lemma {:induction false} RemoveAt<K>(s: seq<K>, k: K, i: nat)
    requires NoDuplicates(s) && i < |s| && s[i] == k
    ensures Remove(s, k) == s[..i] + s[i + 1..]
  {
    if i > 0 {
      RemoveAt(s[1..], k, i - 1);
      assert s[..i] == [s[0]] + s[1..][..i - 1];
    }
  }

  function Min(a: int, b: int): int {
    if a <= b then a else b
  }

  function Take<K>(s: seq<K>, n: nat): seq<K> {
    s[..Min(n, |s|)]
  }

  /** The first `n` keys after one of them was brought to the front. */
  lemma FrontAt<K>(s: seq<K>, n: nat, k: K, i: nat)
    requires NoDuplicates(s) && i < n <= |s| && s[i] == k
    ensures Take(ToFront(s, k), n) == [k] + (s[..i] + s[i + 1..n])
  {
    RemoveAt(s, k, i);
    assert (s[..i] + s[i + 1..])[..n - 1] == s[..i] + s[i + 1..n];
  }

  lemma TakeToFrontOf<K>(s: seq<K>, n: nat, k: K, i: nat)
    requires NoDuplicates(s) && NoDuplicates(Take(s, n)) && i < n && i < |s| && s[i] == k
    ensures Take(ToFront(Take(s, n), k), n) == Take(ToFront(s, k), n)
  {
    if n < |s| {
      FrontAt(s, n, k, i);
      FrontAt(s[..n], n, k, i);
      assert s[..n][..i] == s[..i] && s[..n][i + 1..n] == s[i + 1..n];
    } else {
      assert Take(s, n) == s;
    }
  }

  lemma TakeNoDuplicates<K>(s: seq<K>, n: nat)
    requires NoDuplicates(s)
    ensures NoDuplicates(Take(s, n))
  {
    forall i, j | 0 <= i < j < |Take(s, n)| ensures Take(s, n)[i] != Take(s, n)[j] {
      assert s[i] != s[j];
    }
  }

  /** What is cut off does not matter for what a use brings to the front. */
  lemma TakeToFront<K>(s: seq<K>, n: nat, k: K)
    requires NoDuplicates(s) && n >= 1
    ensures Take(ToFront(Take(s, n), k), n) == Take(ToFront(s, k), n)
  {
    TakeNoDuplicates(s, n);
    if k in Take(s, n) {
      var i :| 0 <= i < |Take(s, n)| && Take(s, n)[i] == k;
      TakeToFrontOf(s, n, k, i);
    } else {
      RemoveAbsent(Take(s, n), k);
      if k in s {
        var i :| 0 <= i < |s| && s[i] == k;
        assert i >= n;
        RemoveAt(s, k, i);
      } else {
        RemoveAbsent(s, k);
      }
    }
  }
}
