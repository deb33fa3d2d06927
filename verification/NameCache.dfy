/**
 The names of a person that are kept in the cache: a full name from the first
 source system able to give one, and a first and last name that go with it.
 */
module NameCache {
  import opened Wrappers
  import opened Sequences

  /** The names one source system has. */
  datatype Names = Names(first: Option<string>, last: Option<string>, full: Option<string>)

  predicate IsSpace(c: char) {
    c == ' ' || '\t' <= c <= '\r'
  }

  /** The same by character codes: a blank, or from tab to carriage return. */
  ghost predicate IsBlank(c: char) {
    c as int == 32 || 9 <= c as int <= 13
  }

  /** How many characters the text has before its first white space. */
  function WordLength(s: string): (n: nat)
    ensures n <= |s| && (n < |s| ==> IsSpace(s[n]))
    ensures forall i :: 0 <= i < n ==> !IsSpace(s[i])
  {
    if s == "" || IsSpace(s[0]) then 0 else
      assert forall i :: 0 < i < |s| ==> s[i] == s[1..][i - 1];
      1 + WordLength(s[1..])
  }

  /** The words of the text. */
  function Split(s: string): seq<string>
    decreases |s|
  {
    if s == "" then []
    else if IsSpace(s[0]) then Split(s[1..])
    else [s[..WordLength(s)]] + Split(s[WordLength(s)..])
  }

  lemma {:induction false} LastWord(words: seq<string>)
    requires |words| >= 2
    ensures Join(words, " ") == Join(words[..|words| - 1], " ") + " " + words[|words| - 1]
  {
    if |words| > 2 {
      LastWord(words[1..]);
      assert words[1..][..|words| - 2] == words[..|words| - 1][1..];
    }
  }

  ghost predicate Blank(s: string) {
    forall i :: 0 <= i < |s| ==> IsBlank(s[i])
  }

  ghost predicate NoBlanks(s: string) {
    forall i :: 0 <= i < |s| ==> !IsBlank(s[i])
  }

  /** The words, with a gap before each of them and one at the end. */
  ghost function Woven(words: seq<string>, gaps: seq<string>): string
    requires |gaps| == |words| + 1
  {
    if words == [] then gaps[0] else gaps[0] + words[0] + Woven(words[1..], gaps[1..])
  }

  /** The text is these words, with white space between them, and maybe before and after. */
  ghost predicate Spells(s: string, words: seq<string>, gaps: seq<string>) {
    && |gaps| == |words| + 1 && s == Woven(words, gaps)
    && (forall i :: 0 <= i < |words| ==> words[i] != "" && NoBlanks(words[i]))
    && (forall i :: 0 <= i < |gaps| ==> Blank(gaps[i]))
    && (forall i :: 0 < i < |words| ==> gaps[i] != "")
  }

  /** A text starts with its first gap, and the word after it ends at white space or with the text. */
  lemma FirstWordEnds(s: string, words: seq<string>, gaps: seq<string>)
    requires Spells(s, words, gaps) && words != [] && gaps[0] == ""
    ensures |words[0]| <= |s| && s[..|words[0]|] == words[0] && s[|words[0]|..] == Woven(words[1..], gaps[1..])
    ensures WordLength(s) == |words[0]|
  {
    var n, rest := |words[0]|, Woven(words[1..], gaps[1..]);
    assert s == words[0] + rest;
    forall i | 0 <= i < n ensures !IsSpace(s[i]) {
      assert s[i] == words[0][i];
    }
    if n < |s| {
      assert s[n] == gaps[1][0];
    }
    WordEndsAt(s, n);
  }

  lemma StartsWithWord(s: string, words: seq<string>, gaps: seq<string>)
    requires Spells(s, words, gaps) && words != [] && gaps[0] == ""
    ensures s != "" && !IsSpace(s[0])
  {
    assert s[0] == words[0][0];
  }

  lemma {:induction false} WordEndsAt(s: string, n: nat)
    requires n <= |s| && (n < |s| ==> IsSpace(s[n])) && forall i :: 0 <= i < n ==> !IsSpace(s[i])
    ensures WordLength(s) == n
  {
  }

  /** Splitting a text gives its words, which are the only ones it has. */
  lemma {:induction false} SplitIsTheWords(s: string, words: seq<string>, gaps: seq<string>)
    requires Spells(s, words, gaps)
    ensures words == Split(s)
    decreases |s|, |words|
  {
    if gaps[0] != "" {
      var less := [gaps[0][1..]] + gaps[1..];
      assert s[0] == gaps[0][0];
      assert less[1..] == gaps[1..];
      assert s[1..] == Woven(words, less);
      SplitIsTheWords(s[1..], words, less);
    } else if words != [] {
      FirstWordEnds(s, words, gaps);
      StartsWithWord(s, words, gaps);
      SplitIsTheWords(s[|words[0]|..], words[1..], gaps[1..]);
      assert words == [words[0]] + words[1..];
    }
  }

  lemma {:induction false} SplitSpells(s: string) returns (gaps: seq<string>)
    ensures Spells(s, Split(s), gaps)
    decreases |s|
  {
    if s == "" {
      gaps := [""];
    } else if IsSpace(s[0]) {
      var rest := SplitSpells(s[1..]);
      gaps := [[s[0]] + rest[0]] + rest[1..];
      assert gaps[1..] == rest[1..];
      WovenGap(s[0], Split(s), rest, gaps);
      assert forall i :: 0 < i < |gaps| ==> gaps[i] == rest[i];
      assert forall i :: 0 < i < |gaps[0]| ==> gaps[0][i] == rest[0][i - 1];
    } else {
      var n := WordLength(s);
      var rest := SplitSpells(s[n..]);
      gaps := [""] + rest;
      WordThenRest(s, n, rest);
    }
  }

  lemma WovenGap(c: char, words: seq<string>, rest: seq<string>, gaps: seq<string>)
    requires |rest| == |gaps| == |words| + 1 && gaps[0] == [c] + rest[0] && gaps[1..] == rest[1..]
    ensures Woven(words, gaps) == [c] + Woven(words, rest)
  {
    if words != [] {
      InFront([c], rest[0], words[0], Woven(words[1..], rest[1..]));
    }
  }

  lemma InFront(s: string, a: string, b: string, c: string)
    ensures s + a + b + c == s + (a + b + c)
  {
  }

  lemma WordThenRest(s: string, n: nat, rest: seq<string>)
    requires s != "" && !IsSpace(s[0]) && n == WordLength(s) && Spells(s[n..], Split(s[n..]), rest)
    ensures Spells(s, Split(s), [""] + rest)
  {
    var tail := Split(s[n..]);
    assert NoBlanks(s[..n]) && s[..n] != "";
    if tail != [] && rest[0] == "" {
      StartsWithWord(s[n..], tail, rest);
    }
    PrependWord(s[..n], s[n..], tail, rest);
    assert s == s[..n] + s[n..];
  }

  lemma PrependWord(word: string, s: string, words: seq<string>, gaps: seq<string>)
    requires word != "" && NoBlanks(word) && Spells(s, words, gaps) && (words != [] ==> gaps[0] != "")
    ensures Spells(word + s, [word] + words, [""] + gaps)
  {
    var more, wider := [word] + words, [""] + gaps;
    assert more[1..] == words && wider[1..] == gaps;
    assert forall i :: 0 < i < |more| ==> more[i] == words[i - 1];
    assert forall i :: 0 < i < |wider| ==> wider[i] == gaps[i - 1];
  }

  /** One space between each two words, and nothing before or after. */
  ghost predicate SingleSpaces(gaps: seq<string>) {
    && gaps != [] && gaps[0] == gaps[|gaps| - 1] == ""
    && forall i :: 0 < i < |gaps| - 1 ==> gaps[i] == " "
  }

  ghost function SpacesFor(n: nat): seq<string> {
    seq(n + 1, i => if i == 0 || i == n then "" else " ")
  }

  lemma {:induction false} JoinIsWoven(words: seq<string>)
    requires words != []
    ensures Join(words, " ") == Woven(words, SpacesFor(|words|))
  {
    var gaps := SpacesFor(|words|);
    if |words| == 1 {
      assert Woven(words[1..], gaps[1..]) == "";
    } else {
      var less := SpacesFor(|words| - 1);
      JoinIsWoven(words[1..]);
      assert gaps[1..] == [" "] + less[1..];
      WovenGap(' ', words[1..], less, gaps[1..]);
      assert Woven(words, gaps) == words[0] + Woven(words[1..], gaps[1..]);
    }
  }

  /** Putting the words of a text together again normalises its white space. */
  lemma SplitAndJoin(s: string)
    requires Split(s) != []
    ensures SingleSpaces(SpacesFor(|Split(s)|))
    ensures Join(Split(s), " ") == Woven(Split(s), SpacesFor(|Split(s)|))
  {
    JoinIsWoven(Split(s));
  }

  /** The first and the last name make the full one: separated by a space, or the last name alone. */
  ghost predicate Make(n: Names, full: string) {
    && n.first.Some? && n.last.Some?
    && full == (if n.first.value == "" then n.last.value else n.first.value + " " + n.last.value)
  }

  /** The full name that a source can give: its own, or a text that its other names make. */
  ghost predicate CanGive(n: Names, full: string) {
    if n.full.Some? then full == n.full.value else Make(n, full) && full != ""
  }

  /** The source can give the full name, and none before it can give any. */
  ghost predicate FirstFullAt(sources: seq<Names>, full: string, i: nat)
    requires i < |sources|
  {
    CanGive(sources[i], full) && forall j, f :: 0 <= j < i ==> !CanGive(sources[j], f)
  }

  lemma OnlyOneFirst(sources: seq<Names>, full: string, i: nat, j: nat)
    requires i < |sources| && j < |sources|
    requires FirstFullAt(sources, full, i) && FirstFullAt(sources, full, j)
    ensures i == j
  {
  }

  /** From the source that gave the full name on, the first one whose other names make that full name. */
  ghost predicate FirstMatchAt(sources: seq<Names>, full: string, k: nat)
    requires k < |sources|
  {
    && Make(sources[k], full)
    && exists i :: 0 <= i <= k && FirstFullAt(sources, full, i)
                   && forall j :: i <= j < k ==> !Make(sources[j], full)
  }

  ghost predicate NoMatch(sources: seq<Names>, full: string) {
    forall i, k :: 0 <= i <= k < |sources| && FirstFullAt(sources, full, i) ==> !Make(sources[k], full)
  }

  /**
   The names to cache.  First and last name are those of a source that makes the
   full name, or else all words of the full name but the last, and the last one.
   */
  ghost predicate AreCached(sources: seq<Names>, cached: Names) {
    && (cached.full.None? ==> forall i, f :: 0 <= i < |sources| ==> !CanGive(sources[i], f))
    && (cached.full.Some? ==> exists i :: 0 <= i < |sources| && FirstFullAt(sources, cached.full.value, i))
    && (cached.first.Some? <==> cached.last.Some?)
    && (cached.first.Some? ==>
          && cached.full.Some?
          && (|| (exists k :: 0 <= k < |sources| && FirstMatchAt(sources, cached.full.value, k)
                              && cached.first == sources[k].first && cached.last == sources[k].last)
              || (NoMatch(sources, cached.full.value) && AreWordsOf(cached.full.value, cached.first.value, cached.last.value))))
    && (cached.full.Some? && cached.first.None? ==>
          NoMatch(sources, cached.full.value) && HasFewWords(cached.full.value))
  }

  /** The last word, and the words before it with single spaces; so they rebuild the text up to white space. */
  ghost predicate AreWordsOf(full: string, first: string, last: string) {
    exists words, gaps :: |words| >= 2 && Spells(full, words, gaps) && AreNames(words, first, last)
  }

  ghost predicate AreNames(words: seq<string>, first: string, last: string)
    requires words != []
  {
    var n := |words| - 1;
    && last == words[n] && Normalised(words[..n], first) && Normalised(words, first + " " + last)
  }

  ghost predicate Normalised(words: seq<string>, s: string) {
    exists spaces :: SingleSpaces(spaces) && |spaces| == |words| + 1 && s == Woven(words, spaces)
  }

  ghost predicate HasFewWords(full: string) {
    exists words, gaps :: |words| < 2 && Spells(full, words, gaps)
  }

  function Rebuilt(first: string, last: string): string {
    if first == "" then last else first + " " + last
  }

  function GenFull(n: Names): Option<string> {
    if n.first.Some? && n.last.Some? then Some(Rebuilt(n.first.value, n.last.value)) else None
  }

  lemma GenFullMakes(n: Names, full: string)
    ensures GenFull(n) == Some(full) <==> Make(n, full)
  {
  }

  /** Splitting the full name, when no source makes it. */
  method SplitFull(full: string) returns (names: Option<(string, string)>)
    ensures names.Some? ==> AreWordsOf(full, names.value.0, names.value.1)
    ensures names.None? ==> HasFewWords(full)
  {
    var parts := Split(full);
    ghost var gaps := SplitSpells(full);
    if |parts| < 2 {
      return None;
    }
    var n := |parts| - 1;
    SplitAndJoin(full);
    LastWord(parts);
    JoinIsWoven(parts[..n]);
    assert SingleSpaces(SpacesFor(n));
    assert Normalised(parts[..n], Join(parts[..n], " "));
    assert Normalised(parts, Join(parts, " "));
    assert AreNames(parts, Join(parts[..n], " "), parts[n]);
    return Some((Join(parts[..n], " "), parts[n]));
  }

  method UpdateCachedNames(sources: seq<Names>) returns (cached: Names)
    ensures AreCached(sources, cached)
  {
    cached := Names(None, None, None);
    ghost var at := -1;
    for n := 0 to |sources|
      invariant cached.first.None? && cached.last.None?
      invariant cached.full.None? ==> forall i, f :: 0 <= i < n ==> !CanGive(sources[i], f)
      invariant cached.full.Some? ==> 0 <= at < n && FirstFullAt(sources, cached.full.value, at)
                                      && forall j :: at <= j < n ==> !Make(sources[j], cached.full.value)
    {
      var names := sources[n];
      var genFull := GenFull(names);
      forall f ensures genFull == Some(f) <==> Make(names, f) {
        GenFullMakes(names, f);
      }
      if cached.full.None? {
        if names.full.Some? {
          cached := cached.(full := names.full);
        } else if genFull.Some? && genFull.value != "" {
          cached := cached.(full := genFull);
        } else {
          continue;
        }
        at := n;
      }
      if genFull == cached.full {
        cached := cached.(first := names.first, last := names.last);
        assert 0 <= at <= n && FirstFullAt(sources, cached.full.value, at);
        assert FirstMatchAt(sources, cached.full.value, n);
        return;
      }
    }
    if cached.full.Some? {
      forall i, k | 0 <= i <= k < |sources| && FirstFullAt(sources, cached.full.value, i)
        ensures !Make(sources[k], cached.full.value)
      {
        OnlyOneFirst(sources, cached.full.value, i, at);
      }
      var names := SplitFull(cached.full.value);
      if names.Some? {
        cached := cached.(first := Some(names.value.0), last := Some(names.value.1));
      }
    }
  }

  datatype Variant = First | Last | Full | Other(code: int)

  /** The cache has the name for the variant, or none if there is none. */
  ghost predicate Has(cache: map<Variant, string>, v: Variant, name: Option<string>) {
    (v in cache <==> name.Some?) && (v in cache ==> cache[v] == name.value)
  }

  class NameTable {
    /** The rows of the cache's own source system. */
    var cache: map<Variant, string>

    constructor ()
      ensures cache == map[]
    {
      cache := map[];
    }

    method SetCachedName(v: Variant, name: Option<string>)
      modifies this
      ensures cache == if name.Some? then old(cache)[v := name.value] else old(cache) - {v}
    {
      if v in cache {
        if name.None? {
          cache := cache - {v};
        } else if cache[v] != name.value {
          cache := cache[v := name.value];
        }
      } else if name.Some? {
        cache := cache[v := name.value];
      }
    }

    /** Bring the cached variants in line, unless no name at all was found: then the cache is left as it is. */
    method Refresh(sources: seq<Names>) returns (cached: Names)
      modifies this
      ensures AreCached(sources, cached)
      ensures cached.full.None? ==> cached.first.None? && cache == old(cache)
      ensures cached.full.Some? ==>
                && Has(cache, First, cached.first) && Has(cache, Last, cached.last) && Has(cache, Full, cached.full)
                && forall code :: Has(cache, Other(code), if Other(code) in old(cache) then Some(old(cache)[Other(code)]) else None)
    {
      cached := UpdateCachedNames(sources);
      if cached.first.Some? || cached.last.Some? || cached.full.Some? {
        SetCachedName(First, cached.first);
        SetCachedName(Last, cached.last);
        SetCachedName(Full, cached.full);
      }
    }
  }
}
