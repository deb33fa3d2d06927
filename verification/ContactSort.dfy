/**
 Sorting contact information by a specification: two stable sorts, by preference
 and then by place in the specification, and a filter.
 */
module ContactSort {
  import opened Wrappers

  datatype Contact = Contact(source: int, contactType: int, pref: int, value: string)

  /** A source system and a contact type; None stands for any. */
  datatype Pattern = Pattern(source: Option<int>, contactType: Option<int>)

  predicate Matches(p: Pattern, c: Contact) {
    (p.source == None || p.source == Some(c.source)) && (p.contactType == None || p.contactType == Some(c.contactType))
  }

  /** Lower is more specific; a source counts for more than a type. */
  function Vagueness(p: Pattern): nat {
    (if p.source == None then 2 else 0) + (if p.contactType == None then 1 else 0)
  }

  function IndexOf(spec: seq<Pattern>, p: Pattern): (i: nat)
    requires p in spec
    ensures i < |spec| && spec[i] == p && p !in spec[..i]
  {
    if spec[0] == p then 0 else
      assert forall j :: 0 < j < |spec| ==> spec[j] == spec[1..][j - 1];
      IndexOf(spec[1..], p) + 1
  }

  /** The place of a contact in the specification; -1 for one that is to be dropped. */
  function Rank(spec: seq<Pattern>, c: Contact): int {
    if Pattern(Some(c.source), Some(c.contactType)) in spec then
      IndexOf(spec, Pattern(Some(c.source), Some(c.contactType)))
    else if Pattern(Some(c.source), None) in spec then IndexOf(spec, Pattern(Some(c.source), None))
    else if Pattern(None, Some(c.contactType)) in spec then IndexOf(spec, Pattern(None, Some(c.contactType)))
    else if Pattern(None, None) in spec then IndexOf(spec, Pattern(None, None))
    else -1
  }

  /** The first of the most specific patterns that match the contact; -1 only if none does. */
  lemma RankMeaning(spec: seq<Pattern>, c: Contact)
    ensures var r := Rank(spec, c);
            if r == -1 then forall p :: p in spec ==> !Matches(p, c)
            else
              && 0 <= r < |spec| && Matches(spec[r], c)
              && (forall p :: p in spec && Matches(p, c) ==> Vagueness(spec[r]) <= Vagueness(p))
              && (forall j :: 0 <= j < r && Matches(spec[j], c) ==> Vagueness(spec[r]) < Vagueness(spec[j]))
  {
    var r := Rank(spec, c);
    forall p | p in spec && Matches(p, c)
      ensures r >= 0 && Vagueness(spec[r]) <= Vagueness(p)
      ensures Vagueness(spec[r]) == Vagueness(p) ==> spec[r] == p
    {
    }
    if r >= 0 {
      forall j | 0 <= j < r && Matches(spec[j], c) ensures Vagueness(spec[r]) < Vagueness(spec[j]) {
        assert spec[j] in spec && spec[j] in spec[..r];
      }
    }
  }

  /** A contact and where it was at first. */
  datatype Entry = Entry(position: nat, contact: Contact)

  /** Put `x` in front of the first element that does not go before it. */
  function Insert(x: Entry, s: seq<Entry>, key: Entry -> int): seq<Entry> {
    if s == [] || key(x) <= key(s[0]) then [x] + s else [s[0]] + Insert(x, s[1..], key)
  }

  /** A stable sort. */
  function StableSort(s: seq<Entry>, key: Entry -> int): seq<Entry> {
    if s == [] then [] else Insert(s[0], StableSort(s[1..], key), key)
  }

  ghost predicate Precedes(key: Entry -> int, lt: (Entry, Entry) -> bool, x: Entry, y: Entry) {
    key(x) < key(y) || (key(x) == key(y) && lt(x, y))
  }

  /** Ordered by the key, and where keys are equal, by `lt`. */
  ghost predicate Ordered(s: seq<Entry>, key: Entry -> int, lt: (Entry, Entry) -> bool) {
    forall a, b :: 0 <= a < b < |s| ==> Precedes(key, lt, s[a], s[b])
  }

  lemma {:induction false} InsertMembers(x: Entry, s: seq<Entry>, key: Entry -> int)
    ensures forall y :: y in Insert(x, s, key) <==> y == x || y in s
  {
    if s != [] && key(x) > key(s[0]) {
      InsertMembers(x, s[1..], key);
      assert s == [s[0]] + s[1..];
    }
  }

  lemma ConsOrdered(x: Entry, s: seq<Entry>, key: Entry -> int, lt: (Entry, Entry) -> bool)
    requires Ordered(s, key, lt) && forall y :: y in s ==> Precedes(key, lt, x, y)
    ensures Ordered([x] + s, key, lt)
  {
  }

  lemma FirstIsFirst(s: seq<Entry>, key: Entry -> int, lt: (Entry, Entry) -> bool, y: Entry)
    requires s != [] && Ordered(s, key, lt) && y in s[1..]
    ensures Precedes(key, lt, s[0], y)
  {
    var j :| 0 <= j < |s[1..]| && s[1..][j] == y;
    assert s[j + 1] == y;
  }

  lemma TailOrdered(s: seq<Entry>, key: Entry -> int, lt: (Entry, Entry) -> bool)
    requires s != [] && Ordered(s, key, lt)
    ensures Ordered(s[1..], key, lt)
  {
  }

  lemma {:induction false} InsertOrdered(x: Entry, s: seq<Entry>, key: Entry -> int, lt: (Entry, Entry) -> bool)
    requires Ordered(s, key, lt) && forall y :: y in s ==> lt(x, y)
    ensures Ordered(Insert(x, s, key), key, lt)
  {
    if s == [] || key(x) <= key(s[0]) {
      forall y | y in s ensures Precedes(key, lt, x, y) {
        assert s == [s[0]] + s[1..];
        if y != s[0] {
          FirstIsFirst(s, key, lt, y);
        }
      }
      ConsOrdered(x, s, key, lt);
    } else {
      TailOrdered(s, key, lt);
      InsertOrdered(x, s[1..], key, lt);
      InsertMembers(x, s[1..], key);
      forall y | y in Insert(x, s[1..], key) ensures Precedes(key, lt, s[0], y) {
        if y != x {
          FirstIsFirst(s, key, lt, y);
        }
      }
      ConsOrdered(s[0], Insert(x, s[1..], key), key, lt);
    }
  }

  /** A stable sort keeps what it finds in order by `lt` in that order, key by key. */
  lemma {:induction false} StableSortOrdered(s: seq<Entry>, key: Entry -> int, lt: (Entry, Entry) -> bool)
    requires forall a, b :: 0 <= a < b < |s| ==> lt(s[a], s[b])
    ensures Ordered(StableSort(s, key), key, lt)
    ensures forall y :: y in StableSort(s, key) <==> y in s
  {
    if s != [] {
      StableSortOrdered(s[1..], key, lt);
      InsertMembers(s[0], StableSort(s[1..], key), key);
      forall y | y in s[1..] ensures lt(s[0], y) {
        var j :| 0 <= j < |s[1..]| && s[1..][j] == y;
        assert s[j + 1] == y;
      }
      InsertOrdered(s[0], StableSort(s[1..], key), key, lt);
      assert s == [s[0]] + s[1..];
    }
  }

  function Filter(s: seq<Entry>, key: Entry -> int): seq<Entry> {
    if s == [] then [] else (if key(s[0]) == -1 then [] else [s[0]]) + Filter(s[1..], key)
  }

  lemma {:induction false} FilterOrdered(s: seq<Entry>, key: Entry -> int, lt: (Entry, Entry) -> bool)
    requires Ordered(s, key, lt)
    ensures Ordered(Filter(s, key), key, lt)
    ensures forall y :: y in Filter(s, key) <==> y in s && key(y) != -1
  {
    if s != [] {
      TailOrdered(s, key, lt);
      FilterOrdered(s[1..], key, lt);
      assert s == [s[0]] + s[1..];
      var rest := Filter(s[1..], key);
      forall y | y in rest ensures Precedes(key, lt, s[0], y) {
        FirstIsFirst(s, key, lt, y);
      }
      ConsOrdered(s[0], rest, key, lt);
    }
  }

  function Entries(contacts: seq<Contact>): seq<Entry> {
    seq(|contacts|, i requires 0 <= i < |contacts| => Entry(i, contacts[i]))
  }

  function Pref(): Entry -> int {
    (e: Entry) => e.contact.pref
  }

  function OrderToSpec(spec: seq<Pattern>): Entry -> int {
    (e: Entry) => Rank(spec, e.contact)
  }

  /** The answer, with the original positions. */
  function SortEntries(spec: seq<Pattern>, contacts: seq<Contact>): seq<Entry> {
    Filter(StableSort(StableSort(Entries(contacts), Pref()), OrderToSpec(spec)), OrderToSpec(spec))
  }

  function ContactsOf(answer: seq<Entry>): seq<Contact> {
    seq(|answer|, k requires 0 <= k < |answer| => answer[k].contact)
  }

  function SortContactInfo(spec: seq<Pattern>, contacts: seq<Contact>): seq<Contact> {
    ContactsOf(SortEntries(spec, contacts))
  }

  ghost predicate Matched(spec: seq<Pattern>, c: Contact) {
    exists p :: p in spec && Matches(p, c)
  }

  /** By place in the specification, then by preference, then by original position. */
  ghost predicate Before(spec: seq<Pattern>, d: Entry, e: Entry) {
    var r, q := Rank(spec, d.contact), Rank(spec, e.contact);
    || r < q
    || (r == q && d.contact.pref < e.contact.pref)
    || (r == q && d.contact.pref == e.contact.pref && d.position < e.position)
  }

  /** Just the contacts that the specification matches, each once, in order. */
  ghost predicate IsAnswer(spec: seq<Pattern>, contacts: seq<Contact>, answer: seq<Entry>) {
    && (forall e :: e in answer <==>
          e.position < |contacts| && e.contact == contacts[e.position] && Matched(spec, e.contact))
    && (forall a, b :: 0 <= a < b < |answer| ==> Before(spec, answer[a], answer[b]))
  }

  ghost function Earlier(): (Entry, Entry) -> bool {
    (d: Entry, e: Entry) => d.position < e.position
  }

  ghost function Preferred(): (Entry, Entry) -> bool {
    (d: Entry, e: Entry) =>
      d.contact.pref < e.contact.pref || (d.contact.pref == e.contact.pref && d.position < e.position)
  }

  lemma RankedIffMatched(spec: seq<Pattern>, c: Contact)
    ensures Rank(spec, c) != -1 <==> Matched(spec, c)
  {
    RankMeaning(spec, c);
  }

  lemma SortedAndFiltered(spec: seq<Pattern>, contacts: seq<Contact>)
    ensures var answer := SortEntries(spec, contacts);
            && Ordered(answer, OrderToSpec(spec), Preferred())
            && forall e :: e in answer <==> e in Entries(contacts) && OrderToSpec(spec)(e) != -1
  {
    var byPref := StableSort(Entries(contacts), Pref());
    StableSortOrdered(Entries(contacts), Pref(), Earlier());
    StableSortOrdered(byPref, OrderToSpec(spec), Preferred());
    FilterOrdered(StableSort(byPref, OrderToSpec(spec)), OrderToSpec(spec), Preferred());
  }

  /** Two stable sorts and a filter give the answer of one lexicographic sort. */
  lemma TwoSortsAreOne(spec: seq<Pattern>, contacts: seq<Contact>)
    ensures IsAnswer(spec, contacts, SortEntries(spec, contacts))
  {
    SortedAndFiltered(spec, contacts);
    forall e: Entry ensures OrderToSpec(spec)(e) != -1 <==> Matched(spec, e.contact) {
      RankedIffMatched(spec, e.contact);
    }
    forall e: Entry ensures e in Entries(contacts) <==> e.position < |contacts| && e.contact == contacts[e.position] {
      assert e.position < |contacts| ==> Entries(contacts)[e.position] == Entry(e.position, contacts[e.position]);
    }
  }

  /** There is only one such answer. */
  lemma {:induction false} AnswerIsUnique(spec: seq<Pattern>, s: seq<Entry>, t: seq<Entry>)
    requires forall e :: e in s <==> e in t
    requires forall a, b :: 0 <= a < b < |s| ==> Before(spec, s[a], s[b])
    requires forall a, b :: 0 <= a < b < |t| ==> Before(spec, t[a], t[b])
    ensures s == t
    decreases |s|
  {
    if s == [] {
      EmptyHasNone(s, t);
    } else {
      assert s[0] in s && t[0] in t;
      var i :| 0 <= i < |t| && t[i] == s[0];
      var j :| 0 <= j < |s| && s[j] == t[0];
      forall e ensures e in s[1..] <==> e in t[1..] {
        TailMembers(spec, s, e);
        TailMembers(spec, t, e);
      }
      AnswerIsUnique(spec, s[1..], t[1..]);
      assert s == [s[0]] + s[1..] && t == [t[0]] + t[1..];
    }
  }

  ghost predicate AreContactsOf(answer: seq<Entry>, r: seq<Contact>) {
    |r| == |answer| && forall k :: 0 <= k < |r| ==> r[k] == answer[k].contact
  }

  /** What sorting answers is the one sequence of the matched contacts, each once, in order. */
  lemma SortContactInfoMeaning(spec: seq<Pattern>, contacts: seq<Contact>, r: seq<Contact>)
    ensures r == SortContactInfo(spec, contacts) <==>
            exists answer :: IsAnswer(spec, contacts, answer) && AreContactsOf(answer, r)
  {
    TwoSortsAreOne(spec, contacts);
    forall answer: seq<Entry> ensures AreContactsOf(answer, r) <==> r == ContactsOf(answer) {
    }
    forall answer | IsAnswer(spec, contacts, answer) ensures answer == SortEntries(spec, contacts) {
      AnswerIsUnique(spec, answer, SortEntries(spec, contacts));
    }
  }

  lemma FirstOf(t: seq<Entry>) returns (e: Entry)
    requires t != []
    ensures e in t
  {
    e := t[0];
  }

  lemma EmptyHasNone(s: seq<Entry>, t: seq<Entry>)
    requires s == [] && forall e :: e in s <==> e in t
    ensures t == []
  {
    if t != [] {
      var e := FirstOf(t);
    }
  }

  lemma TailMembers(spec: seq<Pattern>, s: seq<Entry>, e: Entry)
    requires s != [] && forall a, b :: 0 <= a < b < |s| ==> Before(spec, s[a], s[b])
    ensures e in s[1..] <==> e in s && e != s[0]
  {
    assert s == [s[0]] + s[1..];
    assert !Before(spec, s[0], s[0]);
  }
}
