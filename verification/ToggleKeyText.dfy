/**
 The keys of togglable events are texts, joined from parts by dashes.  Here is
 when such a text tells two events apart, and when it does not.
 */
module ToggleKeyText {
  import opened Wrappers
  import opened Sequences
  import opened ChangeLogCleaner

  const DASH := "-"

  ghost predicate NoDash(s: string) {
    '-' !in s
  }

  lemma {:induction false} DigitsMeaning(n: nat)
    ensures Digits(n) != "" && (|Digits(n)| == 1 <==> n < 10)
    ensures forall i :: 0 <= i < |Digits(n)| ==> '0' <= Digits(n)[i] <= '9'
  {
    if n >= 10 {
      DigitsMeaning(n / 10);
    }
  }

  /** The number that a text of digits stands for. */
  ghost function ValueOf(s: string): int {
    if s == "" then 0 else 10 * ValueOf(s[..|s| - 1]) + (s[|s| - 1] as int - '0' as int)
  }

  /** Numbers are written in decimal, without leading zeros, and with a dash in front if they are negative. */
  lemma IntTextMeaning(n: int) returns (digits: string)
    ensures IntText(n) == (if n < 0 then "-" else "") + digits
    ensures ValueOf(digits) == (if n < 0 then -n else n)
    ensures digits != "" && (n != 0 ==> digits[0] != '0')
  {
    var m: nat := if n < 0 then -n else n;
    digits := Digits(m);
    DigitsAreDecimal(m);
  }

  lemma {:induction false} DigitsAreDecimal(n: nat)
    ensures Digits(n) != "" && ValueOf(Digits(n)) == n && (n > 0 ==> Digits(n)[0] != '0')
  {
    if n >= 10 {
      DigitsAreDecimal(n / 10);
      assert Digits(n)[..|Digits(n)| - 1] == Digits(n / 10);
    } else {
      assert Digits(n)[..0] == "";
    }
  }

  lemma {:induction false} DigitsTellApart(m: nat, n: nat)
    requires Digits(m) == Digits(n)
    ensures m == n
  {
    DigitsMeaning(m);
    DigitsMeaning(n);
    if m >= 10 {
      var d, e := Digits(m / 10), Digits(n / 10);
      assert Digits(m)[..|Digits(m)| - 1] == d && Digits(n)[..|Digits(n)| - 1] == e;
      assert Digits(m)[|d|] == DIGITS[m % 10] && Digits(n)[|e|] == DIGITS[n % 10];
      DigitsTellApart(m / 10, n / 10);
    }
  }

  /** Up to its first dash, a text is determined. */
  lemma {:induction false} FirstPart(a: string, b: string, x: string, y: string)
    requires NoDash(a) && NoDash(b) && a + DASH + x == b + DASH + y
    ensures a == b && x == y
  {
    var s, r := a + DASH + x, b + DASH + y;
    assert (a == "" <==> s[0] == '-') && (b == "" <==> r[0] == '-');
    assert s[1..] == r[1..];
    if a == "" {
      assert s[1..] == x && r[1..] == y;
    } else {
      assert a[0] == s[0] && b[0] == r[0];
      assert s[1..] == a[1..] + DASH + x && r[1..] == b[1..] + DASH + y;
      FirstPart(a[1..], b[1..], x, y);
      assert a == [a[0]] + a[1..] && b == [b[0]] + b[1..];
    }
  }

  /** A number is determined by its text, whatever its sign. */
  lemma IntTextTellsApart(m: int, n: int)
    requires IntText(m) == IntText(n)
    ensures m == n
  {
    IntTextSign(m);
    IntTextSign(n);
    assert m < 0 ==> IntText(m)[1..] == Digits(-m);
    assert n < 0 ==> IntText(n)[1..] == Digits(-n);
    DigitsTellApart(if m < 0 then -m else m, if n < 0 then -n else n);
  }

  lemma IntTextSign(n: int)
    ensures IntText(n) != "" && (IntText(n)[0] == '-' <==> n < 0)
    ensures if n < 0 then NoDash(IntText(n)[1..]) else NoDash(IntText(n))
    ensures IntText(n) != "None"
  {
    DigitsMeaning(if n < 0 then -n else n);
    assert IntText(n)[0] != 'N';
  }

  /** So is a number that is followed by a dash, also when it starts with one itself. */
  lemma FirstNumber(m: int, n: int, x: string, y: string)
    requires IntText(m) + DASH + x == IntText(n) + DASH + y
    ensures m == n && x == y
  {
    IntTextSign(m);
    IntTextSign(n);
    var a, b := IntText(m), IntText(n);
    assert (a + DASH + x)[0] == a[0] && (b + DASH + y)[0] == b[0];
    if m < 0 {
      SameHead(a, b, x, y);
      FirstPart(a[1..], b[1..], x, y);
      assert a == [a[0]] + a[1..] && b == [b[0]] + b[1..];
    } else {
      FirstPart(a, b, x, y);
    }
    IntTextTellsApart(m, n);
  }

  lemma SameHead(a: string, b: string, x: string, y: string)
    requires a != "" && b != "" && a + DASH + x == b + DASH + y
    ensures a[0] == b[0] && a[1..] + DASH + x == b[1..] + DASH + y
  {
    var s, r := a + DASH + x, b + DASH + y;
    assert s[0] == a[0] && r[0] == b[0];
    assert s[1..] == a[1..] + DASH + x && r[1..] == b[1..] + DASH + y;
  }

  ghost function IntTexts(numbers: seq<int>): seq<string> {
    if numbers == [] then [] else [IntText(numbers[0])] + IntTexts(numbers[1..])
  }

  lemma {:induction false} IntTextsAt(numbers: seq<int>)
    ensures |IntTexts(numbers)| == |numbers|
    ensures forall i :: 0 <= i < |numbers| ==> IntTexts(numbers)[i] == IntText(numbers[i])
  {
    if numbers != [] {
      IntTextsAt(numbers[1..]);
    }
  }

  /** Numbers in front are told apart from each other and from what follows them. */
  lemma {:induction false} NumbersInFront(ms: seq<int>, ns: seq<int>, p: seq<string>, q: seq<string>)
    requires |ms| == |ns| > 0 && |p| == |q|
    requires Join(IntTexts(ms) + p, DASH) == Join(IntTexts(ns) + q, DASH)
    ensures ms == ns && Join(p, DASH) == Join(q, DASH)
  {
    NumberInFront(ms, p);
    NumberInFront(ns, q);
    if |ms| + |p| == 1 {
      IntTextTellsApart(ms[0], ns[0]);
    } else {
      FirstNumber(ms[0], ns[0], Join(IntTexts(ms[1..]) + p, DASH), Join(IntTexts(ns[1..]) + q, DASH));
      if |ms| > 1 {
        NumbersInFront(ms[1..], ns[1..], p, q);
      } else {
        assert IntTexts(ms[1..]) + p == p && IntTexts(ns[1..]) + q == q;
      }
    }
    assert ms == [ms[0]] + ms[1..] && ns == [ns[0]] + ns[1..];
  }

  lemma NumberInFront(ms: seq<int>, p: seq<string>)
    requires ms != []
    ensures |ms| + |p| == 1 ==> Join(IntTexts(ms) + p, DASH) == IntText(ms[0])
    ensures |ms| + |p| > 1 ==>
              Join(IntTexts(ms) + p, DASH) == IntText(ms[0]) + DASH + Join(IntTexts(ms[1..]) + p, DASH)
  {
    IntTextsAt(ms[1..]);
    var tail := IntTexts(ms[1..]) + p;
    assert IntTexts(ms) + p == [IntText(ms[0])] + tail;
    JoinOfFirst(IntText(ms[0]), tail);
  }

  lemma JoinOfFirst(first: string, tail: seq<string>)
    ensures Join([first] + tail, DASH) == if tail == [] then first else first + DASH + Join(tail, DASH)
  {
    assert ([first] + tail)[1..] == tail;
  }

  /** Texts are told apart if all but the last are free of dashes. */
  lemma {:induction false} TextsWithoutDashes(p: seq<string>, q: seq<string>)
    requires |p| == |q| && Join(p, DASH) == Join(q, DASH)
    requires forall i :: 0 <= i < |p| - 1 ==> NoDash(p[i]) && NoDash(q[i])
    ensures p == q
  {
    if |p| > 1 {
      FirstPart(p[0], q[0], Join(p[1..], DASH), Join(q[1..], DASH));
      TextsWithoutDashes(p[1..], q[1..]);
      assert p == [p[0]] + p[1..] && q == [q[0]] + q[1..];
    }
  }

  ghost predicate AllSame<T>(s: seq<T>) {
    forall i, j :: 0 <= i < j < |s| ==> s[i] == s[j]
  }

  lemma {:induction false} SameTextsLength(p: seq<string>)
    requires p != [] && AllSame(p)
    ensures |Join(p, DASH)| == |p| * |p[0]| + |p| - 1
    ensures Join(p, DASH)[..|p[0]|] == p[0]
  {
    if |p| > 1 {
      assert p[1..][0] == p[1] == p[0];
      SameTextsLength(p[1..]);
      assert |p| * |p[0]| == (|p| - 1) * |p[0]| + |p[0]|;
    }
  }

  /** So are texts that are all the same, with or without dashes. */
  lemma TextsAllSame(p: seq<string>, q: seq<string>)
    requires |p| == |q| && Join(p, DASH) == Join(q, DASH) && AllSame(p) && AllSame(q)
    ensures p == q
  {
    if p != [] {
      SameTextsLength(p);
      SameTextsLength(q);
      LongerTimes(|p|, |p[0]|, |q[0]|);
      LongerTimes(|p|, |q[0]|, |p[0]|);
      assert forall i :: 0 <= i < |p| ==> p[i] == p[0] && q[i] == q[0];
    }
  }

  lemma LongerTimes(n: nat, a: nat, b: nat)
    requires n > 0
    ensures a < b ==> n * a < n * b
  {
    assert b > a ==> n * (b - a) > 0;
  }

  /** What the toggler finds in the event's columns. */
  ghost function Columns(t: Toggler, e: Event): seq<int>
    requires HasColumns(t, e)
  {
    seq(|t.columns|, i requires 0 <= i < |t.columns| => e.columns[t.columns[i]])
  }

  /** The same, after its own number. */
  ghost function Numbers(t: Toggler, e: Event): seq<int>
    requires HasColumns(t, e)
  {
    [t.id] + Columns(t, e)
  }

  lemma ColumnsAreNumbers(t: Toggler, e: Event)
    requires HasColumns(t, e)
    ensures ColumnTexts(t, e) == IntTexts(Columns(t, e))
  {
    IntTextsAt(Columns(t, e));
  }

  lemma PartsAreNumbersAndTexts(t: Toggler, e: Event)
    requires HasColumns(t, e)
    ensures KeyParts(t, e) == IntTexts(Numbers(t, e)) + ParamTexts(t, e)
  {
    ColumnsAreNumbers(t, e);
    assert Numbers(t, e)[1..] == Columns(t, e);
  }

  /** Two events are under one key just when their columns agree, and their parameters once they are joined. */
  lemma SameKeyMeaning(t: Toggler, e: Event, e': Event)
    requires HasColumns(t, e) && HasColumns(t, e')
    ensures Key(t, e) == Key(t, e') <==>
            Numbers(t, e) == Numbers(t, e') && Join(ParamTexts(t, e), DASH) == Join(ParamTexts(t, e'), DASH)
  {
    PartsAreNumbersAndTexts(t, e);
    PartsAreNumbersAndTexts(t, e');
    if Key(t, e) == Key(t, e') {
      NumbersInFront(Numbers(t, e), Numbers(t, e'), ParamTexts(t, e), ParamTexts(t, e'));
    }
    if Numbers(t, e) == Numbers(t, e') && Join(ParamTexts(t, e), DASH) == Join(ParamTexts(t, e'), DASH) {
      FrontOfJoin(IntTexts(Numbers(t, e)), ParamTexts(t, e), ParamTexts(t, e'));
    }
  }

  lemma {:induction false} FrontOfJoin(front: seq<string>, p: seq<string>, q: seq<string>)
    requires |p| == |q| && Join(p, DASH) == Join(q, DASH)
    ensures Join(front + p, DASH) == Join(front + q, DASH)
  {
    if front == [] {
      assert front + p == p && front + q == q;
    } else {
      FrontOfJoin(front[1..], p, q);
      assert (front + p)[1..] == front[1..] + p && (front + q)[1..] == front[1..] + q;
    }
  }

  /** Events under different togglers never have the same key. */
  lemma TogglersDoNotMix(t: Toggler, e: Event, t': Toggler, e': Event)
    requires HasColumns(t, e) && HasColumns(t', e') && Key(t, e) == Key(t', e')
    ensures t.id == t'.id
  {
    var p, q := KeyParts(t, e), KeyParts(t', e');
    IntTextSign(t.id);
    IntTextSign(t'.id);
    assert |p| > 1 ==> Join(p, DASH)[|p[0]|] == '-';
    assert |q| > 1 ==> Join(q, DASH)[|q[0]|] == '-';
    if |p| > 1 {
      FirstPart(p[0], q[0], Join(p[1..], DASH), Join(q[1..], DASH));
    }
    IntTextTellsApart(t.id, t'.id);
  }

  /** The two events say the same in all that the toggler looks at. */
  ghost predicate SameSubject(t: Toggler, e: Event, e': Event)
    requires HasColumns(t, e) && HasColumns(t, e')
  {
    && (forall c :: c in t.columns ==> e.columns[c] == e'.columns[c])
    && (forall p :: p in t.changeParams ==>
          (p in e.params <==> p in e'.params) && (p in e.params ==> e.params[p] == e'.params[p]))
  }

  /** Two different values that are written alike: nothing and "None", or a number and its text. */
  ghost predicate LookAlike(a: Option<Param>, b: Option<Param>) {
    || (a == None && b == Some(Text("None")))
    || (b == None && a == Some(Text("None")))
    || (a.Some? && a.value.Number? && b == Some(Text(IntText(a.value.n))))
    || (b.Some? && b.value.Number? && a == Some(Text(IntText(b.value.n))))
  }

  lemma SameTextMeaning(a: Option<Param>, b: Option<Param>)
    ensures TextOf(a) == TextOf(b) <==> a == b || LookAlike(a, b)
  {
    if a.Some? && a.value.Number? {
      NumberTextMeaning(a.value.n, b);
    } else if b.Some? && b.value.Number? {
      NumberTextMeaning(b.value.n, a);
    }
  }

  /** What is written like a number is that number, or its text. */
  lemma NumberTextMeaning(n: int, b: Option<Param>)
    ensures IntText(n) == TextOf(b) <==> b == Some(Number(n)) || b == Some(Text(IntText(n)))
  {
    match b {
      case None => IntTextSign(n);
      case Some(Text(_)) =>
      case Some(Number(m)) =>
        if IntText(n) == IntText(m) {
          IntTextTellsApart(n, m);
        }
    }
  }

  /** The same but for parameters that are written alike. */
  ghost predicate LooksTheSame(t: Toggler, e: Event, e': Event)
    requires HasColumns(t, e) && HasColumns(t, e')
  {
    && (forall c :: c in t.columns ==> e.columns[c] == e'.columns[c])
    && (forall p :: p in t.changeParams ==> ParamOf(e, p) == ParamOf(e', p) || LookAlike(ParamOf(e, p), ParamOf(e', p)))
  }

  lemma LooksTheSameMeaning(t: Toggler, e: Event, e': Event)
    requires HasColumns(t, e) && HasColumns(t, e')
    ensures LooksTheSame(t, e, e') <==> Numbers(t, e) == Numbers(t, e') && ParamTexts(t, e) == ParamTexts(t, e')
  {
    forall p ensures TextOf(ParamOf(e, p)) == TextOf(ParamOf(e', p)) <==>
                     ParamOf(e, p) == ParamOf(e', p) || LookAlike(ParamOf(e, p), ParamOf(e', p)) {
      SameTextMeaning(ParamOf(e, p), ParamOf(e', p));
    }
    forall i | 0 <= i < |t.columns|
      ensures Numbers(t, e)[i + 1] == e.columns[t.columns[i]] && Numbers(t, e')[i + 1] == e'.columns[t.columns[i]]
    {
    }
    if Numbers(t, e) == Numbers(t, e') && ParamTexts(t, e) == ParamTexts(t, e') {
      forall c | c in t.columns ensures e.columns[c] == e'.columns[c] {
        var i :| 0 <= i < |t.columns| && t.columns[i] == c;
        assert Numbers(t, e)[i + 1] == Numbers(t, e')[i + 1];
      }
      forall p | p in t.changeParams ensures TextOf(ParamOf(e, p)) == TextOf(ParamOf(e', p)) {
        var i :| 0 <= i < |t.changeParams| && t.changeParams[i] == p;
        assert ParamTexts(t, e)[i] == ParamTexts(t, e')[i];
      }
    }
  }

  lemma SameLookSameKey(t: Toggler, e: Event, e': Event)
    requires HasColumns(t, e) && HasColumns(t, e') && LooksTheSame(t, e, e')
    ensures Key(t, e) == Key(t, e')
  {
    LooksTheSameMeaning(t, e, e');
    SameKeyMeaning(t, e, e');
  }

  /** All the parameters but the last are written without dashes. */
  ghost predicate NoDashes(t: Toggler, e: Event) {
    forall i :: 0 <= i < |t.changeParams| - 1 ==> NoDash(TextOf(ParamOf(e, t.changeParams[i])))
  }

  /** Without dashes in the parameters before the last, a key is as good as what it was made of. */
  lemma DashFreeKeysTellApart(t: Toggler, e: Event, e': Event)
    requires HasColumns(t, e) && HasColumns(t, e') && NoDashes(t, e) && NoDashes(t, e')
    ensures Key(t, e) == Key(t, e') <==> LooksTheSame(t, e, e')
  {
    SameKeyMeaning(t, e, e');
    LooksTheSameMeaning(t, e, e');
    if Key(t, e) == Key(t, e') {
      TextsWithoutDashes(ParamTexts(t, e), ParamTexts(t, e'));
    }
  }

  /** With one parameter by name at most, it always is. */
  lemma OneNameKeysTellApart(t: Toggler, e: Event, e': Event)
    requires HasColumns(t, e) && HasColumns(t, e') && AllSame(t.changeParams)
    ensures Key(t, e) == Key(t, e') <==> LooksTheSame(t, e, e')
  {
    SameKeyMeaning(t, e, e');
    LooksTheSameMeaning(t, e, e');
    if Key(t, e) == Key(t, e') {
      TextsAllSame(ParamTexts(t, e), ParamTexts(t, e'));
    }
  }

  /** Whatever two events have, one key means one subject. */
  ghost predicate TellsApart(t: Toggler) {
    forall e, e' :: HasColumns(t, e) && HasColumns(t, e') && Key(t, e) == Key(t, e') ==> SameSubject(t, e, e')
  }

  /** The event has all the parameters that the toggler looks at, and they are texts. */
  ghost predicate HasTexts(t: Toggler, e: Event) {
    forall p :: p in t.changeParams ==> p in e.params && e.params[p].Text?
  }

  /** The same, among events that have all parameters as texts. */
  ghost predicate TellsTextsApart(t: Toggler) {
    forall e, e' :: HasColumns(t, e) && HasColumns(t, e') && HasTexts(t, e) && HasTexts(t, e')
                    && Key(t, e) == Key(t, e')
      ==> SameSubject(t, e, e')
  }

  /** Keys tell all events apart just when the toggler looks at no parameters. */
  lemma TellsApartMeaning(t: Toggler)
    ensures TellsApart(t) <==> t.changeParams == []
  {
    if t.changeParams == [] {
      forall e, e' | HasColumns(t, e) && HasColumns(t, e') && Key(t, e) == Key(t, e') ensures SameSubject(t, e, e') {
        OneNameKeysTellApart(t, e, e');
      }
    } else {
      var p := t.changeParams[0];
      var e := Event(1, 1, 0, map c | c in t.columns :: 0, map[]);
      var e' := e.(params := map[p := Text("None")]);
      forall n | n in t.changeParams ensures ParamOf(e, n) == ParamOf(e', n) || LookAlike(ParamOf(e, n), ParamOf(e', n)) {
      }
      SameLookSameKey(t, e, e');
      assert ParamOf(e, p) != ParamOf(e', p);
      assert !SameSubject(t, e, e');
    }
  }

  /** Keys tell events with texts apart just when the toggler looks at one parameter at most. */
  lemma TellsTextsApartMeaning(t: Toggler)
    ensures TellsTextsApart(t) <==> AllSame(t.changeParams)
  {
    if AllSame(t.changeParams) {
      forall e, e' | HasColumns(t, e) && HasColumns(t, e') && HasTexts(t, e) && HasTexts(t, e') && Key(t, e) == Key(t, e')
        ensures SameSubject(t, e, e')
      {
        OneNameKeysTellApart(t, e, e');
      }
    } else {
      var i, j :| 0 <= i < j < |t.changeParams| && t.changeParams[i] != t.changeParams[j];
      var e, e' := TwoNamesCollide(t, t.changeParams[i], t.changeParams[j]);
      assert t.changeParams[i] in t.changeParams;
      assert !SameSubject(t, e, e');
    }
  }

  ghost function Dashes(n: nat): string {
    seq(n, i => '-')
  }

  /** How often a name occurs. */
  ghost function Count(names: seq<string>, p: string): nat {
    if names == [] then 0 else (if names[0] == p then 1 else 0) + Count(names[1..], p)
  }

  lemma {:induction false} CountMember(names: seq<string>, p: string)
    requires p in names
    ensures Count(names, p) > 0
  {
    if names[0] != p {
      CountMember(names[1..], p);
    }
  }

  /** Texts for the names: `n` dashes for the name `p`, none for all others. */
  ghost function DashedTexts(names: seq<string>, p: string, n: nat): seq<string> {
    seq(|names|, i requires 0 <= i < |names| => if names[i] == p then Dashes(n) else "")
  }

  /** How many dashes these texts have in all. */
  ghost function Total(names: seq<string>, p: string, n: nat): nat {
    if names == [] then 0 else (if names[0] == p then n else 0) + Total(names[1..], p, n)
  }

  lemma {:induction false} TotalIsTimes(names: seq<string>, p: string, n: nat)
    ensures Total(names, p, n) == Count(names, p) * n
  {
    if names != [] {
      TotalIsTimes(names[1..], p, n);
    }
  }

  /** Dashes joined by dashes are dashes. */
  lemma {:induction false} JoinOfDashes(names: seq<string>, p: string, n: nat)
    requires names != []
    ensures Join(DashedTexts(names, p, n), DASH) == Dashes(Total(names, p, n) + |names| - 1)
  {
    var texts := DashedTexts(names, p, n);
    assert texts[0] == if names[0] == p then Dashes(n) else "";
    if |names| == 1 {
      assert Total(names[1..], p, n) == 0;
    } else {
      JoinOfDashes(names[1..], p, n);
      assert texts[1..] == DashedTexts(names[1..], p, n);
    }
  }

  /** Any toggler that looks at two different parameters can take two subjects for one. */
  lemma TwoNamesCollide(t: Toggler, p: string, q: string) returns (e: Event, e': Event)
    requires p in t.changeParams && q in t.changeParams && p != q
    ensures HasColumns(t, e) && HasColumns(t, e') && HasTexts(t, e) && HasTexts(t, e')
    ensures Key(t, e) == Key(t, e')
    ensures ParamOf(e, p) != ParamOf(e', p) && ParamOf(e, q) != ParamOf(e', q)
  {
    var m, n := Count(t.changeParams, p), Count(t.changeParams, q);
    CountMember(t.changeParams, p);
    CountMember(t.changeParams, q);
    e, e' := DashedEvent(t, p, n), DashedEvent(t, q, m);
    DashedEventTexts(t, p, n);
    DashedEventTexts(t, q, m);
    DashedKeysAgree(t.changeParams, p, q);
    SameKeyMeaning(t, e, e');
    DashesDiffer(n);
    DashesDiffer(m);
    assert ParamOf(e, q) == Some(Text("")) == ParamOf(e', p);
  }

  /** As many dashes for each of the one name as there are of the other make the same text. */
  lemma DashedKeysAgree(names: seq<string>, p: string, q: string)
    requires names != []
    ensures Join(DashedTexts(names, p, Count(names, q)), DASH) == Join(DashedTexts(names, q, Count(names, p)), DASH)
  {
    var m, n := Count(names, p), Count(names, q);
    JoinOfDashes(names, p, n);
    JoinOfDashes(names, q, m);
    TotalIsTimes(names, p, n);
    TotalIsTimes(names, q, m);
    assert m * n == n * m;
  }

  lemma DashesDiffer(n: nat)
    ensures n > 0 ==> Dashes(n) != ""
  {
    assert |Dashes(n)| == n;
  }

  /** An event with `n` dashes for the parameter `p` and empty texts for the others. */
  ghost function DashedEvent(t: Toggler, p: string, n: nat): Event {
    Event(1, 1, 0, map c | c in t.columns :: 0,
          map a | a in t.changeParams :: Text(if a == p then Dashes(n) else ""))
  }

  lemma DashedEventTexts(t: Toggler, p: string, n: nat)
    ensures HasColumns(t, DashedEvent(t, p, n)) && HasTexts(t, DashedEvent(t, p, n))
    ensures ParamTexts(t, DashedEvent(t, p, n)) == DashedTexts(t.changeParams, p, n)
    ensures Numbers(t, DashedEvent(t, p, n)) == [t.id] + seq(|t.columns|, i => 0)
  {
    var e := DashedEvent(t, p, n);
    forall i | 0 <= i < |t.changeParams|
      ensures TextOf(ParamOf(e, t.changeParams[i])) == DashedTexts(t.changeParams, p, n)[i]
    {
      assert t.changeParams[i] in t.changeParams;
    }
  }
}
