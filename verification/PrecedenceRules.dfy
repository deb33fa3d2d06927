/**
 How the precedence of a person affiliation is chosen: a configured tree of
 rules with wildcards, and an allocator that looks for a free slot in a range.
 */
module PrecedenceRules {
  import opened Wrappers
  import opened Sets
  import opened SlotRuns

  /** What a caller or a rule may say about a precedence. */
  datatype Setting =
    | Exact(slot: int)
    | Name(name: string)
    | Path(names: seq<string>)
    | Range(min: int, max: int, step: Option<int>)

  datatype Rule = Leaf(setting: Setting) | Node(entries: map<string, Rule>)

  datatype Config = Config(rules: Rule, override: Option<(int, int)>)

  datatype Failure =
    | RecursionLimit
    | BadSetting
    | NeverEnds  // not an exception: the search for a free slot loops

  /** Where a row should go: on a known slot, or on one still to be found. */
  datatype Target = At(slot: int) | FindIn(min: int, max: int, step: int)

  const ANY := "*"
  const DEFAULT_STEP := 5

  function Search(rule: Rule, keys: seq<string>): Option<Rule>
    requires keys != []
  {
    if rule.Leaf? then
      Some(rule)
    else if |keys| == 1 then
      if keys[0] in rule.entries then Some(rule.entries[keys[0]])
      else if ANY in rule.entries then Some(rule.entries[ANY])
      else None
    else
      var res := if keys[0] in rule.entries then Search(rule.entries[keys[0]], keys[1..]) else None;
      if res.Some? then res
      else if ANY in rule.entries then Search(rule.entries[ANY], keys[1..])
      else None
  }

  /** Plain lookup along a path; a leaf met on the way answers for all below it. */
  ghost function Follow(rule: Rule, path: seq<string>): Option<Rule> {
    if rule.Leaf? || path == [] then Some(rule)
    else if path[0] in rule.entries then Follow(rule.entries[path[0]], path[1..])
    else None
  }

  /** `path` is `keys` with some of the keys replaced by the wildcard. */
  ghost predicate Generalises(path: seq<string>, keys: seq<string>) {
    |path| == |keys| && forall i :: 0 <= i < |keys| ==> path[i] == keys[i] || path[i] == "*"
  }

  /** At the first place where the paths differ, `a` has the key and `b` the wildcard. */
  ghost predicate MoreSpecific(a: seq<string>, b: seq<string>) {
    exists i :: 0 <= i < |a| && i < |b| && a[..i] == b[..i] && a[i] != "*" && b[i] == "*"
  }

  /**
   The answer is the one of the most specific generalisation of the keys that
   has an answer; there is no answer only if no generalisation has one.
   */
  lemma {:induction false} SearchIsMostSpecific(rule: Rule, keys: seq<string>) returns (path: seq<string>)
    requires keys != []
    ensures Generalises(path, keys)
    ensures Search(rule, keys) == Follow(rule, path)
    ensures forall p :: Generalises(p, keys) && Follow(rule, p).Some? ==>
              Follow(rule, path).Some? && (Follow(rule, p) == Follow(rule, path) || MoreSpecific(path, p))
    decreases |keys|, 1
  {
    path := keys;
    if rule.Leaf? {
      return;
    }
    var exact: Option<Rule> := None;
    if keys[0] in rule.entries {
      exact, path := SearchBelow(rule, keys, keys[0]);
    }
    if exact.None? && ANY in rule.entries {
      var res, wild := SearchBelow(rule, keys, ANY);
      path := if keys[0] in rule.entries && res.None? then path else wild;
    }
    forall p | Generalises(p, keys) && Follow(rule, p).Some?
      ensures Follow(rule, path).Some? && (Follow(rule, p) == Follow(rule, path) || MoreSpecific(path, p))
    {
      assert Generalises(p[1..], keys[1..]);
      if p[0] != path[0] && exact.Some? {
        assert path[..0] == p[..0];
      }
    }
  }

  /** The same, one level down: everything that starts with the entry `first`. */
  lemma {:induction false} SearchBelow(rule: Rule, keys: seq<string>, first: string)
    returns (res: Option<Rule>, path: seq<string>)
    requires rule.Node? && keys != [] && first in rule.entries && (first == keys[0] || first == ANY)
    ensures res == if |keys| == 1 then Some(rule.entries[first]) else Search(rule.entries[first], keys[1..])
    ensures Generalises(path, keys) && path[0] == first && Follow(rule, path) == res
    ensures forall p :: Generalises(p, keys) && p[0] == first && Follow(rule, p).Some? ==>
              res.Some? && (Follow(rule, p) == res || MoreSpecific(path, p))
    decreases |keys|, 0
  {
    var below := rule.entries[first];
    if |keys| == 1 {
      res, path := Some(below), [first];
    } else {
      var rest := SearchIsMostSpecific(below, keys[1..]);
      res, path := Search(below, keys[1..]), [first] + rest;
      assert path[1..] == rest;
      forall p | Generalises(p, keys) && p[0] == first && Follow(rule, p).Some?
        ensures res.Some? && (Follow(rule, p) == res || MoreSpecific(path, p))
      {
        assert Generalises(p[1..], keys[1..]);
        if Follow(rule, p) != res {
          var i :| 0 <= i < |rest| && rest[..i] == p[1..][..i] && rest[i] != ANY && p[1..][i] == ANY;
          assert path[..i + 1] == [first] + rest[..i] && p[..i + 1] == [first] + p[1..][..i];
          assert path[i + 1] != ANY && p[i + 1] == ANY;
        }
      }
    }
  }

  /** The slot the search starts from: the highest taken one in the range, else its minimum. */
  ghost predicate IsBase(taken: set<int>, mn: int, mx: int, base: int) {
    && mn <= base && (base == mn || (base in taken && base < mx))
    && forall t :: t in taken && mn <= t < mx ==> t <= base
  }

  /** The first free slot at `base`, `base + step`, `base + 2 * step`, ... */
  ghost predicate FirstOnStride(taken: set<int>, base: int, step: int, x: int) {
    && x !in taken
    && exists n: nat :: OnStride(taken, base, step, n, x)
  }

  ghost predicate OnStride(taken: set<int>, base: int, step: int, n: nat, x: int) {
    x == base + n * step && forall j :: 0 <= j < n ==> base + j * step in taken
  }

  /** The search for a slot in the range starts from a taken one and stays there. */
  ghost predicate StandsStill(taken: set<int>, mn: int, mx: int, step: int) {
    step == 0 && exists base :: IsBase(taken, mn, mx, base) && base in taken
  }

  /** `x` is the slot that the allocator picks in the range. */
  ghost predicate Allocated(taken: set<int>, mn: int, mx: int, step: int, x: int) {
    exists base :: IsBase(taken, mn, mx, base) && FirstOnStride(taken, base, step, x)
  }

  /** What comes of asking for a precedence. */
  datatype Outcome = Given(slot: int) | Refused(error: Failure)

  /** What is at the most specific generalisation of the keys at which there is anything; None if there is none. */
  ghost predicate Found(rules: Rule, keys: seq<string>, r: Option<Rule>) {
    exists path :: AtMostSpecific(rules, keys, path, r)
  }

  ghost predicate AtMostSpecific(rules: Rule, keys: seq<string>, path: seq<string>, r: Option<Rule>) {
    && Generalises(path, keys) && r == Follow(rules, path)
    && forall p :: Generalises(p, keys) && Follow(rules, p).Some? ==>
         r.Some? && (Follow(rules, p) == r || MoreSpecific(path, p))
  }

  lemma NotBothMoreSpecific(a: seq<string>, b: seq<string>)
    requires MoreSpecific(a, b)
    ensures !MoreSpecific(b, a)
  {
    var i :| 0 <= i < |a| && i < |b| && a[..i] == b[..i] && a[i] != "*" && b[i] == "*";
    forall j | 0 <= j < i ensures a[j] == b[j] {
      assert a[..i][j] == b[..i][j];
    }
    forall j | i < j < |a| && j < |b| ensures a[..j] != b[..j] {
      assert a[..j][i] != b[..j][i];
    }
  }

  /** The recursive search finds just that. */
  lemma FoundIsSearched(rules: Rule, keys: seq<string>, r: Option<Rule>)
    requires keys != []
    ensures Found(rules, keys, r) <==> r == Search(rules, keys)
  {
    var path := SearchIsMostSpecific(rules, keys);
    assert AtMostSpecific(rules, keys, path, Search(rules, keys));
    forall p | AtMostSpecific(rules, keys, p, r) ensures r == Search(rules, keys) {
      if MoreSpecific(p, path) {
        NotBothMoreSpecific(p, path);
      }
    }
  }

  /**
   What asking for a precedence comes to, for an affiliation of a source that
   has the precedence `cur`, or none, when the slots `taken` are.
   */
  ghost predicate Gives(cfg: Config, source: string, affiliation: string, status: string, asked: Option<Setting>,
                        cur: Option<int>, taken: set<int>, depth: nat, o: Outcome)
    decreases depth, 1
  {
    if depth == 0 then o == Refused(RecursionLimit)
    else match asked
      case None =>
        if cur.Some? && cur.value != 0 then o == Given(cur.value)
        else GivenByRule(cfg, source, affiliation, status, [source, affiliation, status], cur, taken, depth, o)
      case Some(Exact(slot)) => o == Given(slot)
      case Some(Name(name)) =>
        GivenByRule(cfg, source, affiliation, status, [source, name], cur, taken, depth, o)
      case Some(Path(names)) =>
        if |names| != 2 then o == Refused(BadSetting)
        else GivenByRule(cfg, source, affiliation, status, [source, names[0], names[1]], cur, taken, depth, o)
      case Some(Range(mn, mx, step)) => GivenInRange(cfg.override, mn, mx, step, cur, taken, o)
  }

  /** The setting found for the keys is asked for; finding none is asking for nothing. */
  ghost predicate GivenByRule(cfg: Config, source: string, affiliation: string, status: string, keys: seq<string>,
                              cur: Option<int>, taken: set<int>, depth: nat, o: Outcome)
    requires depth > 0
    decreases depth, 0
  {
    exists r :: Found(cfg.rules, keys, r) &&
      match r
      case None => Gives(cfg, source, affiliation, status, None, cur, taken, depth - 1, o)
      case Some(Leaf(setting)) => Gives(cfg, source, affiliation, status, Some(setting), cur, taken, depth - 1, o)
      case Some(Node(_)) => o == Refused(BadSetting)
  }

  /** In the range, or in the override range, a precedence other than 0 is kept; else a slot is looked for. */
  ghost predicate GivenInRange(override: Option<(int, int)>, mn: int, mx: int, step: Option<int>,
                               cur: Option<int>, taken: set<int>, o: Outcome)
  {
    if mn == mx then o == Given(mn)
    else if MayKeep(override, mn, mx, cur) then o == Given(cur.value)
    else
      var stride := if step.Some? then step.value else 5;
      (o.Given? && Allocated(taken, mn, mx, stride, o.slot)) || (o == Refused(NeverEnds) && StandsStill(taken, mn, mx, stride))
  }

  ghost predicate MayKeep(override: Option<(int, int)>, mn: int, mx: int, cur: Option<int>) {
    && cur.Some? && cur.value != 0
    && (mn <= cur.value < mx || (override.Some? && override.value.0 <= cur.value < override.value.1))
  }

  /** What the caller asks for, in the terms the rules are written in. */
  datatype Request = Request(source: string, affiliation: string, status: string, setting: Option<Setting>)

  /** A precedence of 0 counts as having none. */
  predicate Truthy(cur: Option<int>) {
    cur.Some? && cur.value != 0
  }

  predicate InOverride(cfg: Config, p: int) {
    cfg.override.Some? && cfg.override.value.0 <= p < cfg.override.value.1
  }

  /** The setting the rules have for these names, if any. */
  function LookUp(cfg: Config, source: string, names: seq<string>): Result<Option<Setting>, Failure> {
    match Search(cfg.rules, [source] + names)
    case None => Ok(None)
    case Some(Leaf(s)) => Ok(Some(s))
    case Some(Node(_)) => Err(BadSetting)
  }

  /** `depth` is how many nested calls the interpreter still allows. */
  function Resolve(cfg: Config, req: Request, cur: Option<int>, depth: nat): Result<Target, Failure>
    decreases depth, 1
  {
    if depth == 0 then
      Err(RecursionLimit)
    else
      match req.setting
      case None =>
        if Truthy(cur) then Ok(At(cur.value))
        else ResolveNext(cfg, req, [req.affiliation, req.status], cur, depth)
      case Some(Exact(slot)) => Ok(At(slot))
      case Some(Name(name)) => ResolveNext(cfg, req, [name], cur, depth)
      case Some(Path(names)) =>
        if |names| == 2 then ResolveNext(cfg, req, names, cur, depth) else Err(BadSetting)
      case Some(Range(mn, mx, step)) =>
        if mn == mx then Ok(At(mn))
        else if Truthy(cur) && (mn <= cur.value < mx || InOverride(cfg, cur.value)) then Ok(At(cur.value))
        else Ok(FindIn(mn, mx, if step.Some? then step.value else DEFAULT_STEP))
  }

  function ResolveNext(cfg: Config, req: Request, names: seq<string>, cur: Option<int>, depth: nat)
    : Result<Target, Failure>
    requires depth > 0
    decreases depth, 0
  {
    match LookUp(cfg, req.source, names)
    case Err(e) => Err(e)
    case Ok(setting) => Resolve(cfg, req.(setting := setting), cur, depth - 1)
  }

  /** What a target comes to. */
  ghost predicate ComesTo(r: Result<Target, Failure>, taken: set<int>, o: Outcome) {
    match r
    case Err(e) => o == Refused(e)
    case Ok(At(slot)) => o == Given(slot)
    case Ok(FindIn(mn, mx, step)) =>
      (o.Given? && Allocated(taken, mn, mx, step, o.slot)) || (o == Refused(NeverEnds) && StandsStill(taken, mn, mx, step))
  }

  /**
   What the affiliation gets when a slot or a range is asked for: the slot, or the
   one slot of the range; the precedence it has, if that is not 0 and in the range
   or the override range, and only then; else one that is looked for in the range.
   */
  ghost predicate AsAsked(override: Option<(int, int)>, setting: Setting, cur: Option<int>, taken: set<int>, p: int) {
    match setting
    case Exact(slot) => p == slot
    case Range(mn, mx, step) =>
      if mn == mx then p == mn
      else
        && (cur.Some? ==> (p == cur.value <==> MayKeep(override, mn, mx, cur)))
        && (!MayKeep(override, mn, mx, cur) ==> Allocated(taken, mn, mx, if step.Some? then step.value else 5, p))
    case _ => true
  }

  lemma OnlyOneOutcome(r: Result<Target, Failure>, taken: set<int>, o: Outcome, o': Outcome)
    requires ComesTo(r, taken, o) && ComesTo(r, taken, o')
    ensures o == o'
  {
    if r.Ok? && r.value.FindIn? {
      var (mn, mx, step) := (r.value.min, r.value.max, r.value.step);
      if o.Given? && o'.Given? {
        AllocatedOnce(taken, mn, mx, step, o.slot, o'.slot);
      } else if o.Given? {
        GivenOrStill(taken, mn, mx, step, o.slot);
      } else if o'.Given? {
        GivenOrStill(taken, mn, mx, step, o'.slot);
      }
    }
  }

  lemma AllocatedOnce(taken: set<int>, mn: int, mx: int, step: int, x: int, y: int)
    requires Allocated(taken, mn, mx, step, x) && Allocated(taken, mn, mx, step, y)
    ensures x == y
  {
    var base :| IsBase(taken, mn, mx, base) && FirstOnStride(taken, base, step, x);
    var base' :| IsBase(taken, mn, mx, base') && FirstOnStride(taken, base', step, y);
    assert base == base';
    var m: nat :| OnStride(taken, base, step, m, x);
    var n: nat :| OnStride(taken, base, step, n, y);
    assert m < n ==> base + m * step in taken;
    assert n < m ==> base + n * step in taken;
  }

  lemma GivenOrStill(taken: set<int>, mn: int, mx: int, step: int, x: int)
    requires Allocated(taken, mn, mx, step, x)
    ensures !StandsStill(taken, mn, mx, step)
  {
    var base :| IsBase(taken, mn, mx, base) && FirstOnStride(taken, base, step, x);
    var n: nat :| OnStride(taken, base, step, n, x);
    assert step == 0 ==> x == base;
    assert forall b :: IsBase(taken, mn, mx, b) ==> b == base;
  }

  /** The recursion does what asking is to come to. */
  lemma {:induction false} ResolveGives(cfg: Config, req: Request, cur: Option<int>, taken: set<int>, depth: nat, o: Outcome)
    ensures Gives(cfg, req.source, req.affiliation, req.status, req.setting, cur, taken, depth, o) <==>
            ComesTo(Resolve(cfg, req, cur, depth), taken, o)
    decreases depth
  {
    if depth > 0 {
      match req.setting {
        case None =>
          assert [req.source] + [req.affiliation, req.status] == [req.source, req.affiliation, req.status];
          ResolveNextGives(cfg, req, [req.affiliation, req.status], cur, taken, depth, o);
        case Some(Name(name)) =>
          assert [req.source] + [name] == [req.source, name];
          ResolveNextGives(cfg, req, [name], cur, taken, depth, o);
        case Some(Path(names)) =>
          if |names| == 2 {
            assert [req.source] + names == [req.source, names[0], names[1]];
            ResolveNextGives(cfg, req, names, cur, taken, depth, o);
          }
        case Some(_) =>
      }
    }
  }

  lemma {:induction false} ResolveNextGives(cfg: Config, req: Request, names: seq<string>, cur: Option<int>,
                                            taken: set<int>, depth: nat, o: Outcome)
    requires depth > 0
    ensures GivenByRule(cfg, req.source, req.affiliation, req.status, [req.source] + names, cur, taken, depth, o) <==>
            ComesTo(ResolveNext(cfg, req, names, cur, depth), taken, o)
    decreases depth, 0
  {
    var keys := [req.source] + names;
    forall r ensures Found(cfg.rules, keys, r) <==> r == Search(cfg.rules, keys) {
      FoundIsSearched(cfg.rules, keys, r);
    }
    assert Found(cfg.rules, keys, Search(cfg.rules, keys));
    var next := LookUp(cfg, req.source, names);
    if next.Ok? {
      ResolveGives(cfg, req.(setting := next.value), cur, taken, depth - 1, o);
    }
  }

  /** Once the recursion ends by itself, more stack changes nothing. */
  lemma {:induction false} MoreDepthSameAnswer(cfg: Config, req: Request, cur: Option<int>, depth: nat)
    requires Resolve(cfg, req, cur, depth) != Err(RecursionLimit)
    ensures Resolve(cfg, req, cur, depth + 1) == Resolve(cfg, req, cur, depth)
    decreases depth
  {
    var names := match req.setting
      case None => [req.affiliation, req.status]
      case Some(Name(name)) => [name]
      case Some(Path(names)) => names
      case Some(_) => [];
    var next := LookUp(cfg, req.source, names);
    if next.Ok? && (req.setting.None? ==> !Truthy(cur)) && (req.setting.Some? ==> !req.setting.value.Range?) {
      var req' := req.(setting := next.value);
      if Resolve(cfg, req', cur, depth - 1) != Err(RecursionLimit) {
        MoreDepthSameAnswer(cfg, req', cur, depth - 1);
      }
    }
  }

  /** With nothing asked for, nothing to keep and no rule, no amount of stack is enough. */
  lemma {:induction false} NoRuleNeverResolves(cfg: Config, req: Request, cur: Option<int>, depth: nat)
    requires req.setting.None? && !Truthy(cur)
    requires LookUp(cfg, req.source, [req.affiliation, req.status]) == Ok(None)
    ensures Resolve(cfg, req, cur, depth) == Err(RecursionLimit)
    decreases depth
  {
    if depth > 0 {
      NoRuleNeverResolves(cfg, req, cur, depth - 1);
    }
  }

  /** A new slot is looked for only in a real range, and only when the old slot may not be kept. */
  lemma {:induction false} NewSlotOnlyWhenNeeded(cfg: Config, req: Request, cur: Option<int>, depth: nat)
    requires var r := Resolve(cfg, req, cur, depth); r.Ok? && r.value.FindIn?
    ensures var t := Resolve(cfg, req, cur, depth).value;
            && t.min != t.max
            && (Truthy(cur) ==> !(t.min <= cur.value < t.max) && !InOverride(cfg, cur.value))
    decreases depth
  {
    var names := match req.setting
      case None => [req.affiliation, req.status]
      case Some(Name(name)) => [name]
      case Some(Path(names)) => names
      case Some(_) => [];
    if req.setting.None? || !req.setting.value.Range? {
      NewSlotOnlyWhenNeeded(cfg, req.(setting := LookUp(cfg, req.source, names).value), cur, depth - 1);
    }
  }

  /** A row with precedence 0 is given a new one as if it had none. */
  lemma {:induction false} ZeroIsNoPrecedence(cfg: Config, req: Request, depth: nat)
    ensures Resolve(cfg, req, Some(0), depth) == Resolve(cfg, req, None, depth)
    decreases depth
  {
    if depth > 0 && (req.setting.None? || !req.setting.value.Range?) {
      var names := match req.setting
        case None => [req.affiliation, req.status]
        case Some(Name(name)) => [name]
        case Some(Path(names)) => names
        case Some(_) => [];
      var next := LookUp(cfg, req.source, names);
      if next.Ok? {
        ZeroIsNoPrecedence(cfg, req.(setting := next.value), depth - 1);
      }
    }
  }

  /**
   A row for which nothing is asked is sent to the precedence it has just when
   that is not 0, or is what the rules would choose for a row that has none.
   */
  lemma KeptUnlessZero(cfg: Config, req: Request, p: int, depth: nat)
    requires req.setting.None? && depth > 0
    ensures Resolve(cfg, req, Some(p), depth) == Ok(At(p)) <==>
            p != 0 || Resolve(cfg, req, None, depth) == Ok(At(0))
  {
    ZeroIsNoPrecedence(cfg, req, depth);
  }

  /** Where the rules send a row that has no precedence, they do not fail for one that has. */
  lemma {:induction false} RowlessIsHardest(cfg: Config, req: Request, cur: Option<int>, depth: nat)
    requires Resolve(cfg, req, None, depth).Ok?
    ensures Resolve(cfg, req, cur, depth).Ok?
    ensures var r := Resolve(cfg, req, cur, depth).value; r.FindIn? ==> r == Resolve(cfg, req, None, depth).value
    decreases depth
  {
    var names := match req.setting
      case None => [req.affiliation, req.status]
      case Some(Name(name)) => [name]
      case Some(Path(names)) => names
      case Some(_) => [];
    if (req.setting.None? && !Truthy(cur)) || (req.setting.Some? && !req.setting.value.Range? && !req.setting.value.Exact?) {
      RowlessIsHardest(cfg, req.(setting := LookUp(cfg, req.source, names).value), cur, depth - 1);
    }
  }

  /** The slots a search that has come to `x` can still run into. */
  ghost function Ahead(taken: set<int>, x: int, up: bool): set<int> {
    if up then AtOrAbove(taken, x) else set t | t in taken && t <= x
  }

  /** Fails, by never returning, just when a step of 0 is to leave a taken slot. */
  method Allocate(taken: set<int>, mn: int, mx: int, step: int) returns (r: Result<int, Failure>)
    ensures r.Ok? ==> Allocated(taken, mn, mx, step, r.value)
    ensures r.Err? ==> r.error == NeverEnds
    ensures r.Err? <==> StandsStill(taken, mn, mx, step)
  {
    var x := mn;
    var unread := taken;
    while unread != {}
      invariant unread <= taken
      invariant mn <= x && (x == mn || (x in taken && x < mx))
      invariant forall t :: t in taken && t !in unread && mn <= t < mx ==> t <= x
    {
      ghost var _ := HasMember(unread);
      var t :| t in unread;
      if mn <= t < mx && x < t {
        x := t;
      }
      unread := unread - {t};
    }
    ghost var base, n: nat := x, 0;
    assert IsBase(taken, mn, mx, base);
    if step == 0 && x in taken {
      return Err(NeverEnds);
    }
    while x in taken
      invariant OnStride(taken, base, step, n, x)
      invariant step == 0 ==> x !in taken
      decreases Ahead(taken, x, step > 0)
    {
      assert x in Ahead(taken, x, step > 0) && x !in Ahead(taken, x + step, step > 0);
      x := x + step;
      n := n + 1;
    }
    assert FirstOnStride(taken, base, step, x);
    assert step == 0 ==> forall b :: IsBase(taken, mn, mx, b) ==> b == base;
    r := Ok(x);
  }

  /** `n` taken slots on the stride are `n` different taken slots. */
  lemma {:induction false} StrideIsBounded(taken: set<int>, base: int, step: int, n: nat)
    requires step != 0
    requires forall j :: 0 <= j < n ==> base + j * step in taken
    ensures n <= |Ahead(taken, base, step > 0)|
    decreases n
  {
    if n > 0 {
      assert base + 0 * step in taken;
      forall j | 0 <= j < n - 1 ensures (base + step) + j * step in taken {
        assert (base + step) + j * step == base + (j + 1) * step;
        assert base + (j + 1) * step in taken;
      }
      StrideIsBounded(taken, base + step, step, n - 1);
      assert base in Ahead(taken, base, step > 0);
      assert Ahead(taken, base + step, step > 0) <= Ahead(taken, base, step > 0) - {base};
      SubsetSize(Ahead(taken, base + step, step > 0), Ahead(taken, base, step > 0) - {base});
    }
  }

  /**
   The picked slot is free and not far from its base.  A step upwards leads above
   all taken slots of the range, and out of it only from a taken base less than a
   step below its top; a step downwards leads below the highest taken one.
   */
  lemma AllocatedSlot(taken: set<int>, mn: int, mx: int, step: int, x: int) returns (base: int)
    requires Allocated(taken, mn, mx, step, x)
    ensures IsBase(taken, mn, mx, base)
    ensures x !in taken && (x == base <==> base !in taken)
    ensures step > 0 ==>
              && (forall t :: t in taken && mn <= t < mx ==> t < x)
              && mn <= x <= base + step * |Ahead(taken, base, true)|
              && (x < mx <==> if base in taken then base + step < mx else mn < mx)
    ensures step < 0 ==> base + step * |Ahead(taken, base, false)| <= x <= base
    ensures step == 0 ==> x == mn
  {
    base :| IsBase(taken, mn, mx, base) && FirstOnStride(taken, base, step, x);
    var n: nat :| OnStride(taken, base, step, n, x);
    assert n > 0 ==> base + 0 * step in taken;
    if step > 0 {
      StrideIsBounded(taken, base, step, n);
      StrideSteps(taken, base, step, n, x, |Ahead(taken, base, true)|);
    } else if step < 0 {
      StrideIsBounded(taken, base, step, n);
      StrideDown(base, step, n, x, |Ahead(taken, base, false)|);
    }
  }

  lemma StrideDown(base: int, step: int, n: nat, x: int, most: nat)
    requires step < 0 && n <= most && x == base + n * step
    ensures base + step * most <= x <= base
    ensures n > 0 ==> x < base
  {
    assert 0 <= (most - n) * -step && 0 <= n * -step;
    assert n > 0 ==> (n - 1) * -step >= 0;
  }

  lemma StrideSteps(taken: set<int>, base: int, step: int, n: nat, x: int, most: nat)
    requires step > 0 && n <= most && x !in taken && OnStride(taken, base, step, n, x)
    ensures base <= x <= base + step * most
    ensures n == 0 <==> base !in taken
    ensures n == 0 ==> x == base
    ensures n == 1 ==> x == base + step
    ensures n > 1 ==> base + step in taken && base + step <= x
  {
    assert 0 <= (most - n) * step && 0 <= n * step;
    assert n > 0 ==> base + 0 * step in taken;
    if n > 1 {
      assert base + 1 * step in taken;
      assert 0 <= (n - 1) * step;
    }
  }
}
