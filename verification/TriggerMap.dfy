/** The map from change types to togglers that log cleaning works by, as built from its configuration. */
module TriggerMap {
  import opened Wrappers
  import opened ChangeLogCleaner

  /** A configured rule; its triggers are change types by name. */
  datatype Rule = Rule(triggers: seq<string>, togglable: bool, columns: seq<string>, changeParams: seq<string>)

  /** A trigger, by the rule that has it and by its place in that rule. */
  datatype Place = Place(rule: nat, trigger: nat)

  function EntryOf(rule: Rule, id: nat): Option<Toggler> {
    if rule.togglable then Some(Toggler(id, rule.columns, rule.changeParams)) else None
  }

  predicate Accepted(rule: Rule, codes: map<string, int>) {
    forall t :: t in rule.triggers ==> t in codes
  }

  /** The trigger at the place stands for the change type; a rule with an unknown trigger has none. */
  ghost predicate Triggers(rules: seq<Rule>, codes: map<string, int>, p: Place, changeType: int) {
    && p.rule < |rules| && p.trigger < |rules[p.rule].triggers|
    && (forall i :: 0 <= i < |rules[p.rule].triggers| ==> rules[p.rule].triggers[i] in codes)
    && codes[rules[p.rule].triggers[p.trigger]] == changeType
  }

  /** What the change type is bound to: nothing, or what the rule says, under the rule's own number. */
  ghost predicate BoundTo(m: map<int, Option<Toggler>>, changeType: int, rule: Rule, id: nat) {
    && changeType in m
    && (m[changeType].None? <==> !rule.togglable)
    && (m[changeType].Some? ==>
          var t := m[changeType].value;
          t.id == id && t.columns == rule.columns && t.changeParams == rule.changeParams)
  }

  /** Two triggers stand for the same change type. */
  ghost predicate Ambiguous(rules: seq<Rule>, codes: map<string, int>) {
    exists p, q, t :: p != q && Triggers(rules, codes, p, t) && Triggers(rules, codes, q, t)
  }

  /** The place is in one of the first `n` rules, or among the first `i` triggers of the next one. */
  ghost predicate Before(p: Place, n: nat, i: nat) {
    p.rule < n || (p.rule == n && p.trigger < i)
  }

  /** The map has just the bindings of the triggers before a place, each of a type of its own. */
  ghost predicate Built(rules: seq<Rule>, codes: map<string, int>, m: map<int, Option<Toggler>>, n: nat, i: nat) {
    && (forall p, t :: Triggers(rules, codes, p, t) && Before(p, n, i) ==> BoundTo(m, t, rules[p.rule], p.rule))
    && (forall t :: t in m ==> exists p :: Triggers(rules, codes, p, t) && Before(p, n, i))
    && (forall p, q, t ::
          Triggers(rules, codes, p, t) && Triggers(rules, codes, q, t) && Before(p, n, i) && Before(q, n, i) ==> p == q)
  }

  /** One more trigger: its type is new to the map, or ambiguous. */
  lemma BuiltOneMore(rules: seq<Rule>, codes: map<string, int>, m: map<int, Option<Toggler>>, n: nat, i: nat, t: int)
    requires Built(rules, codes, m, n, i) && Triggers(rules, codes, Place(n, i), t)
    ensures t in m ==> Ambiguous(rules, codes)
    ensures t !in m ==> Built(rules, codes, m[t := EntryOf(rules[n], n)], n, i + 1)
  {
    forall p | Before(p, n, i + 1) ensures Before(p, n, i) || p == Place(n, i) {
    }
    if t in m {
      var p :| Triggers(rules, codes, p, t) && Before(p, n, i);
      assert p != Place(n, i);
    } else {
      forall p | Triggers(rules, codes, p, t) && Before(p, n, i + 1) ensures p == Place(n, i) {
      }
      var more := m[t := EntryOf(rules[n], n)];
      forall u | u in more ensures exists p :: Triggers(rules, codes, p, u) && Before(p, n, i + 1) {
        if u == t {
          assert Before(Place(n, i), n, i + 1);
        } else {
          var p :| Triggers(rules, codes, p, u) && Before(p, n, i);
          assert Before(p, n, i + 1);
        }
      }
    }
  }

  /** After its last trigger, or without any that counts, a rule is done. */
  lemma RuleDone(rules: seq<Rule>, codes: map<string, int>, m: map<int, Option<Toggler>>, n: nat, i: nat)
    requires Built(rules, codes, m, n, i) && n < |rules|
    requires Accepted(rules[n], codes) ==> i == |rules[n].triggers|
    ensures Built(rules, codes, m, n + 1, 0)
  {
    forall p, t | Triggers(rules, codes, p, t) ensures Before(p, n, i) <==> Before(p, n + 1, 0) {
      if p.rule == n {
        assert forall x :: x in rules[n].triggers ==> x in codes;
      }
    }
  }

  /** Bind the triggers of one rule, if it is accepted; fails when one of them is bound already. */
  method AddRule(triggerMap: map<int, Option<Toggler>>, rules: seq<Rule>, id: nat, codes: map<string, int>)
    returns (r: Option<map<int, Option<Toggler>>>)
    requires id < |rules| && Built(rules, codes, triggerMap, id, 0)
    ensures if r.Some? then Built(rules, codes, r.value, id + 1, 0) else Ambiguous(rules, codes)
  {
    var data, m := rules[id], triggerMap;
    if !Accepted(data, codes) {
      RuleDone(rules, codes, m, id, 0);
      return Some(m);
    }
    for i := 0 to |data.triggers|
      invariant Built(rules, codes, m, id, i)
    {
      var trigger := codes[data.triggers[i]];
      BuiltOneMore(rules, codes, m, id, i, trigger);
      if trigger in m {
        return None;
      }
      m := m[trigger := EntryOf(data, id)];
    }
    RuleDone(rules, codes, m, id, |data.triggers|);
    return Some(m);
  }

  /**
   Fails just when two triggers stand for one change type.  Else the change types
   in the map are those that triggers stand for, and each is bound to what its
   rule says.
   */
  method ParseTogglers(rules: seq<Rule>, codes: map<string, int>) returns (r: Option<map<int, Option<Toggler>>>)
    ensures r.None? <==> Ambiguous(rules, codes)
    ensures r.Some? ==> forall t :: t in r.value <==> exists p :: Triggers(rules, codes, p, t)
    ensures r.Some? ==> forall p, t :: Triggers(rules, codes, p, t) ==> BoundTo(r.value, t, rules[p.rule], p.rule)
  {
    var triggerMap: map<int, Option<Toggler>> := map[];
    for id := 0 to |rules|
      invariant Built(rules, codes, triggerMap, id, 0)
    {
      var added := AddRule(triggerMap, rules, id, codes);
      if added.None? {
        return None;
      }
      triggerMap := added.value;
    }
    assert forall p, t :: Triggers(rules, codes, p, t) ==> Before(p, |rules|, 0);
    return Some(triggerMap);
  }
}
