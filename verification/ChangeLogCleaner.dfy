/**
 Cleaning the change log: events are dropped when they are too old, or when a
 later event "toggles" them, that is, says something newer about the same thing.
 */
module ChangeLogCleaner {
  import opened Wrappers
  import opened Sequences

  /** What an event says about one of its parameters. */
  datatype Param = Number(n: int) | Text(s: string)

  /** Columns that are NULL, and parameters that are null, are not in the maps. */
  datatype Event = Event(id: int, changeType: int, tstamp: int, columns: map<string, int>, params: map<string, Param>)

  /** What makes two events be about the same thing. */
  datatype Toggler = Toggler(id: nat, columns: seq<string>, changeParams: seq<string>)

  datatype Rules = Rules(
    triggerMap: map<int, Option<Toggler>>,
    maxAges: map<int, int>,
    defaultAge: int,
    minimumAge: int,
    forever: int)

  /** The number format refuses what is not a number. */
  datatype Failure = NotANumber

  function Digits(n: nat): string {
    if n < 10 then [DIGITS[n]] else Digits(n / 10) + [DIGITS[n % 10]]
  }

  const DIGITS := "0123456789"

  function IntText(n: int): string {
    if n < 0 then "-" + Digits(-n) else Digits(n)
  }

  predicate HasColumns(t: Toggler, e: Event) {
    forall c :: c in t.columns ==> c in e.columns
  }

  function KeyParts(t: Toggler, e: Event): seq<string>
    requires HasColumns(t, e)
  {
    [IntText(t.id)] + ColumnTexts(t, e) + ParamTexts(t, e)
  }

  function ColumnTexts(t: Toggler, e: Event): seq<string>
    requires HasColumns(t, e)
  {
    seq(|t.columns|, i requires 0 <= i < |t.columns| => IntText(e.columns[t.columns[i]]))
  }

  function ParamTexts(t: Toggler, e: Event): seq<string> {
    seq(|t.changeParams|, i requires 0 <= i < |t.changeParams| => TextOf(ParamOf(e, t.changeParams[i])))
  }

  function ParamOf(e: Event, name: string): Option<Param> {
    if name in e.params then Some(e.params[name]) else None
  }

  /** How a parameter is written, if the event has it. */
  function TextOf(p: Option<Param>): string {
    match p
    case None => "None"
    case Some(Number(n)) => IntText(n)
    case Some(Text(s)) => s
  }

  function Key(t: Toggler, e: Event): string
    requires HasColumns(t, e)
  {
    Join(KeyParts(t, e), "-")
  }

  /** Events of unknown types, and those younger than the minimum age, are never touched. */
  predicate Eligible(rules: Rules, start: int, e: Event) {
    e.changeType in rules.triggerMap && start - e.tstamp >= rules.minimumAge
  }

  /** If its key is asked for, the event has all the columns that its toggler looks at. */
  predicate Readable(rules: Rules, start: int, e: Event) {
    Eligible(rules, start, e) && rules.triggerMap[e.changeType].Some? ==>
      HasColumns(rules.triggerMap[e.changeType].value, e)
  }

  function MaxAge(rules: Rules, e: Event): int {
    if e.changeType in rules.maxAges then rules.maxAges[e.changeType] else rules.defaultAge
  }

  predicate Aged(rules: Rules, start: int, e: Event) {
    Eligible(rules, start, e) && MaxAge(rules, e) != rules.forever && start - e.tstamp > MaxAge(rules, e)
  }

  /** The key under which an event toggles others and is toggled itself. */
  function ToggleKey(rules: Rules, start: int, e: Event): Option<string>
    requires Readable(rules, start, e)
  {
    if Eligible(rules, start, e) && rules.triggerMap[e.changeType].Some? then
      Some(Key(rules.triggerMap[e.changeType].value, e))
    else
      None
  }

  ghost predicate AllReadable(rules: Rules, start: int, events: seq<Event>) {
    forall i :: 0 <= i < |events| ==> Readable(rules, start, events[i])
  }

  /** Every event that is known and old enough has numbers in all the columns that its toggler looks at, if it has one. */
  ghost predicate NumbersThere(rules: Rules, start: int, events: seq<Event>) {
    forall i :: 0 <= i < |events| ==>
      var e := events[i];
      e.changeType in rules.triggerMap && start - e.tstamp >= rules.minimumAge ==>
        match rules.triggerMap[e.changeType]
        case None => true
        case Some(t) => forall j :: 0 <= j < |t.columns| ==> t.columns[j] in e.columns
  }

  lemma ReadableMeaning(rules: Rules, start: int, events: seq<Event>)
    ensures AllReadable(rules, start, events) <==> NumbersThere(rules, start, events)
  {
  }

  ghost function ToggleKeys(rules: Rules, start: int, events: seq<Event>): seq<Option<string>>
    requires AllReadable(rules, start, events)
  {
    seq(|events|, i requires 0 <= i < |events| => ToggleKey(rules, start, events[i]))
  }

  ghost function AgedFlags(rules: Rules, start: int, events: seq<Event>): seq<bool> {
    seq(|events|, i requires 0 <= i < |events| => Aged(rules, start, events[i]))
  }

  /** One of the first `n` events, of which a later one has the key. */
  ghost predicate Toggled(keys: seq<Option<string>>, n: nat, i: nat)
    requires i < n <= |keys|
  {
    keys[i].Some? && exists j :: i < j < n && keys[j] == keys[i]
  }

  /** Which events cleaning removes: those too old and those that a later one toggles. */
  ghost predicate IsDoomed(flags: seq<bool>, keys: seq<Option<string>>, doomed: seq<bool>, n: nat)
    requires n <= |flags| == |keys|
  {
    && |doomed| == |flags|
    && forall i :: 0 <= i < |doomed| ==> (doomed[i] <==> i < n && (flags[i] || Toggled(keys, n, i)))
  }

  /** DELETE ... WHERE change_id = :id. */
  function WithoutId(events: seq<Event>, id: int): seq<Event> {
    if events == [] then []
    else if events[0].id == id then WithoutId(events[1..], id)
    else [events[0]] + WithoutId(events[1..], id)
  }

  /** The events that are not marked, from place `from` on, in their order. */
  ghost function Rest(events: seq<Event>, gone: seq<bool>, from: nat): seq<Event>
    requires from <= |events| == |gone|
    decreases |events| - from
  {
    if from == |events| then []
    else if gone[from] then Rest(events, gone, from + 1)
    else [events[from]] + Rest(events, gone, from + 1)
  }

  lemma {:induction false} DeleteMarks(events: seq<Event>, gone: seq<bool>, i: nat, from: nat)
    requires DistinctIds(events) && i < |events| && from <= |events| == |gone|
    ensures WithoutId(Rest(events, gone, from), events[i].id) == Rest(events, gone[i := true], from)
    decreases |events| - from
  {
    if from < |events| {
      DeleteMarks(events, gone, i, from + 1);
      var tail := Rest(events, gone, from + 1);
      assert ([events[from]] + tail)[1..] == tail;
    }
  }

  lemma {:induction false} NothingGone(events: seq<Event>, gone: seq<bool>, from: nat)
    requires from <= |events| == |gone| && forall i :: from <= i < |gone| ==> !gone[i]
    ensures Rest(events, gone, from) == events[from..]
    decreases |events| - from
  {
    if from < |events| {
      NothingGone(events, gone, from + 1);
    }
  }

  ghost predicate DistinctIds(events: seq<Event>) {
    forall i, j :: 0 <= i < j < |events| ==> events[i].id != events[j].id
  }

  /** The place of the last event so far with each key. */
  ghost predicate LastIndexed(keys: seq<Option<string>>, n: nat, last: map<string, int>)
    requires n <= |keys|
  {
    && (forall i :: 0 <= i < n && keys[i].Some? ==> keys[i].value in last && i <= last[keys[i].value])
    && (forall key :: key in last ==> 0 <= last[key] < n && keys[last[key]] == Some(key))
  }

  /** The last event before the n-th with the key of the n-th. */
  ghost predicate IsLast(keys: seq<Option<string>>, n: nat, last: map<string, int>, i: int)
    requires n < |keys|
  {
    keys[n].Some? && keys[n].value in last && i == last[keys[n].value]
  }

  /** The next event toggles the last one before it with its key, if there is one. */
  lemma ToggledStep(keys: seq<Option<string>>, n: nat, last: map<string, int>)
    requires n < |keys| && LastIndexed(keys, n, last)
    ensures forall i :: 0 <= i < n ==>
              (Toggled(keys, n + 1, i) <==> Toggled(keys, n, i) || IsLast(keys, n, last, i))
    ensures !Toggled(keys, n + 1, n)
    ensures LastIndexed(keys, n + 1, if keys[n].Some? then last[keys[n].value := n] else last)
  {
    forall i | 0 <= i < n
      ensures Toggled(keys, n + 1, i) <==> Toggled(keys, n, i) || IsLast(keys, n, last, i)
    {
      if keys[i].Some? && i < last[keys[i].value] {
        assert keys[last[keys[i].value]] == keys[i];
      }
    }
  }

  /** The marks after one event: on itself, if it is too old, and on the last one before it with its key. */
  ghost function Marked(gone: seq<bool>, n: nat, tooOld: bool, key: Option<string>, last: map<string, int>): seq<bool>
    requires n < |gone|
    requires forall k :: k in last ==> 0 <= last[k] < |gone|
  {
    var own := if tooOld then gone[n := true] else gone;
    if key.Some? && key.value in last then own[last[key.value] := true] else own
  }

  /** The marks after one more event: on itself, if it is too old, and on the one it toggles. */
  lemma EventStep(flags: seq<bool>, keys: seq<Option<string>>, gone: seq<bool>, n: nat, last: map<string, int>)
    requires n < |flags| == |keys| && LastIndexed(keys, n, last) && IsDoomed(flags, keys, gone, n)
    ensures LastIndexed(keys, n + 1, if keys[n].Some? then last[keys[n].value := n] else last)
    ensures IsDoomed(flags, keys, Marked(gone, n, flags[n], keys[n], last), n + 1)
  {
    ToggledStep(keys, n, last);
  }

  /** The flags are those of the events, and so are the keys of the first `n`. */
  ghost predicate Classified(rules: Rules, start: int, events: seq<Event>, flags: seq<bool>, keys: seq<Option<string>>,
                             n: nat)
  {
    && n <= |keys| == |events| && flags == AgedFlags(rules, start, events)
    && forall i :: 0 <= i < n ==> Readable(rules, start, events[i]) && keys[i] == ToggleKey(rules, start, events[i])
  }

  /** Of the first `n` events, the last one with each key is known by its id, and those to be removed are marked. */
  ghost predicate Tracks(all: seq<Event>, flags: seq<bool>, keys: seq<Option<string>>, n: nat,
                         lastSeen: map<string, int>, last: map<string, int>, gone: seq<bool>)
  {
    && n <= |all| == |flags| == |keys|
    && LastIndexed(keys, n, last) && lastSeen.Keys == last.Keys
    && (forall k :: k in last ==> lastSeen[k] == all[last[k]].id)
    && IsDoomed(flags, keys, gone, n)
  }

  /** The log when the marked events have been removed; a rehearsal removes nothing. */
  ghost function Remaining(all: seq<Event>, gone: seq<bool>, commit: bool): seq<Event>
    requires |gone| == |all|
  {
    if commit then Rest(all, gone, 0) else all
  }

  /** The rule that cleaning follows, event by event. */
  ghost predicate Survives(rules: Rules, start: int, events: seq<Event>, i: nat)
    requires AllReadable(rules, start, events) && i < |events|
  {
    var e := events[i];
    || e.changeType !in rules.triggerMap
    || start - e.tstamp < rules.minimumAge
    || (&& (MaxAge(rules, e) == rules.forever || start - e.tstamp <= MaxAge(rules, e))
        && (|| rules.triggerMap[e.changeType].None?
            || forall j :: i < j < |events| && Eligible(rules, start, events[j])
                           && rules.triggerMap[events[j].changeType].Some? ==>
                 ToggleKey(rules, start, events[j]) != ToggleKey(rules, start, e)))
  }

  /** Which events cleaning is to remove. */
  ghost function Doomed(rules: Rules, start: int, events: seq<Event>): seq<bool>
    requires AllReadable(rules, start, events)
  {
    seq(|events|, i requires 0 <= i < |events| => !Survives(rules, start, events, i))
  }

  /** The events that survive cleaning, in their order. */
  ghost function Survivors(rules: Rules, start: int, events: seq<Event>): seq<Event>
    requires AllReadable(rules, start, events)
  {
    Rest(events, Doomed(rules, start, events), 0)
  }

  lemma MarksMeanSurvival(rules: Rules, start: int, events: seq<Event>, gone: seq<bool>, i: nat)
    requires AllReadable(rules, start, events) && i < |events|
    requires IsDoomed(AgedFlags(rules, start, events), ToggleKeys(rules, start, events), gone, |events|)
    ensures gone[i] <==> !Survives(rules, start, events, i)
  {
    var keys := ToggleKeys(rules, start, events);
    if keys[i].Some? && Toggled(keys, |events|, i) {
      var j :| i < j < |events| && keys[j] == keys[i];
      assert ToggleKey(rules, start, events[j]) == ToggleKey(rules, start, events[i]);
    }
    forall j | i < j < |events| ensures keys[j] == ToggleKey(rules, start, events[j]) {
    }
  }

  /** The marks that a pass ends with are those of the events that do not survive. */
  lemma MarksAreDoomed(rules: Rules, start: int, events: seq<Event>, gone: seq<bool>)
    requires AllReadable(rules, start, events)
    requires IsDoomed(AgedFlags(rules, start, events), ToggleKeys(rules, start, events), gone, |events|)
    ensures gone == Doomed(rules, start, events)
  {
    forall i | 0 <= i < |events| ensures gone[i] == Doomed(rules, start, events)[i] {
      MarksMeanSurvival(rules, start, events, gone, i);
    }
  }

  class ChangeLog {
    var events: seq<Event>

    constructor (events: seq<Event>)
      ensures this.events == events
    {
      this.events := events;
    }

    /** DELETE WHERE change_id = :id. */
    method RemoveLogEvent(id: int)
      modifies this
      ensures events == WithoutId(old(events), id)
    {
      events := WithoutId(events, id);
    }

    /** Remove an event, unless this is only a rehearsal; `gone` are the ones removed before. */
    method Drop(id: int, commit: bool, ghost all: seq<Event>, ghost gone: seq<bool>, ghost i: nat)
      requires DistinctIds(all) && i < |all| == |gone| && all[i].id == id
      requires events == Remaining(all, gone, commit)
      modifies this
      ensures events == Remaining(all, gone[i := true], commit)
    {
      if commit {
        DeleteMarks(all, gone, i, 0);
        RemoveLogEvent(id);
      }
    }

    /** What is to be done with one event: is it too old, and what key does it have, if that can be worked out? */
    method Classify(rules: Rules, start: int, e: Event) returns (tooOld: bool, key: Result<Option<string>, Failure>)
      ensures tooOld == Aged(rules, start, e)
      ensures key == if Readable(rules, start, e) then Ok(ToggleKey(rules, start, e)) else Err(NotANumber)
    {
      if e.changeType !in rules.triggerMap {
        return false, Ok(None);
      }
      var age := start - e.tstamp;
      if age < rules.minimumAge {
        return false, Ok(None);
      }
      var maxAge := if e.changeType in rules.maxAges then rules.maxAges[e.changeType] else rules.defaultAge;
      tooOld := maxAge != rules.forever && age > maxAge;
      var toggler := rules.triggerMap[e.changeType];
      if toggler.None? {
        key := Ok(None);
      } else if HasColumns(toggler.value, e) {
        key := Ok(Some(Key(toggler.value, e)));
      } else {
        key := Err(NotANumber);
      }
    }

    /** Remove what one event makes obsolete. */
    method DropFor(e: Event, tooOld: bool, key: Option<string>, lastSeen: map<string, int>, commit: bool,
                   ghost all: seq<Event>, ghost gone: seq<bool>, ghost n: nat, ghost last: map<string, int>)
      requires DistinctIds(all) && n < |all| == |gone| && all[n] == e
      requires events == Remaining(all, gone, commit)
      requires lastSeen.Keys == last.Keys
      requires forall k :: k in last ==> 0 <= last[k] < |gone| && lastSeen[k] == all[last[k]].id
      modifies this
      ensures events == Remaining(all, Marked(gone, n, tooOld, key, last), commit)
    {
      ghost var marks := gone;
      if tooOld {
        Drop(e.id, commit, all, marks, n);
        marks := marks[n := true];
      }
      if key.Some? && key.value in lastSeen {
        Drop(lastSeen[key.value], commit, all, marks, last[key.value]);
      }
    }

    /** Remove what one event makes obsolete, and remember the event under its key. */
    method Handle(e: Event, tooOld: bool, key: Option<string>, lastSeen: map<string, int>, commit: bool,
                  ghost all: seq<Event>, ghost flags: seq<bool>, ghost keys: seq<Option<string>>,
                  ghost gone: seq<bool>, ghost n: nat, ghost last: map<string, int>)
      returns (seen: map<string, int>, ghost marks: seq<bool>, ghost latest: map<string, int>)
      requires DistinctIds(all) && n < |all| && all[n] == e && Tracks(all, flags, keys, n, lastSeen, last, gone)
      requires tooOld == flags[n] && key == keys[n] && events == Remaining(all, gone, commit)
      modifies this
      ensures Tracks(all, flags, keys, n + 1, seen, latest, marks) && events == Remaining(all, marks, commit)
    {
      EventStep(flags, keys, gone, n, last);
      DropFor(e, tooOld, key, lastSeen, commit, all, gone, n, last);
      marks := Marked(gone, n, tooOld, key, last);
      seen, latest := lastSeen, last;
      if key.Some? {
        seen, latest := seen[key.value := e.id], latest[key.value := n];
      }
    }

    /**
     The pass, over a log whose events have the given flags and keys; it stops at
     the first event whose key cannot be worked out, which is the n-th.
     */
    method Sweep(rules: Rules, start: int, commit: bool, ghost flags: seq<bool>, ghost keys: seq<Option<string>>,
                 ghost n: nat) returns (ok: bool, ghost gone: seq<bool>)
      requires DistinctIds(events) && Classified(rules, start, events, flags, keys, n)
      requires n < |events| ==> !Readable(rules, start, events[n])
      modifies this
      ensures ok == (n == |old(events)|) && IsDoomed(flags, keys, gone, n)
      ensures events == Remaining(old(events), if !ok && flags[n] then gone[n := true] else gone, commit)
    {
      var lastSeen: map<string, int> := map[];
      var all := events;
      ghost var last: map<string, int> := map[];
      gone := seq(|events|, i => false);
      NothingGone(events, gone, 0);
      for i := 0 to |all|
        invariant i <= n && Tracks(all, flags, keys, i, lastSeen, last, gone)
        invariant events == Remaining(all, gone, commit)
      {
        var tooOld, key := Classify(rules, start, all[i]);
        if key.Err? {
          if tooOld {
            Drop(all[i].id, commit, all, gone, i);
          }
          return false, gone;
        }
        lastSeen, gone, last := Handle(all[i], tooOld, key.value, lastSeen, commit, all, flags, keys, gone, i, last);
      }
      ok := true;
    }

    /**
     One pass over the log as it is at first.  Without `commit` it only finds
     out what it would remove.  It fails at the first event whose key cannot be
     worked out: what is before that event has been cleaned by itself then, the
     event is gone if it was too old, and nothing after it has been touched.
     */
    method ProcessLog(rules: Rules, start: int, commit: bool) returns (ok: bool)
      requires DistinctIds(events)
      modifies this
      ensures ok <==> NumbersThere(rules, start, old(events))
      ensures ok ==> AllReadable(rules, start, old(events))
      ensures !commit ==> events == old(events)
      ensures commit && ok ==> events == Survivors(rules, start, old(events))
      ensures commit && !ok ==>
                var n := FirstUnreadable(rules, start, old(events), 0);
                && n < |old(events)|
                && events == Survivors(rules, start, old(events)[..n])
                             + (if Aged(rules, start, old(events)[n]) then [] else [old(events)[n]])
                             + old(events)[n + 1..]
    {
      ghost var all, n := events, FirstUnreadable(rules, start, events, 0);
      ghost var flags := AgedFlags(rules, start, all);
      ghost var keys := ToggleKeys(rules, start, all[..n]) + seq(|all| - n, i => None);
      ghost var gone;
      assert Classified(rules, start, all, flags, keys, n);
      ok, gone := Sweep(rules, start, commit, flags, keys, n);
      ReadableMeaning(rules, start, all);
      PrefixIsCleaned(rules, start, all, n, keys, gone, n < |all| && flags[n]);
    }
  }

  /** The first event, from place `from` on, whose key cannot be worked out. */
  ghost function FirstUnreadable(rules: Rules, start: int, events: seq<Event>, from: nat): (n: nat)
    requires from <= |events| && AllReadable(rules, start, events[..from])
    ensures from <= n <= |events| && AllReadable(rules, start, events[..n])
    ensures n < |events| ==> !Readable(rules, start, events[n])
    decreases |events| - from
  {
    if from < |events| && Readable(rules, start, events[from]) then
      assert events[..from + 1] == events[..from] + [events[from]];
      FirstUnreadable(rules, start, events, from + 1)
    else
      from
  }

  lemma {:induction false} RestSplits(events: seq<Event>, gone: seq<bool>, from: nat, n: nat)
    requires from <= n <= |events| == |gone|
    ensures Rest(events, gone, from) == Rest(events[..n], gone[..n], from) + Rest(events, gone, n)
    decreases n - from
  {
    if from < n {
      RestSplits(events, gone, from + 1, n);
    }
  }

  /** When a pass has marked what it is to remove of the first `n` events, these have been cleaned by themselves. */
  lemma PrefixIsCleaned(rules: Rules, start: int, events: seq<Event>, n: nat, keys: seq<Option<string>>, gone: seq<bool>,
                        last: bool)
    requires n <= |events| && AllReadable(rules, start, events[..n])
    requires |keys| == |events| && keys[..n] == ToggleKeys(rules, start, events[..n])
    requires IsDoomed(AgedFlags(rules, start, events), keys, gone, n)
    ensures n == |events| ==> Rest(events, gone, 0) == Survivors(rules, start, events)
    ensures n < |events| ==>
              Rest(events, if last then gone[n := true] else gone, 0)
              == Survivors(rules, start, events[..n]) + (if last then [] else [events[n]]) + events[n + 1..]
  {
    var front := events[..n];
    forall i | 0 <= i < n ensures Toggled(keys, n, i) <==> Toggled(keys[..n], n, i) {
      if Toggled(keys, n, i) {
        var j :| i < j < n && keys[j] == keys[i];
        assert keys[..n][j] == keys[..n][i];
      }
    }
    MarksAreDoomed(rules, start, front, gone[..n]);
    RestSplits(events, gone, 0, n);
    if n < |events| {
      var marks := if last then gone[n := true] else gone;
      RestSplits(events, marks, 0, n);
      assert marks[..n] == gone[..n];
      NothingGone(events, marks, n + 1);
    } else {
      assert front == events && gone[..n] == gone;
    }
  }

  /** What is left at place `a` was at place `i`, and what is left after it was after `i`. */
  lemma {:induction false} RestAt(events: seq<Event>, gone: seq<bool>, from: nat, a: nat) returns (i: nat)
    requires from <= |events| == |gone| && a < |Rest(events, gone, from)|
    ensures from <= i < |events| && !gone[i] && Rest(events, gone, from)[a] == events[i]
    ensures Rest(events, gone, from)[a + 1..] == Rest(events, gone, i + 1)
    decreases |events| - from
  {
    if gone[from] {
      i := RestAt(events, gone, from + 1, a);
    } else if a == 0 {
      i := from;
    } else {
      i := RestAt(events, gone, from + 1, a - 1);
    }
  }

  /** Cleaning what is left, at the same time and by the same rules, removes nothing. */
  lemma CleaningIsIdempotent(rules: Rules, start: int, events: seq<Event>)
    requires AllReadable(rules, start, events)
    ensures var left := Survivors(rules, start, events);
            AllReadable(rules, start, left) && Survivors(rules, start, left) == left
  {
    var left := Survivors(rules, start, events);
    forall a | 0 <= a < |left| ensures Readable(rules, start, left[a]) {
      var i := RestAt(events, Doomed(rules, start, events), 0, a);
    }
    forall a | 0 <= a < |left| ensures !Doomed(rules, start, left)[a] {
      SurvivorsSurvive(rules, start, events, a);
    }
    NothingGone(left, Doomed(rules, start, left), 0);
  }

  /** Removing others can only take away what would toggle a survivor. */
  lemma SurvivorsSurvive(rules: Rules, start: int, events: seq<Event>, a: nat)
    requires AllReadable(rules, start, events) && AllReadable(rules, start, Survivors(rules, start, events))
    requires a < |Survivors(rules, start, events)|
    ensures Survives(rules, start, Survivors(rules, start, events), a)
  {
    var left, gone := Survivors(rules, start, events), Doomed(rules, start, events);
    var i := RestAt(events, gone, 0, a);
    assert Survives(rules, start, events, i);
    forall b | a < b < |left| && Eligible(rules, start, left[b]) && rules.triggerMap[left[b].changeType].Some?
                && Eligible(rules, start, left[a]) && rules.triggerMap[left[a].changeType].Some?
      ensures ToggleKey(rules, start, left[b]) != ToggleKey(rules, start, left[a])
    {
      assert left[b] == left[a + 1..][b - a - 1];
      var j := RestAt(events, gone, i + 1, b - a - 1);
      assert ToggleKey(rules, start, events[j]) != ToggleKey(rules, start, events[i]);
    }
  }
}
