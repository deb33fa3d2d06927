/**
 The affiliations of one person: tables person_affiliation and
 person_affiliation_source, the methods that change them, and the write that
 brings one source system's rows in line with what was populated.
 */
module PersonAffiliations {
  import opened Wrappers
  import opened Sets
  import opened Sequences
  import opened SlotRuns
  import opened PrecedenceRules

  /** Primary key of a person_affiliation_source row of this person. */
  datatype Key = Key(ou: int, affiliation: int, source: int)

  datatype Row = Row(status: int, precedence: int, deleted: bool)

  type Rows = map<Key, Row>

  /** How codes are written in the precedence rules. */
  datatype Codes = Codes(source: int -> string, affiliation: int -> string, status: int -> string)

  datatype Reply = AddedRow | ModifiedRow(status: int, precedence: int) | Unchanged

  ghost function Precedences(rows: Rows): map<Key, int> {
    map k | k in rows :: rows[k].precedence
  }

  /** The table's constraint: no two rows share a precedence, deleted or not. */
  ghost predicate Consistent(rows: Rows) {
    Distinct(Precedences(rows))
  }

  /** Same rows with the same data, apart from their precedences. */
  ghost predicate SameData(rows: Rows, rows': Rows) {
    && rows'.Keys == rows.Keys
    && forall k :: k in rows ==> rows'[k].(precedence := 0) == rows[k].(precedence := 0)
  }

  /** Some source has a row for the unit and affiliation. */
  ghost predicate Needed(rows: Rows, a: (int, int)) {
    exists s :: Key(a.0, a.1, s) in rows
  }

  /** Putting a row keeps what was needed so. */
  lemma StillNeeded(rows: Rows, rows': Rows, affs: set<(int, int)>, k: Key)
    requires k in rows' && SameData(rows - {k}, rows' - {k})
    ensures Needed(rows', (k.ou, k.affiliation))
    ensures forall a :: a in affs && Needed(rows, a) ==> Needed(rows', a)
  {
    assert Key(k.ou, k.affiliation, k.source) in rows';
    forall a | a in affs && Needed(rows, a) ensures Needed(rows', a) {
      var s :| Key(a.0, a.1, s) in rows;
      assert Key(a.0, a.1, s) != k ==> Key(a.0, a.1, s) in rows - {k} && Key(a.0, a.1, s) in rows' - {k};
      assert Key(a.0, a.1, s) in rows';
    }
  }

  function Without<K, V>(m: map<K, V>, k: K): map<K, V>
    requires k in m
  {
    m - {k}
  }

  /** Row `k` is now `row`; only rows in the way of its precedence, if it is a new one, moved. */
  ghost predicate Put(rows: Rows, rows': Rows, k: Key, row: Row) {
    && k in rows' && rows'[k] == row
    && SameData(rows - {k}, rows' - {k})
    && Precedences(rows') == if k in rows && rows[k].precedence == row.precedence then Precedences(rows)
                             else Placed(Precedences(rows), row.precedence, k)
  }

  /** What a call tells its caller: whether the row is new or was deleted, and else what it was if it has changed. */
  ghost predicate Tells(r: Reply, was: Option<Row>, now: Row) {
    && (r.AddedRow? <==> was.None? || was.value.deleted)
    && (r.Unchanged? <==> was == Some(now))
    && (r.ModifiedRow? ==> was.Some? && r.status == was.value.status && r.precedence == was.value.precedence)
  }

  /** An affiliation whose precedence was looked for in a range pushes nobody. */
  lemma AllocatedDisplacesNobody(rows: Rows, rows': Rows, k: Key, row: Row, mn: int, mx: int, step: int)
    requires Allocated(Precedences(rows).Values, mn, mx, step, row.precedence)
    requires Put(rows, rows', k, row)
    ensures Precedences(rows') == Precedences(rows)[k := row.precedence]
    ensures rows' == rows[k := row]
  {
    PushNothing(Precedences(rows), row.precedence);
    forall a | a in rows && a != k ensures a in rows' && rows'[a] == rows[a] {
      assert a in rows - {k} && a in rows' - {k};
      assert Precedences(rows')[a] == Precedences(rows)[a];
    }
    forall a | a in rows' ensures a in rows[k := row] {
      assert a != k ==> a in rows' - {k};
    }
  }

  datatype Wanted = Wanted(status: int, setting: Option<Setting>)

  /** What was populated, by organisational unit and affiliation. */
  type Populated = map<(int, int), Wanted>

  /** A row of the source being written, as the write keeps track of it. */
  datatype Idx = Idx(prim: (int, int), status: int)

  /** Same data, and a precedence that is the same or higher. */
  ghost predicate AtMostPushed(row: Row, row': Row) {
    row' == row.(precedence := row'.precedence) && row.precedence <= row'.precedence
  }

  /** No other source gets or loses a row or sees more than its precedences pushed up. */
  ghost predicate OthersKept(rows: Rows, rows': Rows, source: int) {
    forall k: Key :: k.source != source ==>
      (k in rows <==> k in rows') && (k in rows ==> AtMostPushed(rows[k], rows'[k]))
  }

  /**
   The result of a write: the populated affiliations of the source are live with
   their populated statuses, its other rows are deleted, and everything else is
   as it was but for precedences pushed up.
   */
  ghost predicate Synced(rows: Rows, rows': Rows, source: int, popAffil: Populated) {
    forall k: Key ::
      if k.source == source && (k.ou, k.affiliation) in popAffil then
        k in rows' && rows'[k] == Row(popAffil[(k.ou, k.affiliation)].status, rows'[k].precedence, false)
      else
        && (k in rows <==> k in rows')
        && (k in rows ==> AtMostPushed(if k.source == source then rows[k].(deleted := true) else rows[k], rows'[k]))
  }

  /** Progress of a write: the affiliations `done` are written, no other data has changed. */
  ghost predicate Written(rows: Rows, rows': Rows, source: int, popAffil: Populated, done: set<(int, int)>)
    requires done <= popAffil.Keys
  {
    forall k: Key ::
      if k.source == source && (k.ou, k.affiliation) in done then
        k in rows' && rows'[k] == Row(popAffil[(k.ou, k.affiliation)].status, rows'[k].precedence, false)
      else
        (k in rows <==> k in rows') && (k in rows ==> AtMostPushed(rows[k], rows'[k]))
  }

  /** The rows of the source as they were at first, less those of the affiliations `done`. */
  ghost predicate Indexed(rows: Rows, source: int, done: set<(int, int)>, dbAffil: map<Idx, bool>) {
    forall i: Idx ::
      var k := Key(i.prim.0, i.prim.1, source);
      && (i in dbAffil <==> k in rows && rows[k].status == i.status && i.prim !in done)
      && (i in dbAffil ==> dbAffil[i] == rows[k].deleted)
  }

  ghost predicate PrimIndexed(rows: Rows, source: int, dbPrim: map<(int, int), Idx>) {
    forall prim: (int, int) ::
      var k := Key(prim.0, prim.1, source);
      && (prim in dbPrim <==> k in rows)
      && (prim in dbPrim ==> dbPrim[prim] == Idx(prim, rows[k].status))
  }

  /** Of the rows of the source, those in `swept` are now marked as deleted. */
  ghost predicate Swept(rows: Rows, rows': Rows, source: int, swept: set<Idx>) {
    && rows'.Keys == rows.Keys
    && forall k: Key :: k in rows ==>
         var gone := k.source == source && Idx((k.ou, k.affiliation), rows[k].status) in swept;
         rows'[k] == if gone then rows[k].(deleted := true) else rows[k]
  }

  /** What the index still lists is in the table, with the same status and deleted mark. */
  lemma LeftIsThere(rows: Rows, written: Rows, source: int, popAffil: Populated, dbAffil: map<Idx, bool>)
    requires Written(rows, written, source, popAffil, popAffil.Keys)
    requires Indexed(rows, source, popAffil.Keys, dbAffil)
    ensures forall i :: i in dbAffil ==>
              var k := Key(i.prim.0, i.prim.1, source);
              k in written && written[k].status == i.status && written[k].deleted == dbAffil[i]
  {
    forall i | i in dbAffil ensures (i.prim.0, i.prim.1) !in popAffil {
      assert (i.prim.0, i.prim.1) == i.prim;
    }
  }

  lemma WriteDone(rows: Rows, written: Rows, rows': Rows, source: int, popAffil: Populated, dbAffil: map<Idx, bool>)
    requires Written(rows, written, source, popAffil, popAffil.Keys)
    requires Indexed(rows, source, popAffil.Keys, dbAffil)
    requires Swept(written, rows', source, dbAffil.Keys)
    ensures Synced(rows, rows', source, popAffil)
  {
    forall k: Key | k.source == source && k in written
      ensures Idx((k.ou, k.affiliation), written[k].status) in dbAffil <==> (k.ou, k.affiliation) !in popAffil
    {
      var i := Idx((k.ou, k.affiliation), written[k].status);
      assert k == Key(i.prim.0, i.prim.1, source);
    }
  }

  /** The affiliations of the source that are not deleted are exactly the populated ones. */
  lemma SyncedMeansLive(rows: Rows, rows': Rows, source: int, popAffil: Populated)
    requires Synced(rows, rows', source, popAffil)
    ensures (set k | k in rows' && k.source == source && !rows'[k].deleted :: ((k.ou, k.affiliation), rows'[k].status))
            == (set a | a in popAffil :: (a, popAffil[a].status))
    ensures OthersKept(rows, rows', source)
  {
    var live := set k | k in rows' && k.source == source && !rows'[k].deleted :: ((k.ou, k.affiliation), rows'[k].status);
    forall a | a in popAffil ensures (a, popAffil[a].status) in live {
      var k := Key(a.0, a.1, source);
      assert (k.ou, k.affiliation) == a;
    }
  }

  /** After a write, what was needed still is, and so is what was populated. */
  lemma SyncedIsNeeded(rows: Rows, rows': Rows, source: int, popAffil: Populated, affs: set<(int, int)>)
    requires Synced(rows, rows', source, popAffil)
    ensures forall a :: a in affs && (Needed(rows, a) || a in popAffil) ==> Needed(rows', a)
  {
    forall a | a in affs && (Needed(rows, a) || a in popAffil) ensures Needed(rows', a) {
      if a in popAffil {
        assert (Key(a.0, a.1, source).ou, Key(a.0, a.1, source).affiliation) == a;
        assert Key(a.0, a.1, source) in rows';
      } else {
        var s :| Key(a.0, a.1, s) in rows;
        assert Key(a.0, a.1, s) in rows';
      }
    }
  }

  lemma PutAdvances(rows: Rows, before: Rows, rows': Rows, source: int, popAffil: Populated,
                    done: set<(int, int)>, prim: (int, int))
    requires done <= popAffil.Keys && prim in popAffil.Keys - done
    requires Written(rows, before, source, popAffil, done) && Consistent(before)
    requires var k := Key(prim.0, prim.1, source);
             && k in rows' && Put(before, rows', k, Row(popAffil[prim].status, rows'[k].precedence, false))
    ensures Written(rows, rows', source, popAffil, done + {prim})
    ensures var k := Key(prim.0, prim.1, source);
            k in before && rows'[k].precedence == before[k].precedence ==> Precedences(rows') == Precedences(before)
  {
    var k := Key(prim.0, prim.1, source);
    var pos, pos' := Precedences(before), Precedences(rows');
    PlaceMeaning(pos, rows'[k].precedence, k);
    forall a: Key | a != k ensures (a in before <==> a in rows') && (a in before ==> AtMostPushed(before[a], rows'[a])) {
      assert (a in before <==> a in before - {k}) && (a in rows' <==> a in rows' - {k});
      if a in before {
        assert pos[a] <= pos'[a];
      }
    }
  }

  /** When a table is in line with what was populated and no precedence moves, nothing does. */
  lemma SyncedAgain(rows: Rows, rows': Rows, rows'': Rows, source: int, popAffil: Populated)
    requires Synced(rows, rows', source, popAffil) && Synced(rows', rows'', source, popAffil)
    requires Precedences(rows'') == Precedences(rows')
    ensures rows'' == rows'
  {
    forall k: Key ensures (k in rows'' <==> k in rows') && (k in rows' ==> rows''[k] == rows'[k]) {
      assert (k in Precedences(rows'') <==> k in rows'') && (k in Precedences(rows') <==> k in rows');
      if k in rows' {
        assert Precedences(rows'')[k] == Precedences(rows')[k];
      }
    }
  }

  /** Once the run above a row is pushed, the row itself may be. */
  lemma PushRow(rows: Rows, rows': Rows, k: Key, p: int)
    requires Consistent(rows) && SameData(rows, rows') && k in rows && rows[k].precedence == p
    requires Precedences(rows') == Pushed(Precedences(rows), p + 1)
    ensures var pushed := rows'[k := rows'[k].(precedence := p + 1)];
            SameData(rows, pushed) && Precedences(pushed) == Pushed(Precedences(rows), p) && Consistent(pushed)
  {
    var pos := Precedences(rows);
    PushStep(pos, p, k);
    PushKeepsDistinct(pos, p);
    assert Precedences(rows'[k := rows'[k].(precedence := p + 1)]) == Precedences(rows')[k := p + 1];
  }

  /** Once the run at its precedence is pushed, a row may be written. */
  lemma PlaceRow(rows: Rows, rows': Rows, k: Key, row: Row)
    requires Consistent(rows) && SameData(rows, rows')
    requires Precedences(rows') == Pushed(Precedences(rows), row.precedence)
    ensures Consistent(rows'[k := row])
    ensures Precedences(rows'[k := row]) == Placed(Precedences(rows), row.precedence, k)
    ensures SameData(rows - {k}, rows'[k := row] - {k})
  {
    PlaceMeaning(Precedences(rows), row.precedence, k);
    assert Precedences(rows'[k := row]) == Precedences(rows')[k := row.precedence];
  }

  /** A row may be written back with the precedence it has. */
  lemma RewriteRow(rows: Rows, k: Key, row: Row)
    requires Consistent(rows) && k in rows && rows[k].precedence == row.precedence
    ensures Consistent(rows[k := row])
    ensures Precedences(rows[k := row]) == Precedences(rows)
    ensures SameData(rows - {k}, rows[k := row] - {k})
  {
    assert Precedences(rows[k := row]) == Precedences(rows);
  }

  /** Take a written affiliation off the index, under the status it was found with; it is there. */
  method Strike(dbAffil: map<Idx, bool>, dbPrim: map<(int, int), Idx>, prim: (int, int), status: int,
                ghost rows: Rows, ghost source: int, ghost done: set<(int, int)>) returns (left: map<Idx, bool>)
    requires prim !in done
    requires Indexed(rows, source, done, dbAffil) && PrimIndexed(rows, source, dbPrim)
    ensures Indexed(rows, source, done + {prim}, left)
  {
    if Idx(prim, status) in dbAffil {
      left := Without(dbAffil, Idx(prim, status));
    } else if prim in dbPrim {
      left := Without(dbAffil, dbPrim[prim]);
    } else {
      left := dbAffil;
    }
  }

  class PersonAffiliations {
    const cfg: Config
    const codes: Codes
    /** How many nested calls the interpreter allows. */
    const depth: nat
    /** Table person_affiliation. */
    var affs: set<(int, int)>
    /** Table person_affiliation_source. */
    var rows: Rows
    /** That table after each statement so far, the latest last. */
    ghost var history: seq<Rows>

    ghost predicate Valid()
      reads this
    {
      && history != [] && history[|history| - 1] == rows
      && (forall i :: 0 <= i < |history| ==> Consistent(history[i]))
      && (forall k :: k in rows ==> (k.ou, k.affiliation) in affs)
    }

    /** No person_affiliation row is left without a row that needs it. */
    ghost predicate NoOrphans()
      reads this
    {
      forall a :: a in affs ==> Needed(rows, a)
    }

    constructor (cfg: Config, codes: Codes, depth: nat)
      ensures Valid() && NoOrphans() && rows == map[]
      ensures this.cfg == cfg && this.codes == codes && this.depth == depth
    {
      this.cfg, this.codes, this.depth := cfg, codes, depth;
      affs, rows := {}, map[];
      history := [map[]];
      new;
      assert Consistent(map[]);
    }

    /** What asking for a precedence comes to, for an affiliation with the precedence `cur`, or none. */
    ghost predicate Comes(k: Key, status: int, setting: Option<Setting>, cur: Option<int>, taken: set<int>, o: Outcome) {
      Gives(cfg, codes.source(k.source), codes.affiliation(k.affiliation), codes.status(status), setting, cur, taken, depth, o)
    }

    /** The same, given the rows before the call. */
    ghost predicate ComesOfRows(rows: Rows, k: Key, status: int, setting: Option<Setting>, o: Outcome) {
      Comes(k, status, setting, if k in rows then Some(rows[k].precedence) else None, Precedences(rows).Values, o)
    }

    ghost predicate ChosenFor(rows: Rows, k: Key, status: int, setting: Option<Setting>, p: int) {
      ComesOfRows(rows, k, status, setting, Given(p))
    }

    ghost predicate RefusedFor(rows: Rows, k: Key, status: int, setting: Option<Setting>, e: Failure) {
      ComesOfRows(rows, k, status, setting, Refused(e))
    }

    ghost function Answer(k: Key, status: int, setting: Option<Setting>, cur: Option<int>): Result<Target, Failure>
    {
      var req := Request(codes.source(k.source), codes.affiliation(k.affiliation), codes.status(status), setting);
      Resolve(cfg, req, cur, depth)
    }

    lemma AnswerMeaning(k: Key, status: int, setting: Option<Setting>, cur: Option<int>, taken: set<int>, o: Outcome)
      ensures Comes(k, status, setting, cur, taken, o) <==> ComesTo(Answer(k, status, setting, cur), taken, o)
    {
      var req := Request(codes.source(k.source), codes.affiliation(k.affiliation), codes.status(status), setting);
      ResolveGives(cfg, req, cur, taken, depth, o);
    }

    /** It comes to one thing only. */
    lemma OnlyOneComes(rows: Rows, k: Key, status: int, setting: Option<Setting>, o: Outcome, o': Outcome)
      requires ComesOfRows(rows, k, status, setting, o) && ComesOfRows(rows, k, status, setting, o')
      ensures o == o'
    {
      var cur := if k in rows then Some(rows[k].precedence) else None;
      AnswerMeaning(k, status, setting, cur, Precedences(rows).Values, o);
      AnswerMeaning(k, status, setting, cur, Precedences(rows).Values, o');
      OnlyOneOutcome(Answer(k, status, setting, cur), Precedences(rows).Values, o, o');
    }

    /** Either a precedence is chosen, or none is and there is a reason. */
    lemma ChosenNotRefused(rows: Rows, k: Key, status: int, setting: Option<Setting>, p: int)
      requires ChosenFor(rows, k, status, setting, p)
      ensures forall e :: !RefusedFor(rows, k, status, setting, e)
      ensures forall q :: ChosenFor(rows, k, status, setting, q) ==> q == p
    {
      forall e ensures !RefusedFor(rows, k, status, setting, e) {
        if RefusedFor(rows, k, status, setting, e) {
          OnlyOneComes(rows, k, status, setting, Given(p), Refused(e));
        }
      }
      forall q | ChosenFor(rows, k, status, setting, q) ensures q == p {
        OnlyOneComes(rows, k, status, setting, Given(p), Given(q));
      }
    }

    lemma RefusedNotChosen(rows: Rows, k: Key, status: int, setting: Option<Setting>, e: Failure)
      requires RefusedFor(rows, k, status, setting, e)
      ensures forall p :: !ChosenFor(rows, k, status, setting, p)
    {
      forall p ensures !ChosenFor(rows, k, status, setting, p) {
        if ChosenFor(rows, k, status, setting, p) {
          OnlyOneComes(rows, k, status, setting, Given(p), Refused(e));
        }
      }
    }

    /** A slot, or a range, that is asked for is what the affiliation gets. */
    lemma ChosenIsAsAsked(rows: Rows, k: Key, status: int, setting: Setting, p: int)
      requires ChosenFor(rows, k, status, Some(setting), p)
      ensures AsAsked(cfg.override, setting, if k in rows then Some(rows[k].precedence) else None,
                      Precedences(rows).Values, p)
    {
      assert k in rows ==> Precedences(rows)[k] in Precedences(rows).Values;
    }

    /** The rules send the row to the precedence it has. */
    ghost predicate Stays(rows: Rows, k: Key, status: int, setting: Option<Setting>)
      requires k in rows
    {
      ChosenFor(rows, k, status, setting, rows[k].precedence)
    }

    /** All populated affiliations have rows that stay where they are. */
    ghost predicate AllStay(rows: Rows, source: int, popAffil: Populated) {
      forall a :: a in popAffil ==>
        var k := Key(a.0, a.1, source);
        k in rows && Stays(rows, k, popAffil[a].status, popAffil[a].setting)
    }

    /**
     A row for which nothing is asked stays where it is just when its precedence
     is not 0, or 0 is what the rules give to an affiliation that has no row.
     */
    lemma StaysUnlessZero(rows: Rows, k: Key, status: int)
      requires k in rows && depth > 0
      ensures Stays(rows, k, status, None) <==>
              rows[k].precedence != 0 || Comes(k, status, None, None, Precedences(rows).Values, Given(0))
    {
      var p := rows[k].precedence;
      var req := Request(codes.source(k.source), codes.affiliation(k.affiliation), codes.status(status), None);
      KeptUnlessZero(cfg, req, p, depth);
      AnswerMeaning(k, status, None, Some(p), Precedences(rows).Values, Given(p));
      AnswerMeaning(k, status, None, None, Precedences(rows).Values, Given(0));
      assert Precedences(rows)[k] in Precedences(rows).Values;
    }

    /** The rules have a precedence for an affiliation without a row, and it can be found. */
    ghost predicate Resolvable(k: Key, status: int, setting: Option<Setting>) {
      var answer := Answer(k, status, setting, None);
      answer.Ok? && !(answer.value.FindIn? && answer.value.step == 0)
    }

    /** Just then can the affiliation be added to any table. */
    lemma ResolvableMeaning(k: Key, status: int, setting: Option<Setting>)
      ensures Resolvable(k, status, setting) <==> forall rows: Rows, e :: !RefusedFor(rows, k, status, setting, e)
    {
      var answer := Answer(k, status, setting, None);
      if Resolvable(k, status, setting) {
        forall rows: Rows, e ensures !RefusedFor(rows, k, status, setting, e) {
          ResolvableNotRefused(rows, k, status, setting, e);
        }
      } else if answer.Ok? {
        var other := k.(ou := k.ou + 1);
        var rows: Rows := map[other := Row(0, answer.value.min, false)];
        assert Precedences(rows) == map[other := answer.value.min] && Precedences(rows)[other] == answer.value.min;
        assert IsBase(Precedences(rows).Values, answer.value.min, answer.value.max, answer.value.min);
        AnswerMeaning(k, status, setting, None, Precedences(rows).Values, Refused(NeverEnds));
        assert RefusedFor(rows, k, status, setting, NeverEnds);
      } else {
        AnswerMeaning(k, status, setting, None, Precedences(map[]).Values, Refused(answer.error));
        assert RefusedFor(map[], k, status, setting, answer.error);
      }
    }

    lemma ResolvableNotRefused(rows: Rows, k: Key, status: int, setting: Option<Setting>, e: Failure)
      requires Resolvable(k, status, setting)
      ensures !RefusedFor(rows, k, status, setting, e)
    {
      var cur := if k in rows then Some(rows[k].precedence) else None;
      var req := Request(codes.source(k.source), codes.affiliation(k.affiliation), codes.status(status), setting);
      RowlessIsHardest(cfg, req, cur, depth);
      AnswerMeaning(k, status, setting, cur, Precedences(rows).Values, Refused(e));
    }

    /** So it can when a slot is asked for, or a range with a step other than 0. */
    lemma PlainSettingsAreResolvable(k: Key, status: int, setting: Setting)
      requires depth > 0
      requires setting.Exact? || (setting.Range? && (setting.min == setting.max || setting.step != Some(0)))
      ensures Resolvable(k, status, Some(setting))
    {
    }

    /** What adding one of the populated affiliations does to the rows. */
    ghost predicate Adds(rows: Rows, rows': Rows, source: int, popAffil: Populated, prim: (int, int))
      requires prim in popAffil
    {
      var k := Key(prim.0, prim.1, source);
      var wanted := popAffil[prim];
      && k in rows'
      && Put(rows, rows', k, Row(wanted.status, rows'[k].precedence, false))
      && ChosenFor(rows, k, wanted.status, wanted.setting, rows'[k].precedence)
    }

    /** What adding several of them, one after the other, does to the rows. */
    ghost predicate AddsAll(rows: Rows, rows': Rows, source: int, popAffil: Populated, order: seq<(int, int)>)
      requires forall a :: a in order ==> a in popAffil
      decreases |order|
    {
      if order == [] then rows' == rows
      else
        var n := |order| - 1;
        exists mid :: AddsAll(rows, mid, source, popAffil, order[..n]) && Adds(mid, rows', source, popAffil, order[n])
    }

    /** The affiliations `order`, each once, have been added; if that is not all, the next one cannot be. */
    ghost predicate Added(rows: Rows, rows': Rows, source: int, popAffil: Populated, order: seq<(int, int)>,
                          failure: Option<Failure>)
    {
      && NoDuplicates(order) && (forall a :: a in order ==> a in popAffil)
      && AddsAll(rows, rows', source, popAffil, order)
      && (failure.None? ==> forall a :: a in popAffil ==> a in order)
      && (failure.Some? ==> exists a :: a in popAffil && a !in order && Fails(rows', source, popAffil, a, failure.value))
    }

    ghost predicate Fails(rows: Rows, source: int, popAffil: Populated, a: (int, int), failure: Failure)
      requires a in popAffil
    {
      RefusedFor(rows, Key(a.0, a.1, source), popAffil[a].status, popAffil[a].setting, failure)
    }

    /** The affiliations `done` have been added in the given order. */
    ghost predicate AddedSoFar(rows: Rows, rows': Rows, source: int, popAffil: Populated, done: set<(int, int)>,
                               order: seq<(int, int)>)
      requires done <= popAffil.Keys
    {
      && NoDuplicates(order) && (forall a :: a in order <==> a in done)
      && AddsAll(rows, rows', source, popAffil, order)
    }

    lemma AddsOneMore(rows: Rows, mid: Rows, rows': Rows, source: int, popAffil: Populated, done: set<(int, int)>,
                      order: seq<(int, int)>, prim: (int, int))
      requires done <= popAffil.Keys && prim in popAffil && prim !in done
      requires AddedSoFar(rows, mid, source, popAffil, done, order) && Adds(mid, rows', source, popAffil, prim)
      ensures AddedSoFar(rows, rows', source, popAffil, done + {prim}, order + [prim])
    {
      assert (order + [prim])[..|order|] == order;
      assert prim !in order;
    }

    ghost predicate AllResolvable(source: int, popAffil: Populated) {
      forall a :: a in popAffil ==> Resolvable(Key(a.0, a.1, source), popAffil[a].status, popAffil[a].setting)
    }

    /** Nothing fails if all that was populated is resolvable. */
    lemma ResolvableNeverFails(rows: Rows, rows': Rows, source: int, popAffil: Populated, order: seq<(int, int)>,
                               failure: Option<Failure>)
      requires Added(rows, rows', source, popAffil, order, failure)
      requires AllResolvable(source, popAffil)
      ensures failure.None?
    {
      if failure.Some? {
        var a :| a in popAffil && a !in order && Fails(rows', source, popAffil, a, failure.value);
        ResolvableMeaning(Key(a.0, a.1, source), popAffil[a].status, popAffil[a].setting);
      }
    }

    /** What a write does, whether it comes to its end or not. */
    ghost predicate Wrote(rows: Rows, rows': Rows, source: int, popAffil: Populated, ended: bool) {
      && OthersKept(rows, rows', source)
      && (ended ==> Synced(rows, rows', source, popAffil))
      && (AllStay(rows, source, popAffil) ==> ended && Precedences(rows') == Precedences(rows))
    }

    /** A second write changes nothing when the first one left all rows where the rules send them. */
    lemma SecondWriteIsIdle(rows: Rows, rows': Rows, rows'': Rows, source: int, popAffil: Populated, ended: bool)
      requires Wrote(rows, rows', source, popAffil, true) && Wrote(rows', rows'', source, popAffil, ended)
      requires AllStay(rows', source, popAffil)
      ensures ended && rows'' == rows'
    {
      SyncedAgain(rows, rows', rows'', source, popAffil);
    }

    /** That is so when no precedence is asked for, and the first one left none of them at 0. */
    lemma NothingAskedStays(rows: Rows, rows': Rows, source: int, popAffil: Populated)
      requires depth > 0 && Wrote(rows, rows', source, popAffil, true)
      requires forall a :: a in popAffil ==> popAffil[a].setting.None?
      requires forall k :: k in rows' && k.source == source ==> rows'[k].precedence != 0
      ensures AllStay(rows', source, popAffil)
    {
      forall a | a in popAffil
        ensures var k := Key(a.0, a.1, source); k in rows' && Stays(rows', k, popAffil[a].status, popAffil[a].setting)
      {
        var k := Key(a.0, a.1, source);
        assert (k.ou, k.affiliation) == a;
        StaysUnlessZero(rows', k, popAffil[a].status);
      }
    }

    /** An INSERT or UPDATE of one row; it must not break the constraint. */
    method Write(k: Key, row: Row)
      requires Valid() && (k.ou, k.affiliation) in affs
      requires Consistent(rows[k := row])
      modifies this`rows, this`history
      ensures Valid()
      ensures rows == old(rows)[k := row]
      ensures history == old(history) + [rows]
    {
      rows := rows[k := row];
      history := history + [rows];
    }

    /** Free the given precedence by pushing the row that has it, from the top of its run down. */
    method ClearPrecedence(p: int, allPrecs: map<int, Key>)
      requires Valid()
      requires Snapshot(allPrecs, Precedences(rows)) && p in allPrecs
      modifies this`rows, this`history
      ensures Valid() && old(history) <= history
      ensures SameData(old(rows), rows)
      ensures Precedences(rows) == Pushed(old(Precedences(rows)), p)
      decreases AtOrAbove(allPrecs.Keys, p)
    {
      ghost var pos := Precedences(rows);
      var k := allPrecs[p];
      SnapshotIsDistinct(allPrecs, pos);
      if p + 1 in allPrecs {
        AboveShrinks(allPrecs.Keys, p);
        ClearPrecedence(p + 1, allPrecs);
      } else {
        PushNothing(pos, p + 1);
      }
      PushRow(old(rows), rows, k, p);
      Write(k, rows[k].(precedence := p + 1));
    }

    method CalculatePrecedence(k: Key, status: int, setting: Option<Setting>, cur: Option<int>)
      returns (r: Result<int, Failure>)
      ensures Comes(k, status, setting, cur, Precedences(rows).Values, if r.Ok? then Given(r.value) else Refused(r.error))
    {
      var req := Request(codes.source(k.source), codes.affiliation(k.affiliation), codes.status(status), setting);
      match Resolve(cfg, req, cur, depth) {
        case Err(e) =>
          r := Err(e);
        case Ok(At(slot)) =>
          r := Ok(slot);
        case Ok(FindIn(mn, mx, step)) =>
          var taken := set a | a in rows :: rows[a].precedence;
          ghost var pos := Precedences(rows);
          assert taken == pos.Values by {
            forall a | a in rows ensures rows[a].precedence in pos.Values {
              assert pos[a] == rows[a].precedence;
            }
          }
          r := Allocate(taken, mn, mx, step);
      }
      AnswerMeaning(k, status, setting, cur, Precedences(rows).Values, if r.Ok? then Given(r.value) else Refused(r.error));
    }

    /** The same for an affiliation as it is in the table, and what that means for its row. */
    method ChoosePrecedence(k: Key, status: int, setting: Option<Setting>, cur: Option<int>)
      returns (r: Result<int, Failure>)
      requires cur == if k in rows then Some(rows[k].precedence) else None
      ensures r.Err? <==> exists e :: RefusedFor(rows, k, status, setting, e)
      ensures r.Err? ==> RefusedFor(rows, k, status, setting, r.error)
      ensures r.Err? && k in rows ==> !Stays(rows, k, status, setting)
      ensures r.Ok? ==> ChosenFor(rows, k, status, setting, r.value)
      ensures r.Ok? && k in rows ==> (r.value == rows[k].precedence <==> Stays(rows, k, status, setting))
      ensures r.Ok? && setting.Some? ==> AsAsked(cfg.override, setting.value, cur, Precedences(rows).Values, r.value)
    {
      r := CalculatePrecedence(k, status, setting, cur);
      if r.Err? {
        assert RefusedFor(rows, k, status, setting, r.error);
        RefusedNotChosen(rows, k, status, setting, r.error);
      } else {
        ChosenNotRefused(rows, k, status, setting, r.value);
        if setting.Some? {
          ChosenIsAsAsked(rows, k, status, setting.value, r.value);
        }
      }
    }

    /** The rows by precedence, as they are now. */
    method ListByPrecedence() returns (allPrs: map<int, Key>)
      requires Valid()
      ensures Snapshot(allPrs, Precedences(rows))
    {
      allPrs := map[];
      ghost var pos := Precedences(rows);
      assert Consistent(rows);
      var unread := rows.Keys;
      while unread != {}
        invariant unread <= pos.Keys && Snapshot(allPrs, pos - unread)
      {
        var a :| a in unread;
        SnapshotGrows(allPrs, pos, unread, a);
        allPrs := allPrs[rows[a].precedence := a];
        unread := unread - {a};
      }
      assert pos - unread == pos;
    }

    /** Clear the precedence, if another row has it, and write the affiliation there. */
    method PutRow(k: Key, status: int, p: int, allPrs: map<int, Key>)
      requires Valid() && (k.ou, k.affiliation) in affs
      requires Snapshot(allPrs, Precedences(rows))
      modifies this`rows, this`history
      ensures Valid() && old(history) <= history
      ensures Put(old(rows), rows, k, Row(status, p, false))
      ensures (forall a :: a in affs && a != (k.ou, k.affiliation) ==> Needed(old(rows), a)) ==> NoOrphans()
    {
      var row := Row(status, p, false);
      SnapshotIsDistinct(allPrs, Precedences(rows));
      if k in rows && rows[k].precedence == p {
        RewriteRow(rows, k, row);
      } else {
        if p in allPrs {
          ClearPrecedence(p, allPrs);
        } else {
          PushNothing(Precedences(rows), p);
        }
        PlaceRow(old(rows), rows, k, row);
      }
      Write(k, row);
      StillNeeded(old(rows), rows, affs, k);
    }

    /**
     Add the affiliation, or update or revive it if it has a row already.  Rows
     in the way of the chosen precedence are pushed; nothing else of any other
     row changes.
     */
    method AddAffiliation(k: Key, status: int, setting: Option<Setting>) returns (r: Result<Reply, Failure>)
      requires Valid()
      modifies this`affs, this`rows, this`history
      ensures Valid() && old(history) <= history
      ensures r.Err? <==> exists e :: RefusedFor(old(rows), k, status, setting, e)
      ensures r.Err? ==> rows == old(rows) && RefusedFor(old(rows), k, status, setting, r.error)
      ensures r.Err? && k in old(rows) ==> !Stays(old(rows), k, status, setting)
      ensures r.Ok? && setting.Some? ==>
                k in rows && AsAsked(cfg.override, setting.value,
                                     if k in old(rows) then Some(old(rows)[k].precedence) else None,
                                     Precedences(old(rows)).Values, rows[k].precedence)
      ensures r.Ok? ==>
                var was := if k in old(rows) then Some(old(rows)[k]) else None;
                && k in rows
                && Put(old(rows), rows, k, Row(status, rows[k].precedence, false))
                && ChosenFor(old(rows), k, status, setting, rows[k].precedence)
                && (k in old(rows) ==>
                      (rows[k].precedence == old(rows)[k].precedence <==> Stays(old(rows), k, status, setting)))
                && Tells(r.value, was, rows[k])
      ensures affs == old(affs) + {(k.ou, k.affiliation)}
      ensures old(NoOrphans()) && r.Ok? ==> NoOrphans()
    {
      var allPrs := ListByPrecedence();
      affs := affs + {(k.ou, k.affiliation)};
      var was := if k in rows then Some(rows[k]) else None;
      var cur := if was.Some? then Some(was.value.precedence) else None;
      var chosen := ChoosePrecedence(k, status, setting, cur);
      if chosen.Err? {
        return Err(chosen.error);
      }
      PutRow(k, status, chosen.value, allPrs);
      var reply := Answered(was, status, chosen.value);
      return Ok(reply);
    }

    /** Tell the caller what was done. */
    static method Answered(was: Option<Row>, status: int, p: int) returns (r: Reply)
      ensures Tells(r, was, Row(status, p, false))
    {
      if was.None? || was.value.deleted {
        return AddedRow;
      } else if was.value.status != status || was.value.precedence != p {
        return ModifiedRow(was.value.status, was.value.precedence);
      }
      return Unchanged;
    }

    /** Mark one affiliation as deleted; fails if there is no such row. */
    method DeleteAffiliation(k: Key) returns (found: bool)
      requires Valid()
      modifies this`rows, this`history
      ensures Valid() && old(history) <= history && found == (k in old(rows))
      ensures rows == if found then old(rows)[k := old(rows)[k].(deleted := true)] else old(rows)
      ensures old(NoOrphans()) ==> NoOrphans()
    {
      if k !in rows {
        return false;
      }
      StillNeeded(rows, rows[k := rows[k].(deleted := true)], affs, k);
      RewriteRow(rows, k, rows[k].(deleted := true));
      Write(k, rows[k].(deleted := true));
      return true;
    }

    /** Remove one affiliation for good, and the person_affiliation row nobody needs then. */
    method NukeAffiliation(k: Key)
      requires Valid()
      modifies this`affs, this`rows, this`history
      ensures Valid() && old(history) <= history
      ensures rows == old(rows) - {k}
      ensures affs == old(affs) - (if exists s :: Key(k.ou, k.affiliation, s) in rows
                                   then {} else {(k.ou, k.affiliation)})
      ensures old(NoOrphans()) ==> NoOrphans()
    {
      rows := rows - {k};
      history := history + [rows];
      assert Distinct(Precedences(old(rows)));
      assert Precedences(rows) == Precedences(old(rows)) - {k};
      assert Consistent(rows);
      if !exists r :: r in rows && r.ou == k.ou && r.affiliation == k.affiliation {
        affs := affs - {(k.ou, k.affiliation)};
      } else {
        var r :| r in rows && r.ou == k.ou && r.affiliation == k.affiliation;
        assert r == Key(k.ou, k.affiliation, r.source);
      }
      forall a | a in affs && Needed(old(rows), a) ensures Needed(rows, a) {
        ghost var s :| Key(a.0, a.1, s) in old(rows);
        assert Key(a.0, a.1, s) != k ==> Key(a.0, a.1, s) in rows;
      }
    }

    /** The rows of the source, by all that was populated of them and by primary key. */
    method IndexSource(source: int) returns (dbAffil: map<Idx, bool>, dbPrim: map<(int, int), Idx>)
      ensures Indexed(rows, source, {}, dbAffil) && PrimIndexed(rows, source, dbPrim)
    {
      dbAffil, dbPrim := map[], map[];
      var unread := rows.Keys;
      while unread != {}
        invariant unread <= rows.Keys
        invariant Indexed(rows - unread, source, {}, dbAffil) && PrimIndexed(rows - unread, source, dbPrim)
      {
        var k :| k in unread;
        if source == k.source {
          var idx := Idx((k.ou, k.affiliation), rows[k].status);
          dbAffil := dbAffil[idx := rows[k].deleted];
          dbPrim := dbPrim[(k.ou, k.affiliation) := idx];
        }
        unread := unread - {k};
      }
      assert rows - unread == rows;
    }

    /** How far a write has come: the affiliations `done` are written, and were so in the given order. */
    ghost predicate Progress(rows: Rows, rows': Rows, source: int, popAffil: Populated, done: set<(int, int)>,
                             order: seq<(int, int)>)
      requires done <= popAffil.Keys
    {
      && Written(rows, rows', source, popAffil, done)
      && AddedSoFar(rows, rows', source, popAffil, done, order)
      && (AllStay(rows, source, popAffil) ==> Precedences(rows') == Precedences(rows))
    }

    /** Add one populated affiliation; `rows0`, `done` and `order` say how far the write has come. */
    method WriteOne(source: int, popAffil: Populated, prim: (int, int),
                    ghost rows0: Rows, ghost done: set<(int, int)>, ghost order: seq<(int, int)>)
      returns (reply: Result<Reply, Failure>)
      requires Valid() && done <= popAffil.Keys && prim in popAffil.Keys - done
      requires Progress(rows0, rows, source, popAffil, done, order)
      modifies this`affs, this`rows, this`history
      ensures Valid() && old(history) <= history
      ensures reply.Ok? ==> Progress(rows0, rows, source, popAffil, done + {prim}, order + [prim])
      ensures reply.Err? ==> !AllStay(rows0, source, popAffil)
      ensures reply.Err? ==> rows == old(rows) && Fails(rows, source, popAffil, prim, reply.error)
      ensures affs == old(affs) + {prim}
    {
      ghost var k := Key(prim.0, prim.1, source);
      assert k in rows0 && Precedences(rows) == Precedences(rows0) ==>
          k in Precedences(rows) && rows[k].precedence == Precedences(rows0)[k] == rows0[k].precedence;
      reply := AddAffiliation(Key(prim.0, prim.1, source), popAffil[prim].status, popAffil[prim].setting);
      if reply.Ok? {
        assert Consistent(old(rows));
        PutAdvances(rows0, old(rows), rows, source, popAffil, done, prim);
        AddsOneMore(rows0, old(rows), rows, source, popAffil, done, order, prim);
      }
    }

    /** Add one of the affiliations still to be written, and strike it from the index of what was there. */
    method WriteNext(source: int, popAffil: Populated, todo: set<(int, int)>, dbAffil: map<Idx, bool>,
                     dbPrim: map<(int, int), Idx>, ghost rows0: Rows, ghost order: seq<(int, int)>)
      returns (prim: (int, int), reply: Result<Reply, Failure>, left: map<Idx, bool>)
      requires Valid() && todo <= popAffil.Keys && todo != {}
      requires Progress(rows0, rows, source, popAffil, popAffil.Keys - todo, order)
      requires Indexed(rows0, source, popAffil.Keys - todo, dbAffil) && PrimIndexed(rows0, source, dbPrim)
      modifies this`affs, this`rows, this`history
      ensures Valid() && old(history) <= history && affs == old(affs) + {prim} && prim in todo
      ensures reply.Ok? ==>
                && Progress(rows0, rows, source, popAffil, popAffil.Keys - (todo - {prim}), order + [prim])
                && Indexed(rows0, source, popAffil.Keys - (todo - {prim}), left)
      ensures reply.Err? ==> !AllStay(rows0, source, popAffil)
      ensures reply.Err? ==> rows == old(rows) && Fails(rows, source, popAffil, prim, reply.error)
    {
      ghost var _ := HasMember(todo);
      prim :| prim in todo;
      ghost var done := popAffil.Keys - todo;
      assert done + {prim} == popAffil.Keys - (todo - {prim});
      reply := WriteOne(source, popAffil, prim, rows0, done, order);
      left := Strike(dbAffil, dbPrim, prim, popAffil[prim].status, rows0, source, done);
    }

    /** Add all that was populated, and strike it from the index of what was there. */
    method WritePopulated(source: int, popAffil: Populated, index: map<Idx, bool>, dbPrim: map<(int, int), Idx>)
      returns (failure: Option<Failure>, dbAffil: map<Idx, bool>, ghost done: set<(int, int)>, ghost order: seq<(int, int)>)
      requires Valid()
      requires Indexed(rows, source, {}, index) && PrimIndexed(rows, source, dbPrim)
      modifies this`affs, this`rows, this`history
      ensures Valid() && old(history) <= history
      ensures done <= popAffil.Keys && Progress(old(rows), rows, source, popAffil, done, order)
      ensures failure.None? ==> done == popAffil.Keys && Indexed(old(rows), source, done, dbAffil)
      ensures failure.Some? ==> exists a :: a in popAffil && a !in done && Fails(rows, source, popAffil, a, failure.value)
      ensures failure.Some? ==> !AllStay(old(rows), source, popAffil)
      ensures affs <= old(affs) + popAffil.Keys
    {
      dbAffil, order := index, [];
      var todo := popAffil.Keys;
      assert popAffil.Keys - todo == {};
      while todo != {}
        invariant Valid() && old(history) <= history && todo <= popAffil.Keys && affs <= old(affs) + popAffil.Keys
        invariant Progress(old(rows), rows, source, popAffil, popAffil.Keys - todo, order)
        invariant Indexed(old(rows), source, popAffil.Keys - todo, dbAffil)
      {
        var prim, reply, left := WriteNext(source, popAffil, todo, dbAffil, dbPrim, old(rows), order);
        if reply.Err? {
          return Some(reply.error), dbAffil, popAffil.Keys - todo, order;
        }
        dbAffil, order, todo := left, order + [prim], todo - {prim};
      }
      failure, done := None, popAffil.Keys - todo;
    }

    /** Mark as deleted all that is left in the index and is not deleted yet. */
    method DeleteLeft(source: int, dbAffil: map<Idx, bool>)
      requires Valid()
      requires forall i :: i in dbAffil ==>
                 var k := Key(i.prim.0, i.prim.1, source);
                 k in rows && rows[k].status == i.status && rows[k].deleted == dbAffil[i]
      modifies this`rows, this`history
      ensures Valid() && old(history) <= history
      ensures Swept(old(rows), rows, source, dbAffil.Keys)
      ensures Precedences(rows) == old(Precedences(rows))
    {
      ghost var swept := {};
      var left := dbAffil.Keys;
      while left != {}
        invariant Valid() && old(history) <= history
        invariant swept !! left && swept + left == dbAffil.Keys
        invariant Swept(old(rows), rows, source, swept)
        invariant Precedences(rows) == old(Precedences(rows))
      {
        var idx :| idx in left;
        if !dbAffil[idx] {
          var found := DeleteAffiliation(Key(idx.prim.0, idx.prim.1, source));
          assert found;
        }
        swept, left := swept + {idx}, left - {idx};
      }
    }

    /**
     Bring the rows of `source` in line with what was populated: add, revive or
     re-status the populated affiliations, in some order and each with the
     precedence that the rules choose for it then, and mark the others as deleted.
     Stops at the first affiliation whose precedence cannot be worked out.
     */
    method WriteDb(source: int, popAffil: Populated) returns (failure: Option<Failure>)
      requires Valid()
      modifies this`affs, this`rows, this`history
      ensures Valid() && old(history) <= history
      ensures Wrote(old(rows), rows, source, popAffil, failure.None?)
      ensures exists written, order ::
                && Added(old(rows), written, source, popAffil, order, failure)
                && (if failure.None? then Precedences(rows) == Precedences(written) else rows == written)
      ensures AllResolvable(source, popAffil) ==> failure.None?
      ensures old(NoOrphans()) && failure.None? ==> NoOrphans()
    {
      var dbAffil, dbPrim := IndexSource(source);
      ghost var done, order;
      failure, dbAffil, done, order := WritePopulated(source, popAffil, dbAffil, dbPrim);
      assert Added(old(rows), rows, source, popAffil, order, failure);
      ghost var written := rows;
      if AllResolvable(source, popAffil) {
        ResolvableNeverFails(old(rows), rows, source, popAffil, order, failure);
      }
      if failure.None? {
        LeftIsThere(old(rows), written, source, popAffil, dbAffil);
        DeleteLeft(source, dbAffil);
        WriteDone(old(rows), written, rows, source, popAffil, dbAffil);
        SyncedMeansLive(old(rows), rows, source, popAffil);
        SyncedIsNeeded(old(rows), rows, source, popAffil, affs);
      }
    }
  }

  /** Rules that give every affiliation a slot in the range from 0 to 100. */
  const ANY_SLOT := Config(Node(map[ANY := Node(map[ANY := Leaf(Range(0, 100, None))])]), None)

  const PLAIN := Codes(_ => "source", _ => "affiliation", _ => "status")

  /** With these rules a row with precedence 0 is to look for a slot. */
  lemma AnySlotIsLookedFor()
    ensures Resolve(ANY_SLOT, Request("source", "affiliation", "status", None), Some(0), 3) == Ok(FindIn(0, 100, 5))
  {
    var keys := ["source", "affiliation", "status"];
    var range := Leaf(Range(0, 100, None));
    assert keys[1..] == ["affiliation", "status"] && keys[1..][1..] == ["status"];
    assert Search(Node(map[ANY := range]), keys[1..]) == Some(range);
    assert Search(ANY_SLOT.rules, keys) == Some(range);
    assert ["source"] + ["affiliation", "status"] == keys;
  }

  method NewPerson() returns (t: PersonAffiliations)
    ensures fresh(t) && t.Valid() && t.rows == map[] && t.cfg == ANY_SLOT && t.codes == PLAIN && t.depth == 3
  {
    t := new PersonAffiliations(ANY_SLOT, PLAIN, 3);
  }

  /** Put an affiliation with the given precedence into a table without rows. */
  method FirstAt(t: PersonAffiliations, k: Key, p: int)
    requires t.Valid() && t.rows == map[] && t.depth > 0
    modifies t
    ensures t.Valid() && t.rows == map[k := Row(1, p, false)]
  {
    ghost var was := t.rows;
    var r := t.AddAffiliation(k, 1, Some(Exact(p)));
    assert r.Ok?;
    assert t.rows.Keys - {k} == (t.rows - {k}).Keys == (was - {k}).Keys == {};
    assert t.rows == map[k := t.rows[k]];
  }

  /** A row with precedence 0 moves though nothing is asked for. */
  method ZeroRowMoves() returns (t: PersonAffiliations, k: Key)
    ensures t.Valid() && k in t.rows && t.rows[k].precedence != 0
    ensures exists i :: 0 <= i < |t.history| && k in t.history[i] && t.history[i][k].precedence == 0
  {
    k := Key(1, 1, 1);
    t := NewPerson();
    FirstAt(t, k, 0);
    ghost var i := |t.history| - 1;
    AnySlotIsLookedFor();
    ZeroIsNoPrecedence(ANY_SLOT, Request("source", "affiliation", "status", None), 3);
    t.ResolvableMeaning(k, 1, None);
    t.AnswerMeaning(k, 1, None, Some(0), Precedences(t.rows).Values, Given(0));
    assert Precedences(t.rows)[k] == 0;
    ghost var before := t.rows;
    var r := t.AddAffiliation(k, 1, None);
    assert r.Ok? && t.history[i][k].precedence == 0;
  }

  /** The slot that is found for the range from 0 to 5 is not in it. */
  method SlotPastItsRange() returns (t: PersonAffiliations, k: Key)
    ensures t.Valid() && k in t.rows && t.rows[k].precedence >= 5
  {
    k := Key(2, 1, 1);
    t := NewPerson();
    FirstAt(t, Key(1, 1, 1), 4);
    ghost var taken := Precedences(t.rows).Values;
    assert Precedences(t.rows)[Key(1, 1, 1)] == 4 && 4 in taken;
    var r := t.AddAffiliation(k, 1, Some(Range(0, 5, None)));
    ghost var base := AllocatedSlot(taken, 0, 5, 5, t.rows[k].precedence);
  }

  /** With a step of 0 and the only slot of the range taken, none is ever found. */
  method StepOfZeroNeverEnds() returns (r: Result<Reply, Failure>)
    ensures r == Err(NeverEnds)
  {
    var k := Key(2, 1, 1);
    var t := NewPerson();
    FirstAt(t, Key(1, 1, 1), 0);
    assert Precedences(t.rows)[Key(1, 1, 1)] == 0 && Precedences(t.rows) == map[Key(1, 1, 1) := 0];
    assert IsBase(Precedences(t.rows).Values, 0, 1, 0);
    r := t.AddAffiliation(k, 1, Some(Range(0, 1, Some(0))));
  }
}
