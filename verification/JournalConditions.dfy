/** When a commit condition is single-use over whole runs, and how an oversized head
    opens a used one again. */
module JournalConditions {
  import opened Common
  import opened JournalModel
  import opened JournalRuns

  // ---- The head a commit writes ----

  function NewHead(t: Tables, op: Op): HeadRecord
    requires Commits(t, op)
  {
    if op.Append? then StampedHead(Seen(t, CommitId(op), op.append.condition), op.append)
    else RebasedHead(Seen(t, CommitId(op), op.rebase.condition), op.rebase)
  }

  predicate HeadFits(t: Tables, op: Op)
    requires Commits(t, op)
  {
    HeadRowBytes(NewHead(t, op)) <= MAX_HEAD_ROW_BYTES
  }

  /** Where a corpus stands within a generation: an unreadable head, no head, or a
      head at some revision. */
  function Standing(t: Tables, id: CorpusId): nat {
    if HeadKey(id) !in t.journal then 1
    else match ReadableHead(t, id) case None => 0 case Some(h) => 2 + h.revision
  }

  predicate Before(t: Tables, t': Tables, id: CorpusId) {
    t.generation < t'.generation
    || (t.generation == t'.generation && Standing(t, id) < Standing(t', id))
  }

  predicate NotAfter(t: Tables, t': Tables, id: CorpusId) {
    Before(t, t', id) || (t.generation == t'.generation && Standing(t, id) == Standing(t', id))
  }

  /** (generation, revision) strictly increases on a commit exactly when the head it
      writes fits. */
  lemma CommitAdvances(t: Tables, op: Op)
    requires Commits(t, op)
    ensures Before(t, Step(t, op), CommitId(op)) <==> HeadFits(t, op)
  {
    if op.Append? { AppendHeadIsValid(t, op.append); }
  }

  // ---- Runs in which heads fit ----

  /** The operation commits to the corpus, with a head too large to be read back. */
  predicate Oversizes(states: seq<Tables>, ops: seq<Op>, id: CorpusId, k: nat)
    requires k < |ops| && |states| == |ops| + 1
  {
    Commits(states[k], ops[k]) && CommitId(ops[k]) == id && !HeadFits(states[k], ops[k])
  }

  predicate OversizedBetween(states: seq<Tables>, ops: seq<Op>, id: CorpusId, i: nat, j: nat)
    requires i <= j <= |ops| && |states| == |ops| + 1
  {
    exists k :: i <= k < j && Oversizes(states, ops, id, k)
  }

  lemma {:induction false} RunNeverGoesBack(states: seq<Tables>, ops: seq<Op>, id: CorpusId, i: nat, j: nat)
    requires IsRun(states, ops) && i <= j <= |ops| && !OversizedBetween(states, ops, id, i, j)
    ensures NotAfter(states[i], states[j], id)
    decreases j
  {
    if i < j {
      RunNeverGoesBack(states, ops, id, i, j - 1);
      assert StepAt(states, ops, j - 1) && !Oversizes(states, ops, id, j - 1);
      if Commits(states[j - 1], ops[j - 1]) && CommitId(ops[j - 1]) == id {
        CommitAdvances(states[j - 1], ops[j - 1]);
      }
    }
  }

  /** A condition that commits pins down exactly where its corpus stands. */
  lemma ConditionFixesStanding(t: Tables, op: Op, t': Tables, op': Op)
    requires Commits(t, op) && Commits(t', op')
    requires CommitId(op) == CommitId(op') && CommitCondition(op) == CommitCondition(op')
    ensures t.generation == t'.generation
    ensures Standing(t, CommitId(op)) == Standing(t', CommitId(op))
  {
    var id, e := CommitId(op), CommitCondition(op).state;
    if e.CorruptState? {
      assert Rows(t, id) == e.token.rows == Rows(t', id);
      assert HeadKey(id) in t.journal <==> HeadKey(id) in Rows(t, id);
      assert HeadKey(id) in t'.journal <==> HeadKey(id) in Rows(t', id);
      assert HeadKey(id) in t.journal ==> t.journal[HeadKey(id)] == Rows(t, id)[HeadKey(id)];
    }
  }

  // ---- Conditions on a journal that was never rebased ----

  /** Conditions that expect no journal, or a head over an implicit base. */
  predicate Unrebased(e: ExpectedState) {
    e.NoValidBase? || e.ImplicitBase? || (e.ExpectedHead? && e.baseRevision == 0)
  }

  /** Progress that no oversized head undoes: no head, revisions over an implicit base,
      and then anything else. */
  function Progress(t: Tables, id: CorpusId): nat {
    if HeadKey(id) !in t.journal then 0
    else match ReadableHead(t, id)
         case Some(h) => if h.baseRevision == 0 then 1 + h.revision else 2 + U64_MAX
         case None => 2 + U64_MAX
  }

  lemma StepNeverLosesProgress(t: Tables, op: Op, id: CorpusId)
    ensures t.generation <= Step(t, op).generation
    ensures t.generation == Step(t, op).generation ==> Progress(t, id) <= Progress(Step(t, op), id)
  {
  }

  lemma {:induction false} RunNeverLosesProgress(states: seq<Tables>, ops: seq<Op>, id: CorpusId, i: nat, j: nat)
    requires IsRun(states, ops) && i <= j <= |ops|
    ensures states[i].generation <= states[j].generation
    ensures states[i].generation == states[j].generation ==> Progress(states[i], id) <= Progress(states[j], id)
    decreases j
  {
    if i < j {
      RunNeverLosesProgress(states, ops, id, i, j - 1);
      assert StepAt(states, ops, j - 1);
      StepNeverLosesProgress(states[j - 1], ops[j - 1], id);
    }
  }

  lemma UnrebasedCommitMakesProgress(t: Tables, op: Op)
    requires Commits(t, op) && Unrebased(CommitCondition(op).state)
    ensures Step(t, op).generation == t.generation && Progress(t, CommitId(op)) < Progress(Step(t, op), CommitId(op))
  {
  }

  lemma UnrebasedConditionFixesProgress(t: Tables, op: Op, t': Tables, op': Op)
    requires Commits(t, op) && Commits(t', op') && Unrebased(CommitCondition(op).state)
    requires CommitId(op) == CommitId(op') && CommitCondition(op) == CommitCondition(op')
    ensures t.generation == t'.generation && Progress(t, CommitId(op)) == Progress(t', CommitId(op))
  {
  }

  // ---- Single use ----

  /** Over any run from any tables, however corrupt: a commit condition is applied twice
      to the same corpus only if it expects corruption or a rebased head, and some commit
      to that corpus since its first use wrote an oversized head. */
  lemma ConditionsAreSingleUse(states: seq<Tables>, ops: seq<Op>, i: nat, j: nat)
    requires IsRun(states, ops) && i < j < |ops|
    requires Commits(states[i], ops[i]) && Commits(states[j], ops[j])
    requires CommitId(ops[i]) == CommitId(ops[j]) && CommitCondition(ops[i]) == CommitCondition(ops[j])
    ensures !Unrebased(CommitCondition(ops[i]).state)
    ensures OversizedBetween(states, ops, CommitId(ops[i]), i, j)
  {
    var id := CommitId(ops[i]);
    assert StepAt(states, ops, i);
    if Unrebased(CommitCondition(ops[i]).state) {
      UnrebasedConditionFixesProgress(states[i], ops[i], states[j], ops[j]);
      UnrebasedCommitMakesProgress(states[i], ops[i]);
      RunNeverLosesProgress(states, ops, id, i + 1, j);
      assert false;
    }
    if !OversizedBetween(states, ops, id, i, j) {
      assert !Oversizes(states, ops, id, i);
      CommitAdvances(states[i], ops[i]);
      RunNeverGoesBack(states, ops, id, i + 1, j);
      ConditionFixesStanding(states[i], ops[i], states[j], ops[j]);
      assert false;
    }
  }

  // ---- An oversized head opens its condition again ----

  /** Every head over this corpus record fits. */
  ghost predicate HeadsFit(corpus: BaseRecord) {
    forall h: HeadRecord :: h.corpus == corpus ==> HeadRowBytes(h) <= MAX_HEAD_ROW_BYTES
  }

  /** The head of a journal without deltas or blocked snapshot. */
  function BareHead(e: ExpectedState, corpus: BaseRecord): HeadRecord
    requires e.ExpectedHead?
  {
    HeadRecord(FORMAT_VERSION, e.revision, e.baseRevision, e.basePayloadHash, e.eventCursor, e.leafCursor,
               None, None, 0, 0, corpus)
  }

  /** What climbing back to a used condition works with. */
  datatype Repair = Repair(condition: Condition, base: BaseRecord, now: U64) {
    ghost predicate Valid() {
      && condition.state.ExpectedHead?
      && 0 < condition.state.baseRevision <= condition.state.revision < U64_MAX
      && 0 < condition.state.eventCursor
      && base.tipIndex == condition.state.eventCursor - 1 && base.tipRoot == condition.state.tipRoot
      && Keccak(base.payload) == condition.state.basePayloadHash
      && HeadsFit(Corpus())
    }

    function Corpus(): BaseRecord {
      base.(generation := condition.generation, updatedAt := now, payload := [])
    }

    /** The condition of the same head at other revisions. */
    function At(revision: U64, baseRevision: U64): Condition
      requires condition.state.ExpectedHead?
    {
      condition.(state := condition.state.(revision := revision, baseRevision := baseRevision))
    }

    function RebaseWith(c: Condition): Op
      requires condition.state.ExpectedHead?
    {
      Rebase(RebaseRequest(base, condition.state.eventCursor, condition.state.leafCursor, c, now))
    }

    /** The rebase that repairs the corpus as an inspection of the tables found it. */
    function Repairing(t: Tables): Op
      requires condition.state.ExpectedHead?
    {
      RebaseWith(condition.(state := CorruptState(TokenOf(t, base.id))))
    }

    function EmptyAppend(revision: U64): Op
      requires condition.state.ExpectedHead?
    {
      Append(AppendRequest(BareHead(condition.state, Corpus()), None, None,
                           At(revision, condition.state.baseRevision), now))
    }
  }

  /** The tables hold the base and the bare head of the repair at the given revisions,
      and nothing else of the corpus. */
  predicate Holds(t: Tables, x: Repair, revision: U64, baseRevision: U64)
    requires x.condition.state.ExpectedHead?
  {
    && ConflictWith(t, x.condition).None?
    && x.base.id in t.bases && t.bases[x.base.id] == StoredBase(x.Corpus().(payload := x.base.payload))
    && HeadKey(x.base.id) in t.journal
    && t.journal[HeadKey(x.base.id)] == HeadRow(BareHead(x.At(revision, baseRevision).state, x.Corpus()))
    && forall k :: k in t.journal && k.id == x.base.id ==> k == HeadKey(x.base.id)
  }

  lemma HeldHeadIsReadable(t: Tables, x: Repair, revision: U64, baseRevision: U64)
    requires x.Valid() && Holds(t, x, revision, baseRevision) && baseRevision <= revision
    ensures ReadableHead(t, x.base.id) == Some(BareHead(x.At(revision, baseRevision).state, x.Corpus()))
  {
  }

  /** Repairing an unreadable head starts again at revision 1. */
  lemma RepairRestarts(t: Tables, x: Repair)
    requires x.Valid() && ConflictWith(t, x.condition).None? && ReadableHead(t, x.base.id).None?
    ensures Commits(t, x.Repairing(t)) && Holds(Step(t, x.Repairing(t)), x, 1, 1)
  {
  }

  lemma RebaseClimbs(t: Tables, x: Repair, r: U64)
    requires x.Valid() && Holds(t, x, r, r) && r < U64_MAX
    ensures var op := x.RebaseWith(x.At(r, r));
            Commits(t, op) && Holds(Step(t, op), x, r + 1, r + 1)
  {
    HeldHeadIsReadable(t, x, r, r);
  }

  lemma AppendClimbs(t: Tables, x: Repair, r: U64)
    requires x.Valid() && Holds(t, x, r, x.condition.state.baseRevision)
    requires x.condition.state.baseRevision <= r < U64_MAX
    ensures var op := x.EmptyAppend(r);
            Commits(t, op) && Holds(Step(t, op), x, r + 1, x.condition.state.baseRevision)
  {
    HeldHeadIsReadable(t, x, r, x.condition.state.baseRevision);
  }

  lemma Extended(states: seq<Tables>, ops: seq<Op>, op: Op)
    requires IsRun(states, ops)
    ensures IsRun(states + [Step(states[|ops|], op)], ops + [op])
  {
    var states', ops' := states + [Step(states[|ops|], op)], ops + [op];
    forall i | 0 <= i < |ops'| ensures StepAt(states', ops', i) {
      if i < |ops| { assert StepAt(states, ops, i); }
    }
  }

  /** Rebases lift the head to the base revision of the condition. */
  lemma {:induction false} ClimbByRebases(states: seq<Tables>, ops: seq<Op>, x: Repair, r: U64)
    returns (states': seq<Tables>, ops': seq<Op>)
    requires x.Valid() && IsRun(states, ops) && Holds(states[|ops|], x, r, r) && 0 < r <= x.condition.state.baseRevision
    ensures IsRun(states', ops') && states <= states' && ops <= ops'
    ensures Holds(states'[|ops'|], x, x.condition.state.baseRevision, x.condition.state.baseRevision)
    decreases x.condition.state.baseRevision - r
  {
    states', ops' := states, ops;
    if r < x.condition.state.baseRevision {
      var op := x.RebaseWith(x.At(r, r));
      RebaseClimbs(states[|ops|], x, r);
      Extended(states, ops, op);
      states', ops' := ClimbByRebases(states + [Step(states[|ops|], op)], ops + [op], x, r + 1);
    }
  }

  /** Empty appends lift it to the revision of the condition. */
  lemma {:induction false} ClimbByAppends(states: seq<Tables>, ops: seq<Op>, x: Repair, r: U64)
    returns (states': seq<Tables>, ops': seq<Op>)
    requires x.Valid() && IsRun(states, ops) && Holds(states[|ops|], x, r, x.condition.state.baseRevision)
    requires x.condition.state.baseRevision <= r <= x.condition.state.revision
    ensures IsRun(states', ops') && states <= states' && ops <= ops'
    ensures Holds(states'[|ops'|], x, x.condition.state.revision, x.condition.state.baseRevision)
    decreases x.condition.state.revision - r
  {
    states', ops' := states, ops;
    if r < x.condition.state.revision {
      var op := x.EmptyAppend(r);
      AppendClimbs(states[|ops|], x, r);
      Extended(states, ops, op);
      states', ops' := ClimbByAppends(states + [Step(states[|ops|], op)], ops + [op], x, r + 1);
    }
  }

  /** From an unreadable head the tables can be brought to meet the condition again. */
  lemma ClimbBack(states: seq<Tables>, ops: seq<Op>, x: Repair) returns (states': seq<Tables>, ops': seq<Op>)
    requires x.Valid() && IsRun(states, ops)
    requires ConflictWith(states[|ops|], x.condition).None? && ReadableHead(states[|ops|], x.base.id).None?
    ensures IsRun(states', ops') && states <= states' && ops <= ops' && |ops| < |ops'|
    ensures ops'[|ops|] == x.Repairing(states[|ops|]) && Commits(states[|ops|], ops'[|ops|])
    ensures Holds(states'[|ops'|], x, x.condition.state.revision, x.condition.state.baseRevision)
  {
    var t := states[|ops|];
    var op := x.Repairing(t);
    RepairRestarts(t, x);
    Extended(states, ops, op);
    states', ops' := ClimbByRebases(states + [Step(t, op)], ops + [op], x, 1);
    states', ops' := ClimbByAppends(states', ops', x, x.condition.state.baseRevision);
  }

  /** What committed once commits wherever its condition holds of a bare head. */
  lemma CommitsAgain(t: Tables, op: Op, t': Tables, x: Repair)
    requires Commits(t, op) && x.Valid() && x.condition == CommitCondition(op) && x.base.id == CommitId(op)
    requires Holds(t', x, x.condition.state.revision, x.condition.state.baseRevision)
    ensures Commits(t', op)
  {
    HeldHeadIsReadable(t', x, x.condition.state.revision, x.condition.state.baseRevision);
  }

  lemma OversizedIsUnreadable(t: Tables, op: Op)
    requires Commits(t, op) && !HeadFits(t, op)
    ensures ReadableHead(Step(t, op), CommitId(op)).None?
    ensures CommitCondition(op).state.ExpectedHead? ==> ConflictWith(Step(t, op), CommitCondition(op)).None?
  {
  }

  /** The operation opens and closes the run, and commits both times. */
  predicate CommitsTwice(states: seq<Tables>, ops: seq<Op>, op: Op) {
    && IsRun(states, ops) && |ops| > 1 && ops[0] == ops[|ops| - 1] == op
    && Commits(states[0], ops[0]) && Commits(states[|ops| - 1], ops[|ops| - 1])
  }

  /** Any commit on a rebased head, at any revision, whose own head row is too large: its
      corpus then reads as corrupt, the repair restarts at revision 1, and after enough
      rebases and appends the very same operation commits a second time. The payload of
      the base is one whose hash the condition names. */
  lemma OversizedHeadReopensCondition(t: Tables, op: Op, base: BaseRecord, now: U64)
    requires Commits(t, op) && CommitCondition(op).state.ExpectedHead? && CommitCondition(op).state.baseRevision > 0
    requires !HeadFits(t, op)
    requires base.id == CommitId(op) && Keccak(base.payload) == CommitCondition(op).state.basePayloadHash
    requires base.tipIndex == CommitCondition(op).state.eventCursor - 1 && base.tipRoot == CommitCondition(op).state.tipRoot
    requires HeadsFit(base.(generation := CommitCondition(op).generation, updatedAt := now, payload := []))
    ensures exists states, ops :: CommitsTwice(states, ops, op) && states[0] == t
  {
    var x := Repair(CommitCondition(op), base, now);
    OversizedIsUnreadable(t, op);
    Extended([t], [], op);
    var states, ops := ClimbBack([t, Step(t, op)], [op], x);
    CommitsAgain(t, op, states[|ops|], x);
    Extended(states, ops, op);
    assert CommitsTwice(states + [Step(states[|ops|], op)], ops + [op], op);
  }

  /** The token of the corrupt corpus is the same each time. */
  lemma SameToken(t: Tables, t': Tables, a: AppendRequest, x: Repair)
    requires AppendApplies(t, a) && AppendApplies(t', a) && a.condition.state.ExpectedHead?
    requires x.Valid() && x.condition == a.condition && x.base.id == a.head.corpus.id
    requires Holds(t, x, a.condition.state.revision, a.condition.state.baseRevision)
    requires Holds(t', x, a.condition.state.revision, a.condition.state.baseRevision)
    ensures TokenOf(AfterAppend(t, a), x.base.id) == TokenOf(AfterAppend(t', a), x.base.id)
    ensures HeadFits(t, Append(a)) <==> HeadFits(t', Append(a))
  {
    SameSeen(t, t', a, x);
    SameRows(t, t', a, x);
  }

  lemma SameSeen(t: Tables, t': Tables, a: AppendRequest, x: Repair)
    requires AppendApplies(t, a) && AppendApplies(t', a) && a.condition.state.ExpectedHead?
    requires x.Valid() && x.condition == a.condition && x.base.id == a.head.corpus.id
    requires Holds(t, x, a.condition.state.revision, a.condition.state.baseRevision)
    requires Holds(t', x, a.condition.state.revision, a.condition.state.baseRevision)
    ensures Seen(t, x.base.id, a.condition) == Seen(t', x.base.id, a.condition)
  {
    HeldHeadIsReadable(t, x, a.condition.state.revision, a.condition.state.baseRevision);
    HeldHeadIsReadable(t', x, a.condition.state.revision, a.condition.state.baseRevision);
  }

  lemma SameRows(t: Tables, t': Tables, a: AppendRequest, x: Repair)
    requires AppendApplies(t, a) && AppendApplies(t', a) && a.condition.state.ExpectedHead?
    requires x.condition == a.condition && x.base.id == a.head.corpus.id
    requires Holds(t, x, a.condition.state.revision, a.condition.state.baseRevision)
    requires Holds(t', x, a.condition.state.revision, a.condition.state.baseRevision)
    requires Seen(t, x.base.id, a.condition) == Seen(t', x.base.id, a.condition)
    ensures Rows(AfterAppend(t, a), x.base.id) == Rows(AfterAppend(t', a), x.base.id)
  {
  }

  /** The operation commits at both places of the run. */
  predicate CommitsAt(states: seq<Tables>, ops: seq<Op>, op: Op, i: nat, j: nat) {
    && IsRun(states, ops) && i < j < |ops| && ops[i] == ops[j] == op
    && Commits(states[i], op) && Commits(states[j], op)
  }

  /** The repair of an oversized head can itself commit twice: where the append is made
      on a bare head, the climb leads back to it and the append breaks it the same way. */
  lemma OversizedHeadReopensRepair(t: Tables, a: AppendRequest, x: Repair)
    requires AppendApplies(t, a) && !HeadFits(t, Append(a)) && a.condition.state.ExpectedHead?
    requires x.Valid() && x.condition == a.condition && x.base.id == a.head.corpus.id
    requires Holds(t, x, a.condition.state.revision, a.condition.state.baseRevision)
    ensures exists states, ops, i, j :: CommitsAt(states, ops, x.Repairing(AfterAppend(t, a)), i, j) && states[0] == t
  {
    var t1 := AfterAppend(t, a);
    OversizedIsUnreadable(t, Append(a));
    Extended([t], [], Append(a));
    var states, ops := ClimbBack([t, t1], [Append(a)], x);
    var n := |ops|;
    CommitsAgain(t, Append(a), states[n], x);
    SameToken(t, states[n], a, x);
    OversizedIsUnreadable(states[n], Append(a));
    Extended(states, ops, Append(a));
    var states', ops' := ClimbBack(states + [AfterAppend(states[n], a)], ops + [Append(a)], x);
    assert states'[1] == states[1] == t1 && ops'[1] == ops[1];
    assert CommitsAt(states', ops', x.Repairing(t1), 1, n + 1);
  }

  // ---- Oversized heads are there ----

  /** The append with other descriptive text in its head. */
  function Describing(a: AppendRequest, meta: string): AppendRequest {
    a.(head := a.head.(corpus := a.head.corpus.(meta := meta)))
  }

  /** No writer bounds the text: every append also commits with one that makes its head
      too large. */
  lemma LongTextCommits(t: Tables, a: AppendRequest, meta: string)
    requires AppendApplies(t, a) && |meta| > MAX_HEAD_ROW_BYTES
    ensures AppendApplies(t, Describing(a, meta)) && !HeadFits(t, Append(Describing(a, meta)))
  {
  }
}
