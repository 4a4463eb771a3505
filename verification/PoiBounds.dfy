/** Leaves stay below the cursor, exactly until one is placed at the last 64-bit index. */
module PoiBounds {
  import opened Common
  import opened Merkle
  import opened PoiModel
  import opened PoiInvariants

  /** Every leaf of the forest lies below the leaf cursor. */
  predicate LeavesBelowCursor(s: Snapshot) {
    forall t, p :: t in s.forest && p in s.forest[t].leaves ==> t * LEAVES + p < s.nextLeaf
  }

  /** While the cursor has not passed the indices that have a place of their own. */
  predicate BelowWhileUnique(s: Snapshot) {
    s.nextLeaf <= INDEX_LIMIT ==> LeavesBelowCursor(s)
  }

  // ---- One leaf ----

  lemma PlaceLeafBelow(s: Snapshot, g: U64, leaf: Word, next: U64)
    requires BelowWhileUnique(s) && s.nextLeaf <= next && (g < next || next == INDEX_LIMIT)
    ensures BelowWhileUnique(PlaceLeaf(s, g, leaf).(nextLeaf := next))
  {
    if next <= INDEX_LIMIT {
      PlaceNumber(g);
      var after := PlaceLeaf(s, g, leaf).(nextLeaf := next);
      forall t, p | t in after.forest && p in after.forest[t].leaves ensures t * LEAVES + p < next {
        if t == TreeOf(g) && p == PositionOf(g) {
        } else {
          assert t in s.forest && p in s.forest[t].leaves;
        }
      }
    }
  }

  /** The place of the last 64-bit index holds a leaf. */
  predicate LastPlaceTaken(forest: Forest) {
    TREE_NUMBERS - 1 in forest && LEAVES - 1 in forest[TREE_NUMBERS - 1].leaves
  }

  lemma LastPlace()
    ensures TreeOf(U64_MAX) == TREE_NUMBERS - 1 && PositionOf(U64_MAX) == LEAVES - 1
    ensures (TREE_NUMBERS - 1) * LEAVES + (LEAVES - 1) == INDEX_LIMIT - 1
  {
  }

  lemma TakenIsAbove(s: Snapshot)
    requires LastPlaceTaken(s.forest) && s.nextLeaf < INDEX_LIMIT
    ensures !BelowWhileUnique(s)
  {
    LastPlace();
  }

  /** A leaf at the last index does not move the cursor past itself. */
  lemma LastLeaf(s: Snapshot, leaf: Word)
    requires BelowWhileUnique(s)
    ensures LastPlaceTaken(PlaceLeaf(s, U64_MAX, leaf).forest)
    ensures BelowWhileUnique(PlaceLeaf(s, U64_MAX, leaf)) <==> s.nextLeaf >= INDEX_LIMIT
  {
    LastPlace();
    if s.nextLeaf == INDEX_LIMIT {
      PlaceLeafBelow(s, U64_MAX, leaf, s.nextLeaf);
      assert PlaceLeaf(s, U64_MAX, leaf).(nextLeaf := s.nextLeaf) == PlaceLeaf(s, U64_MAX, leaf);
    } else if s.nextLeaf < INDEX_LIMIT {
      TakenIsAbove(PlaceLeaf(s, U64_MAX, leaf));
    }
  }

  // ---- One operation ----

  /** The first leaf goes to the last index while the cursor is below the limit. */
  predicate LeavesEscape(next: U64, start: nat, ls: seq<Word>) {
    start == U64_MAX && ls != [] && ls[0] != 0 && next < INDEX_LIMIT
  }

  /** An event is at the last index, and neither the cursor nor an event before it has
      reached the limit. */
  predicate EventEscapes(next: U64, es: seq<Event>, k: nat) {
    && k < |es| && es[k].index == U64_MAX && next < INDEX_LIMIT
    && forall j :: 0 <= j < k ==> es[j].index + 1 < INDEX_LIMIT
  }

  predicate ArtifactEscapes(next: U64, es: seq<Event>) {
    exists k :: 0 <= k < |es| && EventEscapes(next, es, k)
  }

  lemma {:induction false} LeavesStayBelow(s: Snapshot, start: nat, ls: seq<Word>)
    requires BelowWhileUnique(s)
    ensures BelowWhileUnique(ApplyLeaves(s, start, ls).after) <==> !LeavesEscape(s.nextLeaf, start, ls)
    decreases |ls|
  {
    if ls != [] && start <= U64_MAX {
      if start == U64_MAX {
        if ls[0] != 0 { LastLeaf(s, ls[0]); }
      } else {
        var next := Max(s.nextLeaf, start + 1);
        var placed := if ls[0] == 0 then s else PlaceLeaf(s, start, ls[0]);
        if ls[0] != 0 { PlaceLeafBelow(s, start, ls[0], next); }
        LeavesStayBelow(placed.(nextLeaf := next), start + 1, ls[1..]);
      }
    }
  }

  lemma EscapeShifts(next: U64, es: seq<Event>)
    requires es != [] && es[0].index < U64_MAX
    ensures ArtifactEscapes(next, es) <==> ArtifactEscapes(Max(next, es[0].index + 1), es[1..])
  {
    var next', rest := Max(next, es[0].index + 1), es[1..];
    if ArtifactEscapes(next, es) {
      var k :| 0 <= k < |es| && EventEscapes(next, es, k);
      assert es[0].index + 1 < INDEX_LIMIT;
      assert EventEscapes(next', rest, k - 1);
    }
    if ArtifactEscapes(next', rest) {
      var k :| 0 <= k < |rest| && EventEscapes(next', rest, k);
      assert forall j :: 0 < j <= k ==> es[j] == rest[j - 1];
      assert EventEscapes(next, es, k + 1);
    }
  }

  lemma {:induction false} ArtifactStaysBelow(s: Snapshot, es: seq<Event>)
    requires BelowWhileUnique(s)
    ensures BelowWhileUnique(ApplyArtifact(s, es).after) <==> !ArtifactEscapes(s.nextLeaf, es)
    ensures ArtifactEscapes(s.nextLeaf, es) ==> LastPlaceTaken(ApplyArtifact(s, es).after.forest)
    decreases |es|
  {
    if es != [] {
      var e := es[0];
      if e.index == U64_MAX {
        LastLeaf(s, e.commitment);
        assert s.nextLeaf < INDEX_LIMIT ==> EventEscapes(s.nextLeaf, es, 0);
      } else {
        var next := Max(s.nextLeaf, e.index + 1);
        var placed := PlaceLeaf(s, e.index, e.commitment).(nextLeaf := next);
        PlaceLeafBelow(s, e.index, e.commitment, next);
        assert BelowWhileUnique(placed.(nextEvent := Max(s.nextEvent, e.index + 1)));
        EscapeShifts(s.nextLeaf, es);
        ArtifactStaysBelow(placed.(nextEvent := Max(s.nextEvent, e.index + 1)), es[1..]);
      }
    }
  }

  lemma DeltaStaysBelow(s: Snapshot, d: Delta)
    requires BelowWhileUnique(s) && CoherentForest(s.forest) && Acceptable(s, d)
    ensures BelowWhileUnique(ApplyDelta(s, d).after) && CoherentForest(ApplyDelta(s, d).after.forest)
  {
    var mid := ApplyEvents(s, d.events).after;
    EventsFrom(s, d.events);
    LeavesStayBelow(mid, d.leafStart, d.leaves);
    DeltaKeepsCoherent(s, d);
  }

  lemma DeltaKeepsCoherent(s: Snapshot, d: Delta)
    requires CoherentForest(s.forest) && Acceptable(s, d)
    ensures CoherentForest(ApplyDelta(s, d).after.forest)
  {
    var mid := ApplyEvents(s, d.events).after;
    EventsFrom(s, d.events);
    LeavesKeepForest(mid.(validation := Pending), d.leafStart, d.leaves);
    LeavesIgnoreValidation(mid, d.leafStart, d.leaves);
  }

  lemma {:induction false} LeavesIgnoreValidation(s: Snapshot, start: nat, ls: seq<Word>)
    ensures ApplyLeaves(s.(validation := Pending), start, ls).after.forest == ApplyLeaves(s, start, ls).after.forest
    decreases |ls|
  {
    if ls != [] && start < U64_MAX {
      var placed := if ls[0] == 0 then s else PlaceLeaf(s, start, ls[0]);
      LeavesIgnoreValidation(placed.(nextLeaf := Max(s.nextLeaf, start + 1)), start + 1, ls[1..]);
    }
  }

  /** The operation places a leaf at the last index, which is inserted before the cursor
      is found unable to pass it, while the cursor is below the limit. */
  predicate Escapes(s: Snapshot, op: Op) {
    match op
    case Leaves(start, ls) => LeavesEscape(s.nextLeaf, start, ls)
    case Artifact(es) => ArtifactEscapes(s.nextLeaf, es)
    case _ => false
  }

  /** An operation keeps leaves below the cursor exactly when it does not escape. */
  lemma StepStaysBelow(s: Snapshot, op: Op)
    requires BelowWhileUnique(s) && CoherentForest(s.forest)
    ensures BelowWhileUnique(Step(s, op)) <==> !Escapes(s, op)
  {
    match op
    case Events(es) => EventsKeepForest(s, es);
    case Leaves(start, ls) => LeavesStayBelow(s, start, ls);
    case Artifact(es) => ArtifactStaysBelow(s, es);
    case JournalDelta(d) => if Acceptable(s, d) { DeltaStaysBelow(s, d); }
    case AddBlocked(list) => BlockedKeepsForest(s, list);
    case SetBlocked(list) => BlockedKeepsForest(Unblocked(s), list);
    case AcceptRoots =>
    case JudgeRoots(_) =>
  }

  // ---- Whole runs ----

  /** No place is ever given up, and every place has a number below the limit. */
  predicate Keeps(forest: Forest, after: Forest) {
    && (forall t, p :: t in forest && p in forest[t].leaves ==> Taken(after, t, p))
    && (InRange(forest) ==> InRange(after))
  }

  predicate Taken(forest: Forest, t: nat, p: nat) {
    t in forest && p in forest[t].leaves
  }

  predicate InRange(forest: Forest) {
    forall t, p :: t in forest && p in forest[t].leaves ==> t < TREE_NUMBERS && p < LEAVES
  }

  lemma PlacingKeeps(s: Snapshot, g: U64, leaf: Word)
    ensures Keeps(s.forest, PlaceLeaf(s, g, leaf).forest)
  {
  }

  lemma KeepsAgain(a: Forest, b: Forest, c: Forest)
    requires Keeps(a, b) && Keeps(b, c)
    ensures Keeps(a, c)
  {
    forall t, p | t in a && p in a[t].leaves ensures Taken(c, t, p) {
      assert Taken(b, t, p);
    }
  }

  lemma {:induction false} LeavesKeepPlaces(s: Snapshot, start: nat, ls: seq<Word>)
    ensures Keeps(s.forest, ApplyLeaves(s, start, ls).after.forest)
    decreases |ls|
  {
    if ls != [] && start <= U64_MAX {
      var placed := if ls[0] == 0 then s else PlaceLeaf(s, start, ls[0]);
      PlacingKeeps(s, start, ls[0]);
      if start < U64_MAX {
        LeavesKeepPlaces(placed.(nextLeaf := Max(s.nextLeaf, start + 1)), start + 1, ls[1..]);
        KeepsAgain(s.forest, placed.forest, ApplyLeaves(s, start, ls).after.forest);
      }
    }
  }

  lemma {:induction false} ArtifactKeepsPlaces(s: Snapshot, es: seq<Event>)
    ensures Keeps(s.forest, ApplyArtifact(s, es).after.forest)
    decreases |es|
  {
    if es != [] {
      var e := es[0];
      var placed := PlaceLeaf(s, e.index, e.commitment);
      PlacingKeeps(s, e.index, e.commitment);
      if e.index < U64_MAX {
        ArtifactKeepsPlaces(placed.(nextEvent := Max(s.nextEvent, e.index + 1), nextLeaf := Max(s.nextLeaf, e.index + 1)), es[1..]);
        KeepsAgain(s.forest, placed.forest, ApplyArtifact(s, es).after.forest);
      }
    }
  }

  lemma StepKeepsPlaces(s: Snapshot, op: Op)
    ensures Keeps(s.forest, Step(s, op).forest)
  {
    match op
    case Events(es) => EventsKeepForest(s, es);
    case Leaves(start, ls) => LeavesKeepPlaces(s, start, ls);
    case Artifact(es) => ArtifactKeepsPlaces(s, es);
    case JournalDelta(d) =>
      EventsKeepForest(s, d.events);
      LeavesKeepPlaces(ApplyEvents(s, d.events).after, d.leafStart, d.leaves);
    case AddBlocked(list) => BlockedKeepsForest(s, list);
    case SetBlocked(list) => BlockedKeepsForest(Unblocked(s), list);
    case AcceptRoots =>
    case JudgeRoots(_) =>
  }

  lemma EscapeTakesLastPlace(s: Snapshot, op: Op)
    requires BelowWhileUnique(s) && Escapes(s, op)
    ensures LastPlaceTaken(Step(s, op).forest)
  {
    match op
    case Leaves(start, ls) => LastLeaf(s, ls[0]);
    case Artifact(es) => ArtifactStaysBelow(s, es);
  }

  /** Some operation of the run escaped, in the state it was applied to. */
  predicate EverEscapes(s: Snapshot, ops: seq<Op>)
    decreases |ops|
  {
    ops != [] && (EverEscapes(s, ops[..|ops| - 1]) || Escapes(Run(s, ops[..|ops| - 1]), ops[|ops| - 1]))
  }

  lemma {:induction false} PlacesOverRun(identity: Identity, ops: seq<Op>)
    ensures var s := Run(NewSnapshot(identity), ops);
            && InRange(s.forest)
            && if EverEscapes(NewSnapshot(identity), ops) then LastPlaceTaken(s.forest) else BelowWhileUnique(s)
    decreases |ops|
  {
    if ops != [] {
      var init, last := ops[..|ops| - 1], ops[|ops| - 1];
      var s := Run(NewSnapshot(identity), init);
      PlacesOverRun(identity, init);
      RootsNeverStale(identity, init);
      StepKeepsPlaces(s, last);
      if !EverEscapes(NewSnapshot(identity), init) {
        StepStaysBelow(s, last);
        if Escapes(s, last) { EscapeTakesLastPlace(s, last); }
      }
    }
  }

  /** Over every run from an empty cache whose cursor has not passed the limit, leaves lie
      below the cursor exactly when the cursor is at the limit or nothing escaped. */
  lemma LeavesBelowOverRun(identity: Identity, ops: seq<Op>)
    requires Run(NewSnapshot(identity), ops).nextLeaf <= INDEX_LIMIT
    ensures var s := Run(NewSnapshot(identity), ops);
            LeavesBelowCursor(s) <==> s.nextLeaf == INDEX_LIMIT || !EverEscapes(NewSnapshot(identity), ops)
  {
    var s := Run(NewSnapshot(identity), ops);
    PlacesOverRun(identity, ops);
    if s.nextLeaf == INDEX_LIMIT {
      LastPlace();
    } else if EverEscapes(NewSnapshot(identity), ops) {
      TakenIsAbove(s);
    }
  }

  /** A leaf at the last index ends up above the cursor. */
  lemma LastIndexEscapes(identity: Identity, leaf: Word)
    requires leaf != 0
    ensures EverEscapes(NewSnapshot(identity), [Leaves(U64_MAX, [leaf])])
    ensures !LeavesBelowCursor(Run(NewSnapshot(identity), [Leaves(U64_MAX, [leaf])]))
  {
    var s0, ops := NewSnapshot(identity), [Leaves(U64_MAX, [leaf])];
    assert ops[..|ops| - 1] == [] && Run(s0, []) == s0;
    LastLeaf(s0, leaf);
  }
}
