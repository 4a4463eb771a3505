/** What holds of every cache reachable from an empty one, whatever mutators ran and
    whether or not they failed halfway. */
module PoiInvariants {
  import opened Common
  import opened Merkle
  import opened PoiModel

  datatype Op =
    | Events(events: seq<Event>)
    | Leaves(start: nat, leaves: seq<Word>)
    | Artifact(events: seq<Event>)
    | JournalDelta(delta: Delta)
    | AddBlocked(list: seq<BlockedShield>)
    | SetBlocked(list: seq<BlockedShield>)
    | AcceptRoots
    | JudgeRoots(accepted: bool)

  function Step(s: Snapshot, op: Op): Snapshot {
    match op
    case Events(es) => ApplyEvents(s, es).after
    case Leaves(start, ls) => ApplyLeaves(s, start, ls).after
    case Artifact(es) => ApplyArtifact(s, es).after
    case JournalDelta(d) => ApplyDelta(s, d).after
    case AddBlocked(list) => ApplyBlocked(s, list).after
    case SetBlocked(list) => ReplaceBlocked(s, list).after
    case AcceptRoots => JudgedRoots(s, true)
    case JudgeRoots(accepted) => JudgedRoots(s, accepted)
  }

  /** Roots are computed, remembered by their trees, and judged. */
  function JudgedRoots(s: Snapshot, accepted: bool): Snapshot {
    var roots := CurrentRoots(s.forest);
    s.(forest := CachedForest(s.forest),
       validation := if accepted then Validated(roots) else Rejected(roots))
  }

  function Run(s: Snapshot, ops: seq<Op>): Snapshot
    decreases |ops|
  {
    if ops == [] then s else Step(Run(s, ops[..|ops| - 1]), ops[|ops| - 1])
  }

  // ---- Which commitments an operation marks as valid ----

  function MarkedByEvents(es: seq<Event>): set<Word> {
    if es == [] then {}
    else {es[0].commitment} + (if es[0].index == U64_MAX then {} else MarkedByEvents(es[1..]))
  }

  function MarkedByLeaves(start: nat, ls: seq<Word>): set<Word>
    decreases |ls|
  {
    if ls == [] || start > U64_MAX then {}
    else
      (if ls[0] == 0 then {} else {ls[0]})
      + (if start == U64_MAX then {} else MarkedByLeaves(start + 1, ls[1..]))
  }

  /** Commitments that appear in an event, or as a non-zero leaf, of what was applied. */
  function Marked(s: Snapshot, op: Op): set<Word> {
    match op
    case Events(es) => MarkedByEvents(es)
    case Leaves(start, ls) => MarkedByLeaves(start, ls)
    case Artifact(es) => MarkedByEvents(es)
    case JournalDelta(d) =>
      if Acceptable(s, d) then MarkedByEvents(d.events) + MarkedByLeaves(d.leafStart, d.leaves) else {}
    case _ => {}
  }

  function EverMarked(s: Snapshot, ops: seq<Op>): set<Word>
    decreases |ops|
  {
    if ops == [] then {}
    else
      var init, last := ops[..|ops| - 1], ops[|ops| - 1];
      EverMarked(s, init) + Marked(Run(s, init), last)
  }

  // ---- Status ----

  function ExplainedStatus(blocked: map<Word, BlockedShield>, valid: set<Word>, c: Word): Status {
    if c in valid then Valid else if c in blocked then ShieldBlocked else Missing
  }

  /** Stored statuses are a function of the marked commitments and the blocked map alone. */
  ghost predicate Explained(status: map<Word, Status>, blocked: map<Word, BlockedShield>, valid: set<Word>) {
    && (forall c :: c in status <==> c in valid || c in blocked)
    && (forall c :: c in status ==> status[c] == if c in valid then Valid else ShieldBlocked)
  }

  ghost predicate StatusInv(s: Snapshot, valid: set<Word>) {
    Explained(s.status, s.blocked, valid)
  }

  lemma {:induction false} EventsExplained(s: Snapshot, es: seq<Event>, valid: set<Word>)
    requires StatusInv(s, valid)
    ensures StatusInv(ApplyEvents(s, es).after, valid + MarkedByEvents(es))
    decreases |es|
  {
    if es != [] {
      var c := es[0].commitment;
      var marked := MarkValid(s, c);
      assert StatusInv(marked, valid + {c});
      if es[0].index != U64_MAX {
        var next := marked.(nextEvent := Max(s.nextEvent, es[0].index + 1));
        assert StatusInv(next, valid + {c});
        EventsExplained(next, es[1..], valid + {c});
        assert valid + {c} + MarkedByEvents(es[1..]) == valid + MarkedByEvents(es);
      } else {
        assert valid + MarkedByEvents(es) == valid + {c};
      }
    }
  }

  lemma PlaceLeafExplained(s: Snapshot, g: U64, leaf: Word, valid: set<Word>)
    requires StatusInv(s, valid)
    ensures StatusInv(PlaceLeaf(s, g, leaf), valid + {leaf})
  {
  }

  lemma {:induction false} LeavesExplained(s: Snapshot, start: nat, ls: seq<Word>, valid: set<Word>)
    requires StatusInv(s, valid)
    ensures StatusInv(ApplyLeaves(s, start, ls).after, valid + MarkedByLeaves(start, ls))
    decreases |ls|
  {
    if ls == [] || start > U64_MAX {
      assert valid + {} == valid;
    } else {
      var here: set<Word> := if ls[0] == 0 then {} else {ls[0]};
      var placed := if ls[0] == 0 then s else PlaceLeaf(s, start, ls[0]);
      if ls[0] != 0 { PlaceLeafExplained(s, start, ls[0], valid); }
      assert valid + {} == valid;
      assert StatusInv(placed, valid + here);
      if start != U64_MAX {
        var next := placed.(nextLeaf := Max(s.nextLeaf, start + 1));
        assert StatusInv(next, valid + here);
        LeavesExplained(next, start + 1, ls[1..], valid + here);
        assert valid + here + MarkedByLeaves(start + 1, ls[1..]) == valid + MarkedByLeaves(start, ls);
      } else {
        assert valid + MarkedByLeaves(start, ls) == valid + here;
      }
    }
  }

  lemma {:induction false} ArtifactExplained(s: Snapshot, es: seq<Event>, valid: set<Word>)
    requires StatusInv(s, valid)
    ensures StatusInv(ApplyArtifact(s, es).after, valid + MarkedByEvents(es))
    decreases |es|
  {
    if es != [] {
      var e := es[0];
      var placed := PlaceLeaf(s, e.index, e.commitment);
      PlaceLeafExplained(s, e.index, e.commitment, valid);
      if e.index != U64_MAX {
        var next := placed.(nextEvent := Max(s.nextEvent, e.index + 1), nextLeaf := Max(s.nextLeaf, e.index + 1));
        assert StatusInv(next, valid + {e.commitment});
        ArtifactExplained(next, es[1..], valid + {e.commitment});
        assert valid + {e.commitment} + MarkedByEvents(es[1..]) == valid + MarkedByEvents(es);
      } else {
        assert valid + MarkedByEvents(es) == valid + {e.commitment};
      }
    }
  }

  lemma {:induction false} BlockedExplained(s: Snapshot, list: seq<BlockedShield>, valid: set<Word>)
    requires StatusInv(s, valid)
    ensures StatusInv(ApplyBlocked(s, list).after, valid)
    decreases |list|
  {
    if list != [] && list[0].parsed.Some? {
      assert StatusInv(Block(s, list[0].parsed.value, list[0]), valid);
      BlockedExplained(Block(s, list[0].parsed.value, list[0]), list[1..], valid);
    }
  }

  lemma UnblockedExplained(s: Snapshot, valid: set<Word>)
    requires StatusInv(s, valid)
    ensures StatusInv(Unblocked(s), valid)
  {
  }

  lemma StepExplained(s: Snapshot, op: Op, valid: set<Word>)
    requires StatusInv(s, valid)
    ensures StatusInv(Step(s, op), valid + Marked(s, op))
  {
    assert valid + {} == valid;
    match op
    case Events(es) => EventsExplained(s, es, valid);
    case Leaves(start, ls) => LeavesExplained(s, start, ls, valid);
    case Artifact(es) => ArtifactExplained(s, es, valid);
    case JournalDelta(d) =>
      if Acceptable(s, d) {
        AcceptableDeltaApplies(s, d);
        EventsFrom(s, d.events);
        EventsExplained(s, d.events, valid);
        var mid := ApplyEvents(s, d.events).after;
        LeavesExplained(mid, d.leafStart, d.leaves, valid + MarkedByEvents(d.events));
        assert valid + MarkedByEvents(d.events) + MarkedByLeaves(d.leafStart, d.leaves) == valid + Marked(s, op);
      }
    case AddBlocked(list) => BlockedExplained(s, list, valid);
    case SetBlocked(list) =>
      UnblockedExplained(s, valid);
      BlockedExplained(Unblocked(s), list, valid);
    case AcceptRoots =>
    case JudgeRoots(_) =>
  }

  /** Status does not depend on the order of operations: after any run from an empty
      cache, a commitment is Valid if it ever appeared, else ShieldBlocked if it is
      currently blocked, else Missing. */
  lemma {:induction false} StatusOverRun(identity: Identity, ops: seq<Op>)
    ensures var s := Run(NewSnapshot(identity), ops);
            && StatusInv(s, EverMarked(NewSnapshot(identity), ops))
            && forall c :: StatusOf(s, c) == ExplainedStatus(s.blocked, EverMarked(NewSnapshot(identity), ops), c)
    decreases |ops|
  {
    if ops != [] {
      var init := ops[..|ops| - 1];
      StatusOverRun(identity, init);
      StepExplained(Run(NewSnapshot(identity), init), ops[|ops| - 1], EverMarked(NewSnapshot(identity), init));
    }
  }

  // ---- Roots and cursors ----

  predicate RootsFresh(s: Snapshot) {
    s.validation.Validated? ==> s.validation.roots == CurrentRoots(s.forest)
  }

  predicate ForestInv(s: Snapshot) {
    RootsFresh(s) && CoherentForest(s.forest)
  }

  lemma PlaceLeafKeepsForest(s: Snapshot, g: U64, leaf: Word)
    requires ForestInv(s)
    ensures ForestInv(PlaceLeaf(s, g, leaf))
  {
  }

  lemma {:induction false} LeavesKeepForest(s: Snapshot, start: nat, ls: seq<Word>)
    requires ForestInv(s)
    ensures ForestInv(ApplyLeaves(s, start, ls).after)
    decreases |ls|
  {
    if ls != [] && start <= U64_MAX {
      var placed := if ls[0] == 0 then s else PlaceLeaf(s, start, ls[0]);
      PlaceLeafKeepsForest(s, start, ls[0]);
      if start != U64_MAX {
        LeavesKeepForest(placed.(nextLeaf := Max(s.nextLeaf, start + 1)), start + 1, ls[1..]);
      }
    }
  }

  lemma {:induction false} ArtifactKeepsForest(s: Snapshot, es: seq<Event>)
    requires ForestInv(s)
    ensures ForestInv(ApplyArtifact(s, es).after)
    decreases |es|
  {
    if es != [] {
      var e := es[0];
      var placed := PlaceLeaf(s, e.index, e.commitment);
      PlaceLeafKeepsForest(s, e.index, e.commitment);
      if e.index != U64_MAX {
        ArtifactKeepsForest(placed.(nextEvent := Max(s.nextEvent, e.index + 1),
                                    nextLeaf := Max(s.nextLeaf, e.index + 1)), es[1..]);
      }
    }
  }

  lemma {:induction false} EventsKeepForest(s: Snapshot, es: seq<Event>)
    ensures ApplyEvents(s, es).after.forest == s.forest && ApplyEvents(s, es).after.validation == s.validation
    ensures ApplyEvents(s, es).after.nextLeaf == s.nextLeaf && ApplyEvents(s, es).after.positions == s.positions
    decreases |es|
  {
    if es != [] && es[0].index != U64_MAX {
      EventsKeepForest(MarkValid(s, es[0].commitment).(nextEvent := Max(s.nextEvent, es[0].index + 1)), es[1..]);
    }
  }

  lemma {:induction false} BlockedKeepsForest(s: Snapshot, list: seq<BlockedShield>)
    ensures ApplyBlocked(s, list).after.forest == s.forest && ApplyBlocked(s, list).after.validation == s.validation
    ensures ApplyBlocked(s, list).after.nextLeaf == s.nextLeaf && ApplyBlocked(s, list).after.positions == s.positions
    decreases |list|
  {
    if list != [] && list[0].parsed.Some? {
      BlockedKeepsForest(Block(s, list[0].parsed.value, list[0]), list[1..]);
    }
  }

  lemma StepKeepsForest(s: Snapshot, op: Op)
    requires ForestInv(s)
    ensures ForestInv(Step(s, op))
  {
    match op
    case Events(es) => EventsKeepForest(s, es);
    case Leaves(start, ls) => LeavesKeepForest(s, start, ls);
    case Artifact(es) => ArtifactKeepsForest(s, es);
    case JournalDelta(d) =>
      EventsKeepForest(s, d.events);
      LeavesKeepForest(ApplyEvents(s, d.events).after, d.leafStart, d.leaves);
    case AddBlocked(list) => BlockedKeepsForest(s, list);
    case SetBlocked(list) => BlockedKeepsForest(Unblocked(s), list);
    case AcceptRoots => CachingKeepsRoots(s.forest);
    case JudgeRoots(_) => CachingKeepsRoots(s.forest);
  }

  lemma CachingKeepsRoots(forest: Forest)
    requires CoherentForest(forest)
    ensures CurrentRoots(CachedForest(forest)) == CurrentRoots(forest)
    ensures CoherentForest(CachedForest(forest))
  {
  }

  /** Validated roots are never stale: in every reachable cache they are exactly the
      roots of the current forest. */
  lemma {:induction false} RootsNeverStale(identity: Identity, ops: seq<Op>)
    ensures ForestInv(Run(NewSnapshot(identity), ops))
    decreases |ops|
  {
    if ops != [] {
      RootsNeverStale(identity, ops[..|ops| - 1]);
      StepKeepsForest(Run(NewSnapshot(identity), ops[..|ops| - 1]), ops[|ops| - 1]);
    }
  }

  // ---- Replacing the blocked list by itself ----

  /** Every blocked commitment already has a status. */
  predicate BlockedMarked(s: Snapshot) {
    forall c :: c in s.blocked ==> c in s.status && s.status[c] != Missing
  }

  function Commitments(list: seq<BlockedShield>): set<Word> {
    set b | b in list && b.parsed.Some? :: b.parsed.value
  }

  lemma CommitmentsFront(list: seq<BlockedShield>, c: Word)
    requires list != [] && list[0].parsed.Some?
    ensures c in Commitments(list) <==> c == list[0].parsed.value || c in Commitments(list[1..])
  {
    assert list == [list[0]] + list[1..];
    assert list[0] in list;
  }

  /** A pass over a blocked list touches nothing but the list, statuses and the flag. */
  lemma {:induction false} BlockedFrame(s: Snapshot, list: seq<BlockedShield>)
    requires ApplyBlocked(s, list).ok
    ensures var r := ApplyBlocked(s, list).after; r == s.(blocked := r.blocked, status := r.status, blockedSynced := true)
    decreases |list|
  {
    if list != [] { BlockedFrame(Block(s, list[0].parsed.value, list[0]), list[1..]); }
  }

  /** What a pass over a blocked list does to one commitment. */
  lemma {:induction false} BlockedAt(s: Snapshot, list: seq<BlockedShield>, c: Word)
    requires ApplyBlocked(s, list).ok
    ensures var r := ApplyBlocked(s, list).after;
            && (c in r.blocked <==> c in s.blocked || c in Commitments(list))
            && (c in r.status <==> c in s.status || c in Commitments(list))
            && (c in r.status ==>
                  r.status[c] == if c in s.status && (s.status[c] == Valid || c !in Commitments(list)) then s.status[c]
                                 else ShieldBlocked)
    decreases |list|
  {
    if list != [] {
      BlockedAt(Block(s, list[0].parsed.value, list[0]), list[1..], c);
      CommitmentsFront(list, c);
    }
  }

  /** What a successful pass over a blocked list does to statuses and to the map's keys. */
  lemma BlockedEffect(s: Snapshot, list: seq<BlockedShield>)
    requires ApplyBlocked(s, list).ok
    ensures var r := ApplyBlocked(s, list).after;
            && r == s.(blocked := r.blocked, status := r.status, blockedSynced := true)
            && r.blocked.Keys == s.blocked.Keys + Commitments(list)
            && r.status.Keys == s.status.Keys + Commitments(list)
            && forall c :: c in r.status ==>
              r.status[c] == if c in s.status && (s.status[c] == Valid || c !in Commitments(list)) then s.status[c]
                             else ShieldBlocked
  {
    BlockedFrame(s, list);
    var r := ApplyBlocked(s, list).after;
    forall c: Word
      ensures (c in r.blocked <==> c in s.blocked || c in Commitments(list))
        && (c in r.status <==> c in s.status || c in Commitments(list))
    {
      BlockedAt(s, list, c);
    }
    forall c | c in r.status
      ensures r.status[c] == if c in s.status && (s.status[c] == Valid || c !in Commitments(list)) then s.status[c]
                             else ShieldBlocked
    {
      BlockedAt(s, list, c);
    }
  }

  /** Replacing the blocked list by one with the same content changes only the flag. */
  lemma SameBlockedSameCache(s: Snapshot, list: seq<BlockedShield>)
    requires BlockedMarked(s)
    requires ReplaceBlocked(s, list).ok && ReplaceBlocked(s, list).after.blocked == s.blocked
    ensures ReplaceBlocked(s, list).after == s.(blockedSynced := true)
  {
    var u, r := Unblocked(s), ReplaceBlocked(s, list).after;
    BlockedEffect(u, list);
    assert Commitments(list) == s.blocked.Keys;
    assert r.status.Keys == s.status.Keys by {
      forall c ensures c in r.status <==> c in s.status {
      }
    }
    forall c | c in s.status ensures r.status[c] == s.status[c] {
    }
    assert r.status == s.status;
  }

  lemma ExplainedBlockedMarked(s: Snapshot, valid: set<Word>)
    requires StatusInv(s, valid)
    ensures BlockedMarked(s)
  {
  }

  // ---- Reachable caches ----

  ghost predicate Reachable(s: Snapshot) {
    exists identity, ops :: s == Run(NewSnapshot(identity), ops)
  }

  /** In every reachable cache each blocked commitment has a status. */
  lemma ReachableBlockedMarked(s: Snapshot)
    requires Reachable(s)
    ensures BlockedMarked(s)
  {
    var identity, ops :| s == Run(NewSnapshot(identity), ops);
    StatusOverRun(identity, ops);
    ExplainedBlockedMarked(s, EverMarked(NewSnapshot(identity), ops));
  }

  lemma StepIsReachable(s: Snapshot, op: Op)
    requires Reachable(s)
    ensures Reachable(Step(s, op))
  {
    var identity, ops :| s == Run(NewSnapshot(identity), ops);
    assert (ops + [op])[..|ops|] == ops;
    assert Step(s, op) == Run(NewSnapshot(identity), ops + [op]);
  }

  // ---- Recorded trees exist ----

  /** Every recorded position lies in a tree of the forest. */
  predicate TreesHeld(s: Snapshot) {
    forall c :: c in s.positions ==> s.positions[c].tree in s.forest
  }

  lemma {:induction false} LeavesKeepTrees(s: Snapshot, start: nat, ls: seq<Word>)
    requires TreesHeld(s)
    ensures TreesHeld(ApplyLeaves(s, start, ls).after)
    decreases |ls|
  {
    if ls != [] && start < U64_MAX {
      var placed := if ls[0] == 0 then s else PlaceLeaf(s, start, ls[0]);
      LeavesKeepTrees(placed.(nextLeaf := Max(s.nextLeaf, start + 1)), start + 1, ls[1..]);
    }
  }

  lemma {:induction false} ArtifactKeepsTrees(s: Snapshot, es: seq<Event>)
    requires TreesHeld(s)
    ensures TreesHeld(ApplyArtifact(s, es).after)
    decreases |es|
  {
    if es != [] && es[0].index != U64_MAX {
      var e := es[0];
      ArtifactKeepsTrees(PlaceLeaf(s, e.index, e.commitment).(nextEvent := Max(s.nextEvent, e.index + 1),
                                                              nextLeaf := Max(s.nextLeaf, e.index + 1)), es[1..]);
    }
  }

  lemma StepKeepsTrees(s: Snapshot, op: Op)
    requires TreesHeld(s)
    ensures TreesHeld(Step(s, op))
  {
    match op
    case Events(es) => EventsKeepForest(s, es);
    case Leaves(start, ls) => LeavesKeepTrees(s, start, ls);
    case Artifact(es) => ArtifactKeepsTrees(s, es);
    case JournalDelta(d) =>
      EventsKeepForest(s, d.events);
      LeavesKeepTrees(ApplyEvents(s, d.events).after, d.leafStart, d.leaves);
    case AddBlocked(list) => BlockedKeepsForest(s, list);
    case SetBlocked(list) => BlockedKeepsForest(Unblocked(s), list);
    case AcceptRoots =>
    case JudgeRoots(_) =>
  }

  lemma {:induction false} TreesOverRun(identity: Identity, ops: seq<Op>)
    ensures TreesHeld(Run(NewSnapshot(identity), ops))
    decreases |ops|
  {
    if ops != [] {
      TreesOverRun(identity, ops[..|ops| - 1]);
      StepKeepsTrees(Run(NewSnapshot(identity), ops[..|ops| - 1]), ops[|ops| - 1]);
    }
  }

  lemma ReachableTreesHeld(s: Snapshot)
    requires Reachable(s)
    ensures TreesHeld(s)
  {
    var identity, ops :| s == Run(NewSnapshot(identity), ops);
    TreesOverRun(identity, ops);
  }
}
