/** Where every commitment is: the forest and the recorded positions of a reachable cache,
    read off the list of operations that made it. */
module PoiPlaces {
  import opened Common
  import opened Merkle
  import opened PoiModel
  import opened PoiInvariants
  import opened PoiSync

  /** A commitment was put at a global index. */
  datatype Placement = Placement(index: U64, leaf: Word)

  // ---- The placements of a run ----

  /** Leaves take consecutive indexes; zero leaves are passed over. */
  function PlacedByLeaves(start: nat, ls: seq<Word>): seq<Placement>
    decreases |ls|
  {
    if ls == [] || start > U64_MAX then []
    else
      (if ls[0] == 0 then [] else [Placement(start, ls[0])])
      + (if start == U64_MAX then [] else PlacedByLeaves(start + 1, ls[1..]))
  }

  /** Artifact events are placed at their own index, up to the first at the last index. */
  function PlacedByArtifact(es: seq<Event>): seq<Placement> {
    if es == [] then []
    else [Placement(es[0].index, es[0].commitment)] + (if es[0].index == U64_MAX then [] else PlacedByArtifact(es[1..]))
  }

  function PlacedBy(s: Snapshot, op: Op): seq<Placement> {
    match op
    case Leaves(start, ls) => PlacedByLeaves(start, ls)
    case Artifact(es) => PlacedByArtifact(es)
    case JournalDelta(d) => if Acceptable(s, d) then PlacedByLeaves(d.leafStart, d.leaves) else []
    case _ => []
  }

  function EverPlaced(s: Snapshot, ops: seq<Op>): seq<Placement>
    decreases |ops|
  {
    if ops == [] then []
    else
      var init, last := ops[..|ops| - 1], ops[|ops| - 1];
      EverPlaced(s, init) + PlacedBy(Run(s, init), last)
  }

  // ---- What a list of placements says ----

  /** The index a commitment was last put at. */
  function LastIndex(ps: seq<Placement>, c: Word): Option<U64> {
    if ps == [] then None
    else if ps[|ps| - 1].leaf == c then Some(ps[|ps| - 1].index)
    else LastIndex(ps[..|ps| - 1], c)
  }

  /** The place an index has: trees of 65536 leaves, numbered modulo 2^32. */
  predicate InPlace(g: U64, tree: nat, position: nat) {
    tree == g / 65536 % 0x1_0000_0000 && position == g % 65536
  }

  /** The commitment last put at a place. */
  function LastLeaf(ps: seq<Placement>, tree: nat, position: nat): Option<Word> {
    if ps == [] then None
    else if InPlace(ps[|ps| - 1].index, tree, position) then Some(ps[|ps| - 1].leaf)
    else LastLeaf(ps[..|ps| - 1], tree, position)
  }

  /** What is recorded for a commitment. */
  predicate RecordedAs(positions: map<Word, Position>, ps: seq<Placement>, c: Word) {
    match LastIndex(ps, c)
    case None => c !in positions
    case Some(g) => c in positions && positions[c].globalIndex == g && InPlace(g, positions[c].tree, positions[c].position)
  }

  /** What is held at a place. */
  predicate HeldAs(forest: Forest, ps: seq<Placement>, tree: nat, position: nat) {
    match LastLeaf(ps, tree, position)
    case None => position !in LeavesOf(forest, tree)
    case Some(c) => position in LeavesOf(forest, tree) && LeavesOf(forest, tree)[position] == c
  }

  ghost predicate AllRecorded(positions: map<Word, Position>, ps: seq<Placement>) {
    forall c :: RecordedAs(positions, ps, c)
  }

  ghost predicate AllHeld(forest: Forest, ps: seq<Placement>) {
    forall tree: nat, position: nat :: HeldAs(forest, ps, tree, position)
  }

  // ---- One placement ----

  lemma LastOfLonger(ps: seq<Placement>, g: U64, leaf: Word, c: Word)
    ensures LastIndex(ps + [Placement(g, leaf)], c) == if c == leaf then Some(g) else LastIndex(ps, c)
  {
    var qs := ps + [Placement(g, leaf)];
    assert qs[..|qs| - 1] == ps;
  }

  lemma LastAtLonger(ps: seq<Placement>, g: U64, leaf: Word, tree: nat, position: nat)
    ensures LastLeaf(ps + [Placement(g, leaf)], tree, position)
         == if InPlace(g, tree, position) then Some(leaf) else LastLeaf(ps, tree, position)
  {
    var qs := ps + [Placement(g, leaf)];
    assert qs[..|qs| - 1] == ps;
  }

  lemma PlaceLeafRecords(s: Snapshot, ps: seq<Placement>, g: U64, leaf: Word)
    requires AllRecorded(s.positions, ps)
    ensures AllRecorded(PlaceLeaf(s, g, leaf).positions, ps + [Placement(g, leaf)])
  {
    forall c ensures RecordedAs(PlaceLeaf(s, g, leaf).positions, ps + [Placement(g, leaf)], c) {
      LastOfLonger(ps, g, leaf, c);
      assert RecordedAs(s.positions, ps, c);
    }
  }

  lemma PlaceLeafHolds(s: Snapshot, ps: seq<Placement>, g: U64, leaf: Word)
    requires AllHeld(s.forest, ps)
    ensures AllHeld(PlaceLeaf(s, g, leaf).forest, ps + [Placement(g, leaf)])
  {
    forall tree: nat, position: nat ensures HeldAs(PlaceLeaf(s, g, leaf).forest, ps + [Placement(g, leaf)], tree, position) {
      LastAtLonger(ps, g, leaf, tree, position);
      assert HeldAs(s.forest, ps, tree, position);
    }
  }

  // ---- Every operation ----

  ghost predicate PlacedIs(s: Snapshot, ps: seq<Placement>) {
    AllRecorded(s.positions, ps) && AllHeld(s.forest, ps)
  }

  lemma PlaceLeafPlaces(s: Snapshot, ps: seq<Placement>, g: U64, leaf: Word)
    requires PlacedIs(s, ps)
    ensures PlacedIs(PlaceLeaf(s, g, leaf), ps + [Placement(g, leaf)])
  {
    PlaceLeafRecords(s, ps, g, leaf);
    PlaceLeafHolds(s, ps, g, leaf);
  }

  lemma Joined(ps: seq<Placement>, here: seq<Placement>, rest: seq<Placement>)
    ensures ps + here + rest == ps + (here + rest)
  {
  }

  lemma NothingJoined(ps: seq<Placement>)
    ensures ps + [] == ps
  {
  }

  lemma {:induction false} LeavesPlace(s: Snapshot, ps: seq<Placement>, start: nat, ls: seq<Word>)
    requires PlacedIs(s, ps)
    ensures PlacedIs(ApplyLeaves(s, start, ls).after, ps + PlacedByLeaves(start, ls))
    decreases |ls|
  {
    NothingJoined(ps);
    if ls != [] && start <= U64_MAX {
      var here := if ls[0] == 0 then [] else [Placement(start, ls[0])];
      var placed := if ls[0] == 0 then s else PlaceLeaf(s, start, ls[0]);
      if ls[0] != 0 { PlaceLeafPlaces(s, ps, start, ls[0]); }
      if start == U64_MAX {
        NothingJoined(here);
      } else {
        Joined(ps, here, PlacedByLeaves(start + 1, ls[1..]));
        LeavesPlace(placed.(nextLeaf := Max(s.nextLeaf, start + 1)), ps + here, start + 1, ls[1..]);
      }
    }
  }

  lemma {:induction false} ArtifactPlaces(s: Snapshot, ps: seq<Placement>, es: seq<Event>)
    requires PlacedIs(s, ps)
    ensures PlacedIs(ApplyArtifact(s, es).after, ps + PlacedByArtifact(es))
    decreases |es|
  {
    NothingJoined(ps);
    if es != [] {
      var e := es[0];
      var here := [Placement(e.index, e.commitment)];
      var placed := PlaceLeaf(s, e.index, e.commitment);
      PlaceLeafPlaces(s, ps, e.index, e.commitment);
      if e.index == U64_MAX {
        NothingJoined(here);
      } else {
        Joined(ps, here, PlacedByArtifact(es[1..]));
        ArtifactPlaces(placed.(nextEvent := Max(s.nextEvent, e.index + 1), nextLeaf := Max(s.nextLeaf, e.index + 1)),
                       ps + here, es[1..]);
      }
    }
  }

  lemma CachedHolds(forest: Forest, ps: seq<Placement>)
    requires AllHeld(forest, ps)
    ensures AllHeld(CachedForest(forest), ps)
  {
    forall tree: nat, position: nat ensures HeldAs(CachedForest(forest), ps, tree, position) {
      assert HeldAs(forest, ps, tree, position);
    }
  }

  lemma StepPlaces(s: Snapshot, ps: seq<Placement>, op: Op)
    requires PlacedIs(s, ps)
    ensures PlacedIs(Step(s, op), ps + PlacedBy(s, op))
  {
    NothingJoined(ps);
    match op
    case Events(es) => EventsKeepForest(s, es);
    case Leaves(start, ls) => LeavesPlace(s, ps, start, ls);
    case Artifact(es) => ArtifactPlaces(s, ps, es);
    case JournalDelta(d) =>
      if Acceptable(s, d) {
        EventsFrom(s, d.events);
        LeavesPlace(ApplyEvents(s, d.events).after, ps, d.leafStart, d.leaves);
      }
    case AddBlocked(list) => BlockedKeepsForest(s, list);
    case SetBlocked(list) => BlockedKeepsForest(Unblocked(s), list);
    case AcceptRoots => CachedHolds(s.forest, ps);
    case JudgeRoots(_) => CachedHolds(s.forest, ps);
  }

  /** After every run each commitment is recorded at the index it was last placed at, and
      each place holds the commitment last put there; nothing else is recorded or held. */
  lemma {:induction false} PlacesOverRun(identity: Identity, ops: seq<Op>)
    ensures PlacedIs(Run(NewSnapshot(identity), ops), EverPlaced(NewSnapshot(identity), ops))
    decreases |ops|
  {
    if ops != [] {
      var init := ops[..|ops| - 1];
      PlacesOverRun(identity, init);
      StepPlaces(Run(NewSnapshot(identity), init), EverPlaced(NewSnapshot(identity), init), ops[|ops| - 1]);
    }
  }

  // ---- Which commitments are served ----

  /** The place a commitment was last put at holds it still. */
  predicate StillThere(ps: seq<Placement>, c: Word) {
    && LastIndex(ps, c).Some?
    && var g := LastIndex(ps, c).value;
    LastLeaf(ps, g / 65536 % 0x1_0000_0000, g % 65536) == Some(c)
  }

  /** After every run a commitment can be proved exactly when it was placed and its last
      place was not given to another commitment since. */
  lemma ServedExactly(identity: Identity, ops: seq<Op>, c: Word)
    ensures Servable(Run(NewSnapshot(identity), ops), c) <==> StillThere(EverPlaced(NewSnapshot(identity), ops), c)
  {
    PlacesOverRun(identity, ops);
    ServedFrom(Run(NewSnapshot(identity), ops), EverPlaced(NewSnapshot(identity), ops), c);
  }

  lemma ServedFrom(s: Snapshot, ps: seq<Placement>, c: Word)
    requires PlacedIs(s, ps)
    ensures Servable(s, c) <==> StillThere(ps, c)
  {
    assert RecordedAs(s.positions, ps, c);
    if LastIndex(ps, c).Some? {
      var g := LastIndex(ps, c).value;
      var tree, position := g / 65536 % 0x1_0000_0000, g % 65536;
      LastIsTaken(ps, c);
      assert HeldAs(s.forest, ps, tree, position);
    }
  }

  lemma {:induction false} LastIsTaken(ps: seq<Placement>, c: Word)
    requires LastIndex(ps, c).Some?
    ensures var g := LastIndex(ps, c).value; LastLeaf(ps, g / 65536 % 0x1_0000_0000, g % 65536).Some?
    decreases |ps|
  {
    if ps[|ps| - 1].leaf != c { LastIsTaken(ps[..|ps| - 1], c); }
  }
}
