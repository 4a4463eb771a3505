/** The POI cache of one list: a forest of commitments, where each commitment sits,
    its status, the blocked shields, and how far each feed has been read. */
module PoiModel {
  import opened Common
  import opened Merkle

  const DELTA_VERSION: nat := 1

  datatype Identity = Identity(chainType: nat, chainId: U64, txidVersion: string, listKey: Word)

  datatype Event = Event(index: U64, commitment: Word)

  /** `parsed` is the commitment the record's hexadecimal text denotes, if it does. */
  datatype BlockedShield = BlockedShield(parsed: Option<Word>, text: string)

  datatype Status = Valid | ShieldBlocked | Missing

  datatype Position = Position(globalIndex: U64, tree: nat, position: nat)

  type Roots = map<nat, Word>

  type Forest = map<nat, Tree>

  datatype Validation = Pending | Validated(roots: Roots) | Rejected(roots: Roots)

  datatype Snapshot = Snapshot(
    identity: Identity,
    nextEvent: U64, nextLeaf: U64, blockedSynced: bool, validation: Validation,
    forest: Forest,
    status: map<Word, Status>,
    positions: map<Word, Position>,
    blocked: map<Word, BlockedShield>)

  datatype Delta = Delta(
    version: nat, identity: Identity,
    eventStart: U64, eventEnd: U64, leafStart: U64, leafEnd: U64,
    events: seq<Event>, leaves: seq<Word>)

  /** A mutator's effect: the state it leaves, and whether it succeeded. */
  datatype Outcome = Outcome(after: Snapshot, ok: bool)

  function NewSnapshot(identity: Identity): Snapshot {
    Snapshot(identity, 0, 0, false, Pending, map[], map[], map[], map[])
  }

  function Max(a: U64, b: U64): U64 {
    if a < b then b else a
  }

  // ---- Positions in the forest ----

  const TREE_NUMBERS: nat := 0x1_0000_0000

  /** Global indices below this have a tree number of their own; at or above it the
      32-bit tree number repeats. */
  const INDEX_LIMIT: nat := LEAVES * TREE_NUMBERS

  function TreeOf(globalIndex: U64): nat {
    globalIndex / LEAVES % TREE_NUMBERS
  }

  function PositionOf(globalIndex: U64): nat {
    globalIndex % LEAVES
  }

  /** Two indices share a place in the forest exactly when they differ by a multiple of
      the limit. */
  lemma SamePlaceExactly(g: U64, g': U64)
    ensures TreeOf(g) == TreeOf(g') && PositionOf(g) == PositionOf(g') <==> g % INDEX_LIMIT == g' % INDEX_LIMIT
  {
    PlaceNumber(g);
    PlaceNumber(g');
  }

  lemma PlaceNumber(g: U64)
    ensures TreeOf(g) * LEAVES + PositionOf(g) == g % INDEX_LIMIT
  {
    var q, t := g / LEAVES / TREE_NUMBERS, TreeOf(g);
    assert g / LEAVES == q * TREE_NUMBERS + t;
    assert g == (q * TREE_NUMBERS + t) * LEAVES + PositionOf(g);
    assert g == q * INDEX_LIMIT + (t * LEAVES + PositionOf(g));
    assert 0 <= t * LEAVES + PositionOf(g) < INDEX_LIMIT;
  }

  function LeavesOf(forest: Forest, tree: nat): Positions {
    if tree in forest then forest[tree].leaves else map[]
  }

  function InsertInto(forest: Forest, tree: nat, position: nat, leaf: Word): Forest {
    forest[tree := Tree(LeavesOf(forest, tree)[position := leaf], None)]
  }

  function CurrentRoots(forest: Forest): Roots {
    map t | t in forest :: TreeRoot(forest[t].leaves)
  }

  /** The forest once every tree has remembered its root. */
  function CachedForest(forest: Forest): Forest {
    map t | t in forest :: Tree(forest[t].leaves, Some(TreeRoot(forest[t].leaves)))
  }

  predicate CoherentForest(forest: Forest) {
    forall t :: t in forest ==> forest[t].Coherent()
  }

  // ---- Mutators, with their partial effects ----

  function MarkValid(s: Snapshot, c: Word): Snapshot {
    s.(status := s.status[c := Valid])
  }

  /** Events mark their commitments; the event cursor never moves back. */
  function ApplyEvents(s: Snapshot, events: seq<Event>): Outcome
    decreases |events|
  {
    if events == [] then Outcome(s, true)
    else
      var marked := MarkValid(s, events[0].commitment);
      if events[0].index == U64_MAX then Outcome(marked, false)
      else ApplyEvents(marked.(nextEvent := Max(s.nextEvent, events[0].index + 1)), events[1..])
  }

  /** Inserting a leaf first withdraws any verdict about the roots. */
  function PlaceLeaf(s: Snapshot, g: U64, leaf: Word): Snapshot {
    var tree, position := TreeOf(g), PositionOf(g);
    s.(validation := Pending,
       forest := InsertInto(s.forest, tree, position, leaf),
       positions := s.positions[leaf := Position(g, tree, position)],
       status := s.status[leaf := Valid])
  }

  /** Zero leaves move the cursor and nothing else. */
  function ApplyLeaves(s: Snapshot, start: nat, leaves: seq<Word>): Outcome
    decreases |leaves|
  {
    if leaves == [] then Outcome(s, true)
    else if start > U64_MAX then Outcome(s, false)
    else
      var placed := if leaves[0] == 0 then s else PlaceLeaf(s, start, leaves[0]);
      if start == U64_MAX then Outcome(placed, false)
      else ApplyLeaves(placed.(nextLeaf := Max(s.nextLeaf, start + 1)), start + 1, leaves[1..])
  }

  /** Artifact events carry event and leaf in one; even a zero leaf is inserted. */
  function ApplyArtifact(s: Snapshot, events: seq<Event>): Outcome
    decreases |events|
  {
    if events == [] then Outcome(s, true)
    else
      var e := events[0];
      var placed := PlaceLeaf(s, e.index, e.commitment);
      if e.index == U64_MAX then Outcome(placed, false)
      else ApplyArtifact(placed.(nextEvent := Max(s.nextEvent, e.index + 1),
                                 nextLeaf := Max(s.nextLeaf, e.index + 1)), events[1..])
  }

  /** A blocked shield never downgrades a valid commitment. */
  function Block(s: Snapshot, c: Word, b: BlockedShield): Snapshot {
    s.(blocked := s.blocked[c := b],
       status := if StatusOf(s, c) == Valid then s.status else s.status[c := ShieldBlocked])
  }

  function ApplyBlocked(s: Snapshot, list: seq<BlockedShield>): Outcome
    decreases |list|
  {
    if list == [] then Outcome(s.(blockedSynced := true), true)
    else if list[0].parsed.None? then Outcome(s, false)
    else ApplyBlocked(Block(s, list[0].parsed.value, list[0]), list[1..])
  }

  function Unblocked(s: Snapshot): Snapshot {
    s.(blocked := map[],
       status := map c | c in s.status && !(c in s.blocked && s.status[c] == ShieldBlocked) :: s.status[c])
  }

  function ReplaceBlocked(s: Snapshot, list: seq<BlockedShield>): Outcome {
    ApplyBlocked(Unblocked(s), list)
  }

  function StatusOf(s: Snapshot, c: Word): Status {
    if c in s.status then s.status[c] else Missing
  }

  // ---- Journal deltas ----

  predicate Contiguous(events: seq<Event>, start: nat) {
    forall i :: 0 <= i < |events| ==> events[i].index == start + i
  }

  /** Exactly the deltas a cache accepts: they continue both cursors, and their leaves
      are their events' commitments, index by index. */
  predicate Acceptable(s: Snapshot, d: Delta) {
    && d.version == DELTA_VERSION
    && d.identity == s.identity
    && d.eventStart == s.nextEvent && d.leafStart == s.nextLeaf
    && d.eventEnd == d.eventStart + |d.events| && d.leafEnd == d.leafStart + |d.leaves|
    && Contiguous(d.events, d.eventStart)
    && |d.events| == |d.leaves|
    && (d.events != [] ==> d.eventStart == d.leafStart)
    && forall i :: 0 <= i < |d.leaves| ==> d.leaves[i] == d.events[i].commitment
  }

  function ApplyDelta(s: Snapshot, d: Delta): Outcome {
    if !Acceptable(s, d) then Outcome(s, false)
    else
      var marked := ApplyEvents(s, d.events);
      if !marked.ok then marked else ApplyLeaves(marked.after, d.leafStart, d.leaves)
  }

  // ---- Folding in pieces ----

  lemma {:induction false} EventsInTwoParts(s: Snapshot, a: seq<Event>, b: seq<Event>)
    requires ApplyEvents(s, a).ok
    ensures ApplyEvents(s, a + b) == ApplyEvents(ApplyEvents(s, a).after, b)
    decreases |a|
  {
    if a == [] {
      assert a + b == b;
    } else {
      assert (a + b)[0] == a[0] && (a + b)[1..] == a[1..] + b;
      var next := MarkValid(s, a[0].commitment).(nextEvent := Max(s.nextEvent, a[0].index + 1));
      EventsInTwoParts(next, a[1..], b);
    }
  }

  lemma {:induction false} LeavesInTwoParts(s: Snapshot, start: nat, a: seq<Word>, b: seq<Word>)
    requires ApplyLeaves(s, start, a).ok
    ensures ApplyLeaves(s, start, a + b) == ApplyLeaves(ApplyLeaves(s, start, a).after, start + |a|, b)
    decreases |a|
  {
    if a == [] {
      assert a + b == b;
    } else {
      assert (a + b)[0] == a[0] && (a + b)[1..] == a[1..] + b;
      var placed := if a[0] == 0 then s else PlaceLeaf(s, start, a[0]);
      LeavesInTwoParts(placed.(nextLeaf := Max(s.nextLeaf, start + 1)), start + 1, a[1..], b);
    }
  }

  /** Contiguous events from the cursor succeed and move only statuses and the cursor. */
  lemma {:induction false} EventsFrom(s: Snapshot, events: seq<Event>)
    requires Contiguous(events, s.nextEvent) && s.nextEvent + |events| <= U64_MAX
    ensures var r := ApplyEvents(s, events);
            && r.ok && r.after.nextEvent == s.nextEvent + |events|
            && r.after == s.(nextEvent := r.after.nextEvent, status := r.after.status)
    decreases |events|
  {
    if events != [] {
      var next := MarkValid(s, events[0].commitment).(nextEvent := Max(s.nextEvent, events[0].index + 1));
      assert Contiguous(events[1..], next.nextEvent) by {
        forall i | 0 <= i < |events[1..]| ensures events[1..][i].index == next.nextEvent + i {
          assert events[1..][i] == events[i + 1];
        }
      }
      EventsFrom(next, events[1..]);
    }
  }

  lemma {:induction false} LeavesFrom(s: Snapshot, leaves: seq<Word>)
    requires s.nextLeaf + |leaves| <= U64_MAX
    ensures var r := ApplyLeaves(s, s.nextLeaf, leaves);
            && r.ok && r.after.nextLeaf == s.nextLeaf + |leaves|
            && r.after == s.(nextLeaf := r.after.nextLeaf, validation := r.after.validation,
                             forest := r.after.forest, positions := r.after.positions,
                             status := r.after.status)
    decreases |leaves|
  {
    if leaves != [] {
      var placed := if leaves[0] == 0 then s else PlaceLeaf(s, s.nextLeaf, leaves[0]);
      LeavesFrom(placed.(nextLeaf := s.nextLeaf + 1), leaves[1..]);
    }
  }

  /** An acceptable delta is always applied whole: the cursors end where it says, so
      the closing cursor check cannot fail. */
  lemma AcceptableDeltaApplies(s: Snapshot, d: Delta)
    requires Acceptable(s, d)
    ensures var r := ApplyDelta(s, d);
            && r.ok && r.after.nextEvent == d.eventEnd && r.after.nextLeaf == d.leafEnd
            && r.after.blocked == s.blocked && r.after.blockedSynced == s.blockedSynced
            && r.after.identity == s.identity
  {
    EventsFrom(s, d.events);
    LeavesFrom(ApplyEvents(s, d.events).after, d.leaves);
  }

  function ApplyDeltas(s: Snapshot, ds: seq<Delta>): Snapshot
    decreases |ds|
  {
    if ds == [] then s else ApplyDeltas(ApplyDelta(s, ds[0]).after, ds[1..])
  }

  /** Equal cursors stay equal over any sequence of deltas, accepted or not. */
  lemma {:induction false} CursorsStayTogether(s: Snapshot, ds: seq<Delta>)
    requires s.nextEvent == s.nextLeaf
    ensures ApplyDeltas(s, ds).nextEvent == ApplyDeltas(s, ds).nextLeaf
    decreases |ds|
  {
    if ds != [] {
      if Acceptable(s, ds[0]) {
        AcceptableDeltaApplies(s, ds[0]);
      }
      CursorsStayTogether(ApplyDelta(s, ds[0]).after, ds[1..]);
    }
  }
}
