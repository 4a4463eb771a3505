/** Replaying journal deltas with a dense tree beside the cache: the tree is either
    extended leaf by leaf or rebuilt. Its root is the recomputed one as long as the cursor
    has not passed 2^48, and exactly when it mirrors the forest after that. */
module PoiReplay {
  import opened Common
  import opened Merkle
  import opened PoiBounds
  import opened PoiModel
  import opened PoiInvariants
  import opened PoiSync

  /** The tree a delta's last event falls in. */
  function TipTree(d: Delta): nat
    requires d.eventEnd > 0
  {
    TreeOf(d.eventEnd - 1)
  }

  // ---- The dense tree on values ----

  /** The dense tree beside the cache: which tree it is, and the leaves it holds. */
  datatype Tip = NoTip | Tip(tree: nat, leaves: Positions)

  /** Sets the non-zero leaves at their positions. */
  function SetLeaves(m: Positions, start: U64, leaves: seq<Word>): Positions
    requires start + |leaves| <= U64_MAX
  {
    if leaves == [] then m
    else
      var n := |leaves| - 1;
      var rest := SetLeaves(m, start, leaves[..n]);
      if leaves[n] == 0 then rest else rest[PositionOf(start + n) := leaves[n]]
  }

  /** The delta starts and ends in the tree that is dense already. */
  predicate Extends(tip: Tip, d: Delta)
    requires d.eventEnd > 0
  {
    tip.Tip? && tip.tree == TipTree(d) && TreeOf(d.leafStart) == TipTree(d)
  }

  /** The dense tree after an accepted delta: extended, rebuilt from the forest up to the
      tip, or as it was when there are no leaves. */
  function NextTip(s: Snapshot, tip: Tip, d: Delta): Tip
    requires Acceptable(s, d) && d.eventEnd > 0
  {
    if d.leaves == [] then tip
    else if Extends(tip, d) then Tip(tip.tree, SetLeaves(tip.leaves, d.leafStart, d.leaves))
    else Tip(TipTree(d), Prefix(LeavesOf(PoiModel.ApplyDelta(s, d).after.forest, TipTree(d)), PositionOf(d.eventEnd - 1) + 1))
  }

  /** The root reported for a tree: the dense one's when it is that tree, else the cache's. */
  function RootAt(s: Snapshot, tip: Tip, tree: nat): Option<Word> {
    if tip.Tip? && tip.tree == tree then Some(TreeRoot(tip.leaves))
    else if tree in s.forest then Some(TreeRoot(s.forest[tree].leaves))
    else None
  }

  /** The dense tree holds exactly the leaves the forest has in its tree. */
  ghost predicate MirrorsForest(s: Snapshot, tip: Tip) {
    tip.Tip? ==> SameLeaves(tip.leaves, LeavesOf(s.forest, tip.tree))
  }

  // ---- When the dense tree mirrors the forest ----

  /** The leaves of the delta do not come round to the same tree again. */
  predicate Narrow(start: U64, count: nat) {
    start + count <= INDEX_LIMIT || count <= INDEX_LIMIT - LEAVES
  }

  lemma SameTreeSameRow(start: U64, count: nat, g: U64)
    requires Narrow(start, count) && start <= g < start + count <= U64_MAX
    requires TreeOf(g) == TreeOf(start + count - 1)
    ensures g / LEAVES == (start + count - 1) / LEAVES && PositionOf(g) <= PositionOf(start + count - 1)
  {
    var a, b := g / LEAVES, (start + count - 1) / LEAVES;
    assert 0 <= a <= b && b - a < TREE_NUMBERS;
    assert a % TREE_NUMBERS == b % TREE_NUMBERS;
  }

  lemma SameTreeBetween(start: U64, count: nat, g: U64)
    requires Narrow(start, count) && start <= g < start + count <= U64_MAX
    requires TreeOf(start) == TreeOf(start + count - 1)
    ensures TreeOf(g) == TreeOf(start)
  {
    SameTreeSameRow(start, count, start);
  }

  /** One more leaf, seen from its tree. */
  lemma LeafStep(s: Snapshot, start: U64, leaves: seq<Word>, n: nat)
    requires n < |leaves| && start + |leaves| <= U64_MAX && s.nextLeaf == start
    ensures var prev, next := ApplyLeaves(s, start, leaves[..n]).after, ApplyLeaves(s, start, leaves[..n + 1]).after;
            next.forest == if leaves[n] == 0 then prev.forest
                           else InsertInto(prev.forest, TreeOf(start + n), PositionOf(start + n), leaves[n])
  {
    var prev := ApplyLeaves(s, start, leaves[..n]);
    LeavesFrom(s, leaves[..n]);
    assert leaves[..n + 1] == leaves[..n] + [leaves[n]];
    LeavesInTwoParts(s, start, leaves[..n], [leaves[n]]);
    assert [leaves[n]][1..] == [];
  }

  /** The leaves of one tree after the first `n` leaves of a delta. */
  ghost function LeavesAfter(s: Snapshot, start: U64, leaves: seq<Word>, n: nat, tree: nat): Positions
    requires n <= |leaves|
  {
    LeavesOf(ApplyLeaves(s, start, leaves[..n]).after.forest, tree)
  }

  lemma SameLeavesAfterSet(a: Positions, b: Positions, position: nat, leaf: Word)
    requires SameLeaves(a, b)
    ensures SameLeaves(a[position := leaf], b[position := leaf])
  {
    var a', b' := a[position := leaf], b[position := leaf];
    forall i ensures LeafAt(a', i) == LeafAt(b', i) {
      assert LeafAt(a, i) == LeafAt(b, i);
    }
  }

  /** Within one tree, setting leaves is what the forest does. */
  lemma {:induction false} SetLeavesMirrors(s: Snapshot, m: Positions, start: U64, leaves: seq<Word>, n: nat)
    requires n <= |leaves| && leaves != [] && start + |leaves| <= U64_MAX && s.nextLeaf == start && Narrow(start, |leaves|)
    requires TreeOf(start) == TreeOf(start + |leaves| - 1) && SameLeaves(m, LeavesOf(s.forest, TreeOf(start)))
    ensures SameLeaves(SetLeaves(m, start, leaves[..n]), LeavesAfter(s, start, leaves, n, TreeOf(start)))
    decreases n
  {
    if n > 0 {
      SetLeavesMirrors(s, m, start, leaves, n - 1);
      LeafStep(s, start, leaves, n - 1);
      SameTreeBetween(start, |leaves|, start + (n - 1));
      assert leaves[..n][..n - 1] == leaves[..n - 1];
      SameLeavesAfterSet(SetLeaves(m, start, leaves[..n - 1]), LeavesAfter(s, start, leaves, n - 1, TreeOf(start)),
                         PositionOf(start + (n - 1)), leaves[n - 1]);
    }
  }

  /** A delta leaves its tip tree alone past the tip. */
  lemma {:induction false} PastTipUntouched(s: Snapshot, start: U64, leaves: seq<Word>, n: nat, p: nat)
    requires n <= |leaves| && leaves != [] && start + |leaves| <= U64_MAX && s.nextLeaf == start && Narrow(start, |leaves|)
    requires p > PositionOf(start + |leaves| - 1)
    ensures var tree := TreeOf(start + |leaves| - 1);
            LeafAt(LeavesAfter(s, start, leaves, n, tree), p) == LeafAt(LeavesOf(s.forest, tree), p)
    decreases n
  {
    if n > 0 {
      PastTipUntouched(s, start, leaves, n - 1, p);
      LeafStep(s, start, leaves, n - 1);
      if TreeOf(start + (n - 1)) == TreeOf(start + |leaves| - 1) {
        SameTreeSameRow(start, |leaves|, start + (n - 1));
      }
    }
  }

  lemma PrefixMirrors(m: Positions, count: nat)
    ensures SameLeaves(Prefix(m, count), m) <==> forall p: nat :: p >= count ==> LeafAt(m, p) == EMPTY_LEAF
  {
    if SameLeaves(Prefix(m, count), m) {
      forall p: nat | p >= count ensures LeafAt(m, p) == EMPTY_LEAF {
        assert LeafAt(Prefix(m, count), p) == LeafAt(m, p);
      }
    }
  }

  /** The tree of an index holds nothing past it. */
  ghost predicate NothingPast(forest: Forest, g: U64) {
    forall p: nat :: p > PositionOf(g) ==> LeafAt(LeavesOf(forest, TreeOf(g)), p) == EMPTY_LEAF
  }

  /** What an accepted delta does to the forest is what its leaves do. */
  lemma DeltaIsLeaves(before: Snapshot, d: Delta)
    requires Acceptable(before, d)
    ensures var marked := ApplyEvents(before, d.events).after;
            && marked.forest == before.forest && marked.nextLeaf == d.leafStart
            && PoiModel.ApplyDelta(before, d).after == ApplyLeaves(marked, d.leafStart, d.leaves).after
  {
    EventsFrom(before, d.events);
  }

  lemma ExtendedMirrors(s: Snapshot, tip: Tip, d: Delta)
    requires Acceptable(s, d) && d.leaves != [] && Narrow(d.leafStart, |d.leaves|) && MirrorsForest(s, tip)
    requires Extends(tip, d)
    ensures MirrorsForest(PoiModel.ApplyDelta(s, d).after, NextTip(s, tip, d))
  {
    DeltaIsLeaves(s, d);
    SetLeavesMirrors(ApplyEvents(s, d.events).after, tip.leaves, d.leafStart, d.leaves, |d.leaves|);
    assert d.leaves[..|d.leaves|] == d.leaves;
  }

  lemma RebuiltMirrorsExactly(s: Snapshot, tip: Tip, d: Delta)
    requires Acceptable(s, d) && d.leaves != [] && Narrow(d.leafStart, |d.leaves|)
    requires !Extends(tip, d)
    ensures MirrorsForest(PoiModel.ApplyDelta(s, d).after, NextTip(s, tip, d)) <==> NothingPast(s.forest, d.eventEnd - 1)
  {
    var last := d.eventEnd - 1;
    var after := PoiModel.ApplyDelta(s, d).after;
    DeltaIsLeaves(s, d);
    PrefixMirrors(LeavesOf(after.forest, TreeOf(last)), PositionOf(last) + 1);
    assert d.leaves[..|d.leaves|] == d.leaves;
    forall p: nat | p > PositionOf(last)
      ensures LeafAt(LeavesOf(after.forest, TreeOf(last)), p) == LeafAt(LeavesOf(s.forest, TreeOf(last)), p)
    {
      PastTipUntouched(ApplyEvents(s, d.events).after, d.leafStart, d.leaves, |d.leaves|, p);
    }
  }

  /** The dense tree mirrors the forest after a delta exactly when it was extended or the
      tree of the tip held nothing past the tip. */
  lemma TipMirrorsExactly(s: Snapshot, tip: Tip, d: Delta)
    requires Acceptable(s, d) && d.leaves != [] && Narrow(d.leafStart, |d.leaves|) && MirrorsForest(s, tip)
    ensures MirrorsForest(PoiModel.ApplyDelta(s, d).after, NextTip(s, tip, d))
       <==> Extends(tip, d) || NothingPast(s.forest, d.eventEnd - 1)
  {
    if Extends(tip, d) {
      ExtendedMirrors(s, tip, d);
    } else {
      RebuiltMirrorsExactly(s, tip, d);
    }
  }

  /** Leaves below the cursor are never past a later tip. */
  lemma BelowIsNotPast(s: Snapshot, g: U64)
    requires LeavesBelowCursor(s) && s.nextLeaf <= g < INDEX_LIMIT
    ensures NothingPast(s.forest, g)
  {
    PlaceNumber(g);
    forall p | p in LeavesOf(s.forest, TreeOf(g)) ensures p <= PositionOf(g) {
      assert TreeOf(g) * LEAVES + p < s.nextLeaf;
    }
  }

  /** Once the cursor has passed 2^48, tree numbers repeat: a rebuilt dense tree then misses
      the leaves that the first round left past the tip. */
  lemma WrappedTipMisses(identity: Identity, a: Event, b: Event, c: Event, e: Event)
    requires a.index == 0 && b.index == 1 && c.index == INDEX_LIMIT - 1 && e.index == INDEX_LIMIT
    requires b.commitment != EMPTY_LEAF
    ensures var s := Run(NewSnapshot(identity), [Artifact([a, b, c])]);
            var d := Delta(DELTA_VERSION, identity, INDEX_LIMIT, INDEX_LIMIT + 1, INDEX_LIMIT, INDEX_LIMIT + 1, [e], [e.commitment]);
            Acceptable(s, d) && !MirrorsForest(PoiModel.ApplyDelta(s, d).after, NextTip(s, NoTip, d))
  {
    var s0 := NewSnapshot(identity);
    var ops := [Artifact([a, b, c])];
    assert ops[..|ops| - 1] == [] && Run(s0, []) == s0;
    var s := Run(s0, ops);
    var d := Delta(DELTA_VERSION, identity, INDEX_LIMIT, INDEX_LIMIT + 1, INDEX_LIMIT, INDEX_LIMIT + 1, [e], [e.commitment]);
    ThreePlaced(s0, a, b, c);
    TipMirrorsExactly(s, NoTip, d);
    assert LeafAt(LeavesOf(s.forest, TreeOf(INDEX_LIMIT)), 1) == b.commitment;
  }

  lemma ThreePlaced(s: Snapshot, a: Event, b: Event, c: Event)
    requires s.forest == map[] && s.nextEvent == s.nextLeaf == 0
    requires a.index == 0 && b.index == 1 && c.index == INDEX_LIMIT - 1
    ensures var after := ApplyArtifact(s, [a, b, c]).after;
            && after.nextEvent == after.nextLeaf == INDEX_LIMIT && after.identity == s.identity
            && LeafAt(LeavesOf(after.forest, 0), 1) == b.commitment
  {
    assert [a, b, c][1..] == [b, c] && [b, c][1..] == [c] && [c][1..] == [];
    var s1 := PlaceLeaf(s, a.index, a.commitment).(nextEvent := 1, nextLeaf := 1);
    var s2 := PlaceLeaf(s1, b.index, b.commitment).(nextEvent := 2, nextLeaf := 2);
    var s3 := PlaceLeaf(s2, c.index, c.commitment).(nextEvent := INDEX_LIMIT, nextLeaf := INDEX_LIMIT);
    assert ApplyArtifact(s3, []).after == s3;
    assert ApplyArtifact(s2, [c]).after == s3;
    assert ApplyArtifact(s1, [b, c]).after == s3;
    assert ApplyArtifact(s, [a, b, c]).after == s3;
  }

  // ---- Below 2^48 ----

  /** What incremental replay needs of the cache it starts from. */
  predicate Replayable(s: Snapshot) {
    CoherentForest(s.forest) && LeavesBelowCursor(s) && s.nextLeaf <= INDEX_LIMIT
  }

  /** A cache reached from an empty one can be replayed onto exactly when its cursor is at
      the limit, or below it and no leaf escaped to the last 64-bit index. */
  lemma ReachableIsReplayable(identity: Identity, ops: seq<Op>)
    ensures var s := Run(NewSnapshot(identity), ops);
            Replayable(s) <==>
              s.nextLeaf == INDEX_LIMIT || (s.nextLeaf < INDEX_LIMIT && !EverEscapes(NewSnapshot(identity), ops))
  {
    RootsNeverStale(identity, ops);
    if Run(NewSnapshot(identity), ops).nextLeaf <= INDEX_LIMIT {
      LeavesBelowOverRun(identity, ops);
    }
  }

  lemma DeltaKeepsReplayable(before: Snapshot, d: Delta)
    requires Replayable(before) && Acceptable(before, d) && d.leafEnd <= INDEX_LIMIT
    ensures Replayable(PoiModel.ApplyDelta(before, d).after) && PoiModel.ApplyDelta(before, d).after.nextLeaf == d.leafEnd
  {
    AcceptableDeltaApplies(before, d);
    DeltaStaysBelow(before, d);
  }

  /** Below 2^48 the dense tree always mirrors the forest. */
  lemma TipMirrorsBelow(s: Snapshot, tip: Tip, d: Delta)
    requires Replayable(s) && MirrorsForest(s, tip) && Acceptable(s, d) && d.eventEnd > 0 && d.leafEnd <= INDEX_LIMIT
    ensures MirrorsForest(PoiModel.ApplyDelta(s, d).after, NextTip(s, tip, d))
  {
    if d.leaves == [] {
      DeltaIsLeaves(s, d);
    } else {
      BelowIsNotPast(s, d.eventEnd - 1);
      TipMirrorsExactly(s, tip, d);
    }
  }

  // ---- The replay as it runs ----

  /** Sets the non-zero leaves of a delta that stays within one tree. */
  method ExtendDense(dense: DenseMerkleTree, ghost m: Positions, start: U64, leaves: seq<Word>)
    requires start + |leaves| <= U64_MAX && Mirrors(dense, m)
    modifies dense
    ensures Mirrors(dense, SetLeaves(m, start, leaves))
  {
    for n := 0 to |leaves|
      invariant dense.Valid() && SameLeaves(dense.Leaves(), SetLeaves(m, start, leaves[..n]))
    {
      assert leaves[..n + 1][..n] == leaves[..n];
      if leaves[n] != 0 {
        SameLeavesAfterSet(dense.Leaves(), SetLeaves(m, start, leaves[..n]), PositionOf(start + n), leaves[n]);
        dense.SetLeaf(PositionOf(start + n), leaves[n]);
      }
    }
    assert leaves[..|leaves|] == leaves;
  }

  class JournalReplay {
    var cache: PoiCache
    var tree: nat
    var dense: DenseMerkleTree?
    ghost var tip: Tip

    /** The dense tree, when there is one, is the tip. */
    ghost predicate Valid()
      reads this, cache, dense
    {
      && CoherentForest(cache.snapshot.forest)
      && (dense == null <==> tip.NoTip?)
      && (dense != null ==> tree == tip.tree && Mirrors(dense, tip.leaves))
    }

    constructor (cache: PoiCache)
      requires CoherentForest(cache.snapshot.forest)
      ensures Valid() && this.cache == cache && dense == null
    {
      this.cache, this.tree, this.dense, this.tip := cache, 0, null, NoTip;
    }

    /** Applies one delta and returns the root of the tip's tree. */
    method ApplyDelta(d: Delta) returns (r: Option<Word>)
      requires Valid()
      modifies this, cache, if dense == null then {} else {dense}
      ensures Valid() && cache == old(cache) && (dense == old(dense) || fresh(dense))
      ensures if d.eventEnd > 0 && Acceptable(old(cache.snapshot), d)
              then && cache.snapshot == PoiModel.ApplyDelta(old(cache.snapshot), d).after
                   && tip == NextTip(old(cache.snapshot), old(tip), d)
                   && r == RootAt(cache.snapshot, tip, TipTree(d))
              else cache.snapshot == old(cache.snapshot) && tip == old(tip) && r == None
    {
      if d.eventEnd == 0 {
        return None;
      }
      var last := d.eventEnd - 1;
      var extend := d.leaves != [] && dense != null && tree == TreeOf(last) && TreeOf(d.leafStart) == TreeOf(last);
      ghost var before := cache.snapshot;
      var accepted := cache.ApplyJournalDelta(d);
      if !accepted {
        return None;
      }
      DeltaKeepsCoherent(before, d);
      AdvanceDense(before, d, extend);
      r := TipRoot(TreeOf(last));
    }

    /** The root of a tree: from the dense tree when it is that tree, else from the cache. */
    method TipRoot(tipTree: nat) returns (r: Option<Word>)
      requires Valid()
      ensures r == RootAt(cache.snapshot, tip, tipTree)
    {
      if dense != null && tree == tipTree {
        var root := dense.Root();
        SameLeavesSameNode(dense.Leaves(), tip.leaves, DEPTH, 0);
        return Some(root);
      }
      var roots := cache.CurrentRootsReadonly();
      return if tipTree in roots then Some(roots[tipTree]) else None;
    }

    /** Extends the dense tree, rebuilds it, or leaves it when there are no leaves. */
    method AdvanceDense(ghost before: Snapshot, d: Delta, extend: bool)
      requires Valid() && Acceptable(before, d) && d.eventEnd > 0
      requires cache.snapshot == PoiModel.ApplyDelta(before, d).after
      requires extend <==> d.leaves != [] && Extends(tip, d)
      modifies this`tree, this`dense, this`tip, if dense == null then {} else {dense}
      ensures Valid() && tip == NextTip(before, old(tip), d)
      ensures dense == old(dense) || fresh(dense)
      ensures cache.snapshot == old(cache.snapshot)
    {
      var last := d.eventEnd - 1;
      if extend {
        ExtendDense(dense, tip.leaves, d.leafStart, d.leaves);
      } else if d.leaves != [] {
        dense := new DenseMerkleTree.FromPrefix(LeavesOf(cache.snapshot.forest, TreeOf(last)), PositionOf(last) + 1);
        tree := TreeOf(last);
      }
      tip := NextTip(before, tip, d);
    }

    method Finish() returns (roots: Roots)
      requires Valid()
      modifies cache
      ensures cache.snapshot == JudgedRoots(old(cache.snapshot), true)
      ensures cache.snapshot.validation == Validated(CurrentRoots(cache.snapshot.forest))
    {
      roots := cache.AcceptCurrentRoots();
    }
  }

  // ---- Replaying a stored journal ----

  /** A delta with what its journal row says about it. */
  datatype Stored = Stored(
    delta: Delta, eventStart: U64, eventEnd: U64, leafStart: U64, leafEnd: U64, startRoot: Word, endRoot: Word)
  {
    predicate Describes() {
      && delta.eventStart == eventStart && delta.eventEnd == eventEnd
      && delta.leafStart == leafStart && delta.leafEnd == leafEnd
    }
  }

  function DeltasOf(rows: seq<Stored>): seq<Delta> {
    seq(|rows|, i requires 0 <= i < |rows| => rows[i].delta)
  }

  /** One row replays: it describes its delta, continues the root, is accepted, and ends
      at the root the replay reports. */
  predicate RowReplays(s: Snapshot, tip: Tip, root: Word, row: Stored) {
    var d := row.delta;
    && row.Describes() && row.startRoot == root
    && d.eventEnd > 0 && Acceptable(s, d)
    && RootAt(PoiModel.ApplyDelta(s, d).after, NextTip(s, tip, d), TipTree(d)) == Some(row.endRoot)
  }

  /** The rows replay in turn. */
  predicate Replays(s: Snapshot, tip: Tip, root: Word, rows: seq<Stored>)
    decreases |rows|
  {
    rows == []
    || (&& RowReplays(s, tip, root, rows[0])
        && Replays(PoiModel.ApplyDelta(s, rows[0].delta).after, NextTip(s, tip, rows[0].delta), rows[0].endRoot, rows[1..]))
  }

  /** Replays one row. */
  method ReplayRow(replay: JournalReplay, row: Stored, root: Word) returns (ok: bool)
    requires replay.Valid()
    modifies replay, replay.cache, if replay.dense == null then {} else {replay.dense}
    ensures replay.Valid() && replay.cache == old(replay.cache)
    ensures replay.dense == old(replay.dense) || fresh(replay.dense)
    ensures ok <==> RowReplays(old(replay.cache.snapshot), old(replay.tip), root, row)
    ensures ok ==> replay.cache.snapshot == PoiModel.ApplyDelta(old(replay.cache.snapshot), row.delta).after
    ensures ok ==> replay.tip == NextTip(old(replay.cache.snapshot), old(replay.tip), row.delta)
  {
    if !row.Describes() || row.startRoot != root {
      return false;
    }
    var tip := replay.ApplyDelta(row.delta);
    return tip.Some? && tip.value == row.endRoot;
  }

  lemma DeltasFront(rows: seq<Stored>)
    requires rows != []
    ensures DeltasOf(rows)[0] == rows[0].delta && DeltasOf(rows)[1..] == DeltasOf(rows[1..])
  {
  }

  /** Replays the rows of a journal onto a cache and accepts the roots. It succeeds exactly
      when the rows replay, and then leaves the cache their deltas give. */
  method ReplayJournal(cache: PoiCache, rows: seq<Stored>, root: Word) returns (r: Option<Word>)
    requires CoherentForest(cache.snapshot.forest)
    modifies cache
    ensures r.Some? <==> Replays(old(cache.snapshot), NoTip, root, rows)
    ensures r.Some? ==> cache.snapshot == JudgedRoots(ApplyDeltas(old(cache.snapshot), DeltasOf(rows)), true)
    ensures r.Some? ==> r.value == if rows == [] then root else rows[|rows| - 1].endRoot
  {
    var replay := new JournalReplay(cache);
    var current := root;
    for n := 0 to |rows|
      invariant replay.Valid() && replay.cache == cache && fresh(replay) && (replay.dense != null ==> fresh(replay.dense))
      invariant Replays(old(cache.snapshot), NoTip, root, rows) <==> Replays(cache.snapshot, replay.tip, current, rows[n..])
      invariant ApplyDeltas(old(cache.snapshot), DeltasOf(rows)) == ApplyDeltas(cache.snapshot, DeltasOf(rows[n..]))
      invariant current == if n == 0 then root else rows[n - 1].endRoot
    {
      DeltasFront(rows[n..]);
      assert rows[n..][0] == rows[n] && rows[n..][1..] == rows[n + 1..];
      var ok := ReplayRow(replay, rows[n], current);
      if !ok {
        return None;
      }
      current := rows[n].endRoot;
    }
    var roots := replay.Finish();
    return Some(current);
  }

  // ---- What a replay checks ----

  /** The row ends at the root of the forest as recomputed. A delta without leaves has a
      root to end at when the tree holds leaves or an earlier delta brought some. */
  predicate RowRecomputes(s: Snapshot, root: Word, row: Stored, grown: bool) {
    var d := row.delta;
    var after := PoiModel.ApplyDelta(s, d).after;
    && d.eventStart == row.eventStart && d.eventEnd == row.eventEnd
    && d.leafStart == row.leafStart && d.leafEnd == row.leafEnd && row.startRoot == root
    && d.eventEnd > 0 && Acceptable(s, d)
    && (d.leaves != [] || grown || TipTree(d) in after.forest)
    && row.endRoot == TreeRoot(LeavesOf(after.forest, TipTree(d)))
  }

  predicate Recomputes(s: Snapshot, root: Word, rows: seq<Stored>, grown: bool)
    decreases |rows|
  {
    rows == []
    || (&& RowRecomputes(s, root, rows[0], grown)
        && Recomputes(PoiModel.ApplyDelta(s, rows[0].delta).after, rows[0].endRoot, rows[1..],
                      grown || rows[0].delta.leaves != []))
  }

  /** The dense tree is there exactly when a delta brought leaves, and is then the tree of
      the last event. */
  predicate AtTip(s: Snapshot, tip: Tip, grown: bool) {
    && (grown <==> tip.Tip?)
    && (grown ==> s.nextEvent > 0 && s.nextEvent == s.nextLeaf && tip.tree == TreeOf(s.nextEvent - 1))
  }

  lemma StaysAtTip(s: Snapshot, tip: Tip, d: Delta, grown: bool)
    requires Acceptable(s, d) && d.eventEnd > 0 && AtTip(s, tip, grown)
    ensures AtTip(PoiModel.ApplyDelta(s, d).after, NextTip(s, tip, d), grown || d.leaves != [])
    ensures d.leaves == [] && grown ==> tip.tree == TipTree(d)
  {
    AcceptableDeltaApplies(s, d);
  }

  /** Below 2^48 a row replays exactly when it ends at the recomputed root. */
  lemma RowReplayRecomputes(s: Snapshot, tip: Tip, root: Word, row: Stored, grown: bool)
    requires Replayable(s) && MirrorsForest(s, tip) && AtTip(s, tip, grown)
    requires Acceptable(s, row.delta) ==> row.delta.leafEnd <= INDEX_LIMIT
    ensures RowReplays(s, tip, root, row) <==> RowRecomputes(s, root, row, grown)
  {
    var d := row.delta;
    if Acceptable(s, d) && d.eventEnd > 0 {
      TipMirrorsBelow(s, tip, d);
      StaysAtTip(s, tip, d, grown);
      var after, tip' := PoiModel.ApplyDelta(s, d).after, NextTip(s, tip, d);
      if tip'.Tip? { SameLeavesSameNode(tip'.leaves, LeavesOf(after.forest, tip'.tree), DEPTH, 0); }
    }
  }

  lemma {:induction false} DeltasRaiseCursor(s: Snapshot, ds: seq<Delta>)
    ensures ApplyDeltas(s, ds).nextLeaf >= s.nextLeaf
    decreases |ds|
  {
    if ds != [] {
      if Acceptable(s, ds[0]) { AcceptableDeltaApplies(s, ds[0]); }
      DeltasRaiseCursor(PoiModel.ApplyDelta(s, ds[0]).after, ds[1..]);
    }
  }

  /** Below 2^48 a journal replays exactly when each row ends at the recomputed root. */
  lemma {:induction false} ReplayRecomputes(s: Snapshot, tip: Tip, root: Word, rows: seq<Stored>, grown: bool)
    requires Replayable(s) && MirrorsForest(s, tip) && AtTip(s, tip, grown)
    requires ApplyDeltas(s, DeltasOf(rows)).nextLeaf <= INDEX_LIMIT
    ensures Replays(s, tip, root, rows) <==> Recomputes(s, root, rows, grown)
    decreases |rows|
  {
    if rows != [] {
      var d := rows[0].delta;
      var after := PoiModel.ApplyDelta(s, d).after;
      DeltasFront(rows);
      DeltasRaiseCursor(after, DeltasOf(rows[1..]));
      if Acceptable(s, d) { AcceptableDeltaApplies(s, d); }
      RowReplayRecomputes(s, tip, root, rows[0], grown);
      if RowReplays(s, tip, root, rows[0]) {
        DeltaKeepsReplayable(s, d);
        TipMirrorsBelow(s, tip, d);
        StaysAtTip(s, tip, d, grown);
        ReplayRecomputes(after, NextTip(s, tip, d), rows[0].endRoot, rows[1..], grown || d.leaves != []);
      }
    }
  }

  /** Replaying onto a reachable cache gives a reachable cache. */
  lemma {:induction false} ReplayedIsReachable(s: Snapshot, ds: seq<Delta>)
    requires Reachable(s)
    ensures Reachable(ApplyDeltas(s, ds)) && Reachable(JudgedRoots(ApplyDeltas(s, ds), true))
    decreases |ds|
  {
    if ds == [] {
      StepIsReachable(s, AcceptRoots);
    } else {
      StepIsReachable(s, JournalDelta(ds[0]));
      ReplayedIsReachable(PoiModel.ApplyDelta(s, ds[0]).after, ds[1..]);
    }
  }
}
