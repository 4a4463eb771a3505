/** The journal and the cache together: a journal whose appends carry what syncs captured
    loads to the synced cache. */
module CorpusJournal {
  import opened Common
  import opened JournalModel
  import opened JournalRuns
  import Merkle
  import Poi = PoiModel
  import Inv = PoiInvariants
  import opened PoiAgree
  import opened PoiPages
  import opened PoiReplay
  import opened PoiSync

  /** Any decoders of stored payloads. */
  const DecodeBase: Bytes -> Option<Poi.Snapshot>
  const DecodeDelta: Bytes -> Option<Poi.Delta>
  const DecodeBlocked: Bytes -> Option<seq<Poi.BlockedShield>>

  // ---- Loading ----

  function RowOf(d: DeltaRecord): Option<Stored> {
    match DecodeDelta(d.payload)
    case None => None
    case Some(delta) =>
      Some(Stored(delta, d.eventStart, d.eventEnd, d.leafStart, d.leafEnd, d.startRoot, d.endRoot))
  }

  /** The decoded delta rows, if all of them decode. */
  function RowsOf(entries: seq<ScanEntry>): Option<seq<Stored>> {
    if entries == [] then Some([])
    else
      var init, last := RowsOf(entries[..|entries| - 1]), entries[|entries| - 1].row;
      if init.None? || !last.DeltaRow? || RowOf(last.delta).None? then None
      else Some(init.value + [RowOf(last.delta).value])
  }

  function LastRoot(root: Word, rows: seq<Stored>): Word {
    if rows == [] then root else rows[|rows| - 1].endRoot
  }

  function BlockedPayload(t: Tables, id: CorpusId): Option<Bytes> {
    if BlockedKey(id) in t.journal && t.journal[BlockedKey(id)].BlockedRow?
    then Some(t.journal[BlockedKey(id)].blocked.payload) else None
  }

  /** The blocked snapshot, if one is stored, replaces the list of the replayed cache. */
  function WithBlocked(s: Poi.Snapshot, payload: Option<Bytes>): Option<Poi.Snapshot> {
    match payload
    case None => Some(s)
    case Some(bytes) =>
      match DecodeBlocked(bytes)
      case None => None
      case Some(list) => if Poi.ReplaceBlocked(s, list).ok then Some(Poi.ReplaceBlocked(s, list).after) else None
  }

  predicate EndsAt(s: Poi.Snapshot, root: Word, h: HeadRecord) {
    s.nextEvent == h.eventCursor && s.nextLeaf == h.leafCursor && root == h.corpus.tipRoot
  }

  /** Replays a stored journal: base, deltas, accepted roots, blocked snapshot, and the
      comparison with the head. */
  function Load(t: Tables, id: CorpusId): Option<Poi.Snapshot>
    requires DecodedBase(t, id).Some? && ReadableHead(t, id).Some?
  {
    var base := DecodedBase(t, id).value;
    match (DecodeBase(base.payload), RowsOf(DeltaRows(t, id)))
    case (Some(start), Some(rows)) =>
      if !Replays(start, NoTip, base.tipRoot, rows) then None
      else
        var replayed := Inv.JudgedRoots(Poi.ApplyDeltas(start, PoiReplay.DeltasOf(rows)), true);
        (match WithBlocked(replayed, BlockedPayload(t, id))
         case None => None
         case Some(s) => if EndsAt(s, LastRoot(base.tipRoot, rows), ReadableHead(t, id).value) then Some(s) else None)
    case _ => None
  }

  // ---- What loads ----

  /** The row says of the delta what the stored record says, and holds what it decodes to. */
  predicate Restates(row: Stored, d: DeltaRecord) {
    && DecodeDelta(d.payload) == Some(row.delta)
    && row.eventStart == d.eventStart && row.eventEnd == d.eventEnd
    && row.leafStart == d.leafStart && row.leafEnd == d.leafEnd
    && row.startRoot == d.startRoot && row.endRoot == d.endRoot
  }

  predicate RestatesAll(rows: seq<Stored>, entries: seq<ScanEntry>) {
    |rows| == |entries| && forall i :: 0 <= i < |rows| ==> entries[i].row.DeltaRow? && Restates(rows[i], entries[i].row.delta)
  }

  lemma {:induction false} RowsOfExactly(entries: seq<ScanEntry>, rows: seq<Stored>)
    ensures RowsOf(entries) == Some(rows) <==> RestatesAll(rows, entries)
    decreases |entries|
  {
    if entries != [] {
      var n := |entries| - 1;
      if rows != [] {
        RowsOfExactly(entries[..n], rows[..|rows| - 1]);
        if RowsOf(entries) == Some(rows) {
          assert rows[..n] == RowsOf(entries[..n]).value;
        }
        if RestatesAll(rows, entries) {
          assert RestatesAll(rows[..n], entries[..n]);
          assert rows == rows[..n] + [rows[n]];
        }
      }
    }
  }

  /** The cache a journal loads to: the base, the deltas in turn, accepted roots and the
      snapshot, ending at the cursors and the root of the head. */
  ghost predicate LoadsTo(t: Tables, id: CorpusId, start: Poi.Snapshot, rows: seq<Stored>, s: Poi.Snapshot)
    requires DecodedBase(t, id).Some? && ReadableHead(t, id).Some?
  {
    var base, h := DecodedBase(t, id).value, ReadableHead(t, id).value;
    var replayed := Inv.JudgedRoots(Poi.ApplyDeltas(start, PoiReplay.DeltasOf(rows)), true);
    && DecodeBase(base.payload) == Some(start) && RestatesAll(rows, DeltaRows(t, id))
    && Replays(start, NoTip, base.tipRoot, rows)
    && s.nextEvent == h.eventCursor && s.nextLeaf == h.leafCursor
    && (if rows == [] then h.corpus.tipRoot == base.tipRoot else h.corpus.tipRoot == rows[|rows| - 1].endRoot)
    && Settles(t, id, replayed, s)
  }

  /** The stored snapshot of blocked shields, where there is one, replaces the list. */
  predicate Settles(t: Tables, id: CorpusId, replayed: Poi.Snapshot, s: Poi.Snapshot) {
    if BlockedKey(id) in t.journal && t.journal[BlockedKey(id)].BlockedRow?
    then
      var list := DecodeBlocked(t.journal[BlockedKey(id)].blocked.payload);
      list.Some? && AllParse(list.value) && s == Poi.ReplaceBlocked(replayed, list.value).after
    else s == replayed
  }

  lemma SettlesExactly(t: Tables, id: CorpusId, replayed: Poi.Snapshot, s: Poi.Snapshot)
    ensures WithBlocked(replayed, BlockedPayload(t, id)) == Some(s) <==> Settles(t, id, replayed, s)
  {
    var payload := BlockedPayload(t, id);
    if payload.Some? && DecodeBlocked(payload.value).Some? {
      BlockedApplies(Poi.Unblocked(replayed), DecodeBlocked(payload.value).value);
    }
  }

  lemma LoadsFrom(t: Tables, id: CorpusId, start: Poi.Snapshot, rows: seq<Stored>, s: Poi.Snapshot)
    requires DecodedBase(t, id).Some? && ReadableHead(t, id).Some?
    requires DecodeBase(DecodedBase(t, id).value.payload) == Some(start) && RowsOf(DeltaRows(t, id)) == Some(rows)
    ensures Load(t, id) == Some(s) <==> LoadsTo(t, id, start, rows, s)
  {
    RowsOfExactly(DeltaRows(t, id), rows);
    SettlesExactly(t, id, Inv.JudgedRoots(Poi.ApplyDeltas(start, PoiReplay.DeltasOf(rows)), true), s);
  }

  /** Loading gives exactly the cache the rows lead to, and fails when they lead nowhere. */
  lemma LoadExactly(t: Tables, id: CorpusId, s: Poi.Snapshot)
    requires DecodedBase(t, id).Some? && ReadableHead(t, id).Some?
    ensures Load(t, id) == Some(s) <==> exists start, rows :: LoadsTo(t, id, start, rows, s)
  {
    if Load(t, id) == Some(s) {
      var start, rows := DecodeBase(DecodedBase(t, id).value.payload).value, RowsOf(DeltaRows(t, id)).value;
      LoadsFrom(t, id, start, rows, s);
    }
    if exists start, rows :: LoadsTo(t, id, start, rows, s) {
      var start, rows :| LoadsTo(t, id, start, rows, s);
      RowsOfExactly(DeltaRows(t, id), rows);
      LoadsFrom(t, id, start, rows, s);
    }
  }

  // ---- A journal in step with a cache ----

  ghost predicate BlockedInStep(payload: Option<Bytes>, start: Poi.Snapshot, s: Poi.Snapshot) {
    match payload
    case None => s.blocked == start.blocked
    case Some(bytes) =>
      && DecodeBlocked(bytes).Some? && AllParse(DecodeBlocked(bytes).value)
      && s.blocked == BlockedMap(map[], DecodeBlocked(bytes).value)
  }

  predicate HeadInStep(t: Tables, id: CorpusId, s: Poi.Snapshot) {
    match ReadableHead(t, id)
    case None => true
    case Some(h) => h.eventCursor == s.nextEvent && h.leafCursor == s.nextLeaf
  }

  ghost predicate RowsInStep(entries: seq<ScanEntry>, start: Poi.Snapshot, root: Word, s: Poi.Snapshot) {
    && RowsOf(entries).Some?
    && Recomputes(start, root, RowsOf(entries).value, false)
    && Agree(Poi.ApplyDeltas(start, PoiReplay.DeltasOf(RowsOf(entries).value)), s)
  }

  /** The journal is sound and holds what leads from its base to the cache. */
  ghost predicate InStep(t: Tables, id: CorpusId, start: Poi.Snapshot, s: Poi.Snapshot) {
    && SoundJournal(t, id) && Inv.Reachable(start) && Inv.Reachable(s)
    && DecodeBase(DecodedBase(t, id).value.payload) == Some(start)
    && RowsInStep(DeltaRows(t, id), start, DecodedBase(t, id).value.tipRoot, s)
    && BlockedInStep(BlockedPayload(t, id), start, s)
    && HeadInStep(t, id, s)
  }

  // ---- Loading a journal in step ----

  lemma {:induction false} LastRootIsStored(entries: seq<ScanEntry>, root: Word)
    requires RowsOf(entries).Some? && AllDeltas(entries)
    ensures |RowsOf(entries).value| == |entries|
    ensures LastRoot(root, RowsOf(entries).value)
         == if entries == [] then root else entries[|entries| - 1].row.delta.endRoot
    decreases |entries|
  {
    if entries != [] { LastRootIsStored(entries[..|entries| - 1], root); }
  }

  lemma SoundEndsAtHead(t: Tables, id: CorpusId)
    requires SoundJournal(t, id) && ReadableHead(t, id).Some? && RowsOf(DeltaRows(t, id)).Some?
    ensures LastRoot(DecodedBase(t, id).value.tipRoot, RowsOf(DeltaRows(t, id)).value) == ReadableHead(t, id).value.corpus.tipRoot
  {
    LastRootIsStored(DeltaRows(t, id), DecodedBase(t, id).value.tipRoot);
  }

  lemma BlockedSettles(r: Poi.Snapshot, start: Poi.Snapshot, s: Poi.Snapshot, payload: Option<Bytes>)
    requires Inv.Reachable(r) && Inv.Reachable(s) && Agree(r, s) && r.blocked == start.blocked
    requires BlockedInStep(payload, start, s)
    ensures WithBlocked(Inv.JudgedRoots(r, true), payload).Some?
    ensures WithBlocked(Inv.JudgedRoots(r, true), payload).value.(blockedSynced := s.blockedSynced) == Inv.JudgedRoots(s, true)
  {
    if payload.None? {
      SameCache(r, s);
    } else {
      var list, j := DecodeBlocked(payload.value).value, Inv.JudgedRoots(r, true);
      BlockedApplies(Poi.Unblocked(j), list);
      var after := Poi.ReplaceBlocked(j, list).after;
      Inv.StepIsReachable(r, Inv.AcceptRoots);
      Inv.StepIsReachable(j, Inv.SetBlocked(list));
      AgreementSwaps(r, s);
      JudgedAgrees(s, r, true);
      ReplacedAgrees(s, j, list);
      ReplacedGivesMap(j, list);
      AgreementSwaps(s, after);
      SameCache(after, s);
      ReplacedKeepsRoots(j, list);
      assert Inv.JudgedRoots(after, true) == after by {
        assert after.forest == Poi.CachedForest(r.forest);
        JudgedTwice(r.forest);
      }
    }
  }

  lemma ReplacedKeepsRoots(s: Poi.Snapshot, list: seq<Poi.BlockedShield>)
    ensures Poi.ReplaceBlocked(s, list).after.forest == s.forest && Poi.ReplaceBlocked(s, list).after.validation == s.validation
  {
    Inv.BlockedKeepsForest(Poi.Unblocked(s), list);
  }

  lemma JudgedTwice(forest: Poi.Forest)
    ensures Poi.CachedForest(Poi.CachedForest(forest)) == Poi.CachedForest(forest)
    ensures Poi.CurrentRoots(Poi.CachedForest(forest)) == Poi.CurrentRoots(forest)
  {
  }

  lemma {:induction false} DeltasKeepBlocked(s: Poi.Snapshot, ds: seq<Poi.Delta>)
    ensures Poi.ApplyDeltas(s, ds).blocked == s.blocked
    decreases |ds|
  {
    if ds != [] {
      if Poi.Acceptable(s, ds[0]) { Poi.AcceptableDeltaApplies(s, ds[0]); }
      DeltasKeepBlocked(Poi.ApplyDelta(s, ds[0]).after, ds[1..]);
    }
  }

  /** Below 2^48 a journal in step with a cache loads to that cache with its roots accepted,
      up to the blocked-synced flag. */
  lemma InStepLoads(t: Tables, id: CorpusId, start: Poi.Snapshot, s: Poi.Snapshot)
    requires InStep(t, id, start, s) && ReadableHead(t, id).Some?
    requires Replayable(start) && s.nextLeaf <= Poi.INDEX_LIMIT
    ensures Load(t, id).Some? && Load(t, id).value.(blockedSynced := s.blockedSynced) == Inv.JudgedRoots(s, true)
  {
    var base := DecodedBase(t, id).value;
    var rows := RowsOf(DeltaRows(t, id)).value;
    var r := Poi.ApplyDeltas(start, PoiReplay.DeltasOf(rows));
    ReplayedIsReachable(start, PoiReplay.DeltasOf(rows));
    ReplayRecomputes(start, NoTip, base.tipRoot, rows, false);
    DeltasKeepBlocked(start, PoiReplay.DeltasOf(rows));
    BlockedSettles(r, start, s, BlockedPayload(t, id));
    SoundEndsAtHead(t, id);
  }

  // ---- Starting a journal ----

  /** A rebase whose payload is a cache starts a journal in step with it. */
  lemma RebaseStarts(t: Tables, q: RebaseRequest, start: Poi.Snapshot)
    requires RebaseApplies(t, q) && HeadRowBytes(RebasedHead(Seen(t, q.base.id, q.condition), q)) <= MAX_HEAD_ROW_BYTES
    requires Inv.Reachable(start) && DecodeBase(q.base.payload) == Some(start)
    requires q.eventCursor == start.nextEvent && q.leafCursor == start.nextLeaf
    ensures InStep(AfterRebase(t, q), q.base.id, start, start)
  {
    var id, t' := q.base.id, AfterRebase(t, q);
    RebaseAgreesExactly(t, q);
    assert forall k :: k in t'.journal && k.id == id ==> k == HeadKey(id);
    assert forall r: U64 :: DeltaKey(id, r) !in t'.journal && BlockedKey(id) !in t'.journal;
    assert DeltaRows(t', id) == [];
  }

  // ---- One append ----

  /** What one sync captured: the delta, the blocked list if it reported one, and the cache
      it left. */
  datatype Capture = Capture(delta: Poi.Delta, blocked: Option<seq<Poi.BlockedShield>>, synced: Poi.Snapshot)

  /** The sync started from the cache, as a successful sync ensures; its roots may have been
      judged since. */
  ghost predicate Captured(s: Poi.Snapshot, c: Capture, s': Poi.Snapshot) {
    && Poi.Acceptable(s, c.delta) && ReplayGives(s, c.delta, c.blocked, c.synced) && Inv.Reachable(c.synced)
    && (s' == c.synced || exists accepted :: s' == Inv.JudgedRoots(c.synced, accepted))
  }

  /** The append stores the delta with the recomputed root, unless it is empty, and the
      blocked list if there is one; its head has the cursors of the cache. */
  ghost predicate Carries(a: AppendRequest, s: Poi.Snapshot, c: Capture)
    requires Poi.Acceptable(s, c.delta)
  {
    var d := c.delta;
    && (a.delta.Some? <==> d.events != [])
    && (a.delta.Some? ==>
          var x := a.delta.value;
          && DecodeDelta(x.payload) == Some(d)
          && x.eventStart == d.eventStart && x.eventEnd == d.eventEnd
          && x.leafStart == d.leafStart && x.leafEnd == d.leafEnd
          && x.endRoot == Merkle.TreeRoot(Poi.LeavesOf(Poi.ApplyDelta(s, d).after.forest, TipTree(d))))
    && (a.blocked.Some? <==> c.blocked.Some?)
    && (a.blocked.Some? ==> DecodeBlocked(a.blocked.value.payload) == c.blocked)
    && a.head.eventCursor == c.synced.nextEvent && a.head.leafCursor == c.synced.nextLeaf
  }

  lemma {:induction false} RecomputesSnoc(s: Poi.Snapshot, root: Word, rows: seq<Stored>, grown: bool, row: Stored)
    requires Recomputes(s, root, rows, grown) && row.delta.leaves != []
    requires RowRecomputes(Poi.ApplyDeltas(s, PoiReplay.DeltasOf(rows)), LastRoot(root, rows), row, false)
    ensures Recomputes(s, root, rows + [row], grown)
    decreases |rows|
  {
    if rows == [] {
      assert (rows + [row])[1..] == [];
    } else {
      var next := Poi.ApplyDelta(s, rows[0].delta).after;
      DeltasFront(rows);
      assert (rows + [row])[1..] == rows[1..] + [row];
      assert LastRoot(root, rows) == LastRoot(rows[0].endRoot, rows[1..]);
      RecomputesSnoc(next, rows[0].endRoot, rows[1..], grown || rows[0].delta.leaves != [], row);
    }
  }

  lemma {:induction false} DeltasSnoc(s: Poi.Snapshot, ds: seq<Poi.Delta>, d: Poi.Delta)
    ensures Poi.ApplyDeltas(s, ds + [d]) == Poi.ApplyDelta(Poi.ApplyDeltas(s, ds), d).after
    decreases |ds|
  {
    if ds == [] {
      assert (ds + [d])[1..] == [];
    } else {
      assert (ds + [d])[1..] == ds[1..] + [d];
      DeltasSnoc(Poi.ApplyDelta(s, ds[0]).after, ds[1..], d);
    }
  }

  /** One more row, seen by the replay: it is accepted because the replayed cache agrees
      with the one the sync started from. */
  lemma RowsFollow(entries: seq<ScanEntry>, start: Poi.Snapshot, root: Word, s: Poi.Snapshot, x: DeltaRecord, revision: U64, d: Poi.Delta)
    requires RowsInStep(entries, start, root, s) && Poi.Acceptable(s, d) && d.events != [] && d.eventEnd > 0
    requires DecodeDelta(x.payload) == Some(d) && x.startRoot == LastRoot(root, RowsOf(entries).value)
    requires x.eventStart == d.eventStart && x.eventEnd == d.eventEnd && x.leafStart == d.leafStart && x.leafEnd == d.leafEnd
    requires x.endRoot == Merkle.TreeRoot(Poi.LeavesOf(Poi.ApplyDelta(s, d).after.forest, TipTree(d)))
    ensures RowsInStep(entries + [ScanEntry(revision, DeltaRow(x))], start, root, Poi.ApplyDelta(s, d).after)
  {
    var rows, row := RowsOf(entries).value, RowOf(x).value;
    var r := Poi.ApplyDeltas(start, PoiReplay.DeltasOf(rows));
    assert (entries + [ScanEntry(revision, DeltaRow(x))])[..|entries|] == entries;
    DeltaAgrees(r, s, d);
    LeavesAgreeAt(Poi.ApplyDelta(r, d).after.forest, Poi.ApplyDelta(s, d).after.forest, TipTree(d));
    RecomputesSnoc(start, root, rows, false, row);
    assert PoiReplay.DeltasOf(rows + [row]) == PoiReplay.DeltasOf(rows) + [d];
    DeltasSnoc(start, PoiReplay.DeltasOf(rows), d);
  }

  lemma EmptyDeltaChangesNothing(s: Poi.Snapshot, d: Poi.Delta)
    requires Poi.Acceptable(s, d) && d.events == []
    ensures Poi.ApplyDelta(s, d).after == s
  {
  }

  /** The cache after the sync, against the one that only replays deltas. */
  lemma CapturedAgrees(r: Poi.Snapshot, s: Poi.Snapshot, c: Capture, s': Poi.Snapshot)
    requires Captured(s, c, s') && Agree(r, Poi.ApplyDelta(s, c.delta).after)
    ensures Agree(r, s') && s'.blocked == c.synced.blocked && s'.nextEvent == c.synced.nextEvent && s'.nextLeaf == c.synced.nextLeaf
  {
    if c.blocked.Some? { ReplacedAgrees(r, Poi.ApplyDelta(s, c.delta).after, c.blocked.value); }
    if s' != c.synced {
      var accepted :| s' == Inv.JudgedRoots(c.synced, accepted);
      JudgedAgrees(r, c.synced, accepted);
    }
  }

  lemma CapturedIsReachable(s: Poi.Snapshot, c: Capture, s': Poi.Snapshot)
    requires Captured(s, c, s')
    ensures Inv.Reachable(s')
  {
    if s' != c.synced {
      var accepted :| s' == Inv.JudgedRoots(c.synced, accepted);
      Inv.StepIsReachable(c.synced, Inv.JudgeRoots(accepted));
    }
  }

  /** Where the rows so far end is where the append starts. */
  lemma AppendContinuesRows(t: Tables, a: AppendRequest)
    requires AppendApplies(t, a) && SoundJournal(t, a.head.corpus.id) && AppendAdmissible(t, a) && a.delta.Some?
    requires RowsOf(DeltaRows(t, a.head.corpus.id)).Some?
    ensures var id := a.head.corpus.id;
            a.delta.value.startRoot == LastRoot(DecodedBase(t, id).value.tipRoot, RowsOf(DeltaRows(t, id)).value)
  {
    var id := a.head.corpus.id;
    RowsBeforeAppend(t, a);
    HeadBeforeIsObserved(t, a);
    LastRootIsStored(DeltaRows(t, id), DecodedBase(t, id).value.tipRoot);
  }

  lemma RowsAfterCarriedAppend(t: Tables, a: AppendRequest, start: Poi.Snapshot, root: Word, s: Poi.Snapshot, c: Capture)
    requires AppendApplies(t, a) && SoundJournal(t, a.head.corpus.id)
    requires RowsInStep(DeltaRows(t, a.head.corpus.id), start, root, s)
    requires a.delta.Some? ==> a.delta.value.startRoot == LastRoot(root, RowsOf(DeltaRows(t, a.head.corpus.id)).value)
    requires Poi.Acceptable(s, c.delta) && Carries(a, s, c)
    ensures RowsInStep(DeltaRows(AfterAppend(t, a), a.head.corpus.id), start, root, Poi.ApplyDelta(s, c.delta).after)
  {
    var id := a.head.corpus.id;
    RowsAfterAppend(t, a);
    CarriedRowsInStep(DeltaRows(t, id), start, root, s, Seen(t, id, a.condition), a, c);
  }

  lemma CarriedRowsInStep(
    entries: seq<ScanEntry>, start: Poi.Snapshot, root: Word, s: Poi.Snapshot, o: Observed, a: AppendRequest, c: Capture)
    requires o.revision < U64_MAX && RowsInStep(entries, start, root, s)
    requires a.delta.Some? ==> a.delta.value.startRoot == LastRoot(root, RowsOf(entries).value)
    requires Poi.Acceptable(s, c.delta) && Carries(a, s, c)
    ensures RowsInStep(RowsWith(entries, o, a), start, root, Poi.ApplyDelta(s, c.delta).after)
  {
    if a.delta.Some? {
      StampedRowFollows(entries, start, root, s, o, a, c);
    } else {
      EmptyDeltaChangesNothing(s, c.delta);
    }
  }

  lemma StampedRowFollows(entries: seq<ScanEntry>, start: Poi.Snapshot, root: Word, s: Poi.Snapshot, o: Observed, a: AppendRequest, c: Capture)
    requires RowsInStep(entries, start, root, s) && Poi.Acceptable(s, c.delta) && Carries(a, s, c)
    requires a.delta.Some? && o.revision < U64_MAX && a.delta.value.startRoot == LastRoot(root, RowsOf(entries).value)
    ensures RowsInStep(entries + [ScanEntry(o.revision + 1, DeltaRow(StampedDelta(o, a)))], start, root, Poi.ApplyDelta(s, c.delta).after)
  {
    RowsFollow(entries, start, root, s, StampedDelta(o, a), o.revision + 1, c.delta);
  }

  lemma RowsAgreeFurther(entries: seq<ScanEntry>, start: Poi.Snapshot, root: Word, s: Poi.Snapshot, c: Capture, s': Poi.Snapshot)
    requires Captured(s, c, s') && RowsInStep(entries, start, root, Poi.ApplyDelta(s, c.delta).after)
    ensures RowsInStep(entries, start, root, s')
  {
    CapturedAgrees(Poi.ApplyDeltas(start, PoiReplay.DeltasOf(RowsOf(entries).value)), s, c, s');
  }

  lemma PayloadAfterAppend(t: Tables, a: AppendRequest)
    requires AppendApplies(t, a)
    ensures BlockedPayload(AfterAppend(t, a), a.head.corpus.id)
         == if a.blocked.Some? then Some(a.blocked.value.payload) else BlockedPayload(t, a.head.corpus.id)
  {
  }

  lemma CapturedBlocked(s: Poi.Snapshot, c: Capture, s': Poi.Snapshot)
    requires Captured(s, c, s')
    ensures if c.blocked.None? then s'.blocked == s.blocked
            else AllParse(c.blocked.value) && s'.blocked == BlockedMap(map[], c.blocked.value)
  {
    var mid := Poi.ApplyDelta(s, c.delta).after;
    Poi.AcceptableDeltaApplies(s, c.delta);
    if c.blocked.Some? {
      ReplacedGivesMap(mid, c.blocked.value);
      BlockedApplies(Poi.Unblocked(mid), c.blocked.value);
    }
  }

  lemma BlockedAfterCarriedAppend(t: Tables, a: AppendRequest, start: Poi.Snapshot, s: Poi.Snapshot, c: Capture, s': Poi.Snapshot)
    requires AppendApplies(t, a) && BlockedInStep(BlockedPayload(t, a.head.corpus.id), start, s)
    requires Captured(s, c, s') && Carries(a, s, c)
    ensures BlockedInStep(BlockedPayload(AfterAppend(t, a), a.head.corpus.id), start, s')
  {
    PayloadAfterAppend(t, a);
    CapturedBlocked(s, c, s');
  }

  /** An append that carries what a sync captured keeps the journal in step. */
  lemma AppendKeepsInStep(t: Tables, a: AppendRequest, start: Poi.Snapshot, s: Poi.Snapshot, c: Capture, s': Poi.Snapshot)
    requires AppendApplies(t, a) && InStep(t, a.head.corpus.id, start, s) && AppendAdmissible(t, a)
    requires Captured(s, c, s') && Carries(a, s, c)
    ensures InStep(AfterAppend(t, a), a.head.corpus.id, start, s')
  {
    var id, t' := a.head.corpus.id, AfterAppend(t, a);
    AppendAgreesExactly(t, a);
    assert DecodedBase(t', id) == DecodedBase(t, id);
    CapturedIsReachable(s, c, s');
    if a.delta.Some? { AppendContinuesRows(t, a); }
    RowsAfterCarriedAppend(t, a, start, DecodedBase(t, id).value.tipRoot, s, c);
    RowsAgreeFurther(DeltaRows(t', id), start, DecodedBase(t, id).value.tipRoot, s, c, s');
    BlockedAfterCarriedAppend(t, a, start, s, c, s');
  }

  // ---- Whole runs ----

  predicate Touches(op: Op, id: CorpusId) {
    || op.Clear?
    || (op.Append? && op.append.head.corpus.id == id)
    || (op.Rebase? && op.rebase.base.id == id)
    || (op.PutBase? && op.record.id == id)
  }

  /** One operation beside one step of the cache: an append to the corpus that commits
      carries what a sync captured, and nothing else touches the corpus. */
  ghost predicate Advances(t: Tables, op: Op, id: CorpusId, s: Poi.Snapshot, c: Capture, s': Poi.Snapshot) {
    if !Touches(op, id) || !Applies(t, op) then s' == s
    else
      && op.Append? && DecodedBase(t, id).Some? && AppendAdmissible(t, op.append)
      && Captured(s, c, s') && Carries(op.append, s, c)
  }

  lemma OthersKeepInStep(t: Tables, t': Tables, id: CorpusId, start: Poi.Snapshot, s: Poi.Snapshot)
    requires InStep(t, id, start, s) && SameCorpus(t, t', id)
    ensures InStep(t', id, start, s)
  {
    SameCorpusSameReads(t, t', id);
    assert HeadKey(id).id == id && BlockedKey(id).id == id;
    assert BlockedPayload(t', id) == BlockedPayload(t, id);
  }

  lemma StepKeepsInStep(t: Tables, op: Op, id: CorpusId, start: Poi.Snapshot, s: Poi.Snapshot, c: Capture, s': Poi.Snapshot)
    requires InStep(t, id, start, s) && Advances(t, op, id, s, c, s')
    ensures InStep(Step(t, op), id, start, s')
  {
    if Applies(t, op) {
      if Touches(op, id) {
        AppendKeepsInStep(t, op.append, start, s, c, s');
      } else {
        OtherCorporaUntouched(t, op, id);
        OthersKeepInStep(t, Step(t, op), id, start, s);
      }
    }
  }

  /** One operation, with what was captured before it and the cache beside its result. */
  datatype Moment = Moment(op: Op, capture: Capture, cache: Poi.Snapshot)

  function TablesAfter(t: Tables, history: seq<Moment>): Tables {
    if history == [] then t else Step(TablesAfter(t, history[..|history| - 1]), history[|history| - 1].op)
  }

  function CacheAfter(s: Poi.Snapshot, history: seq<Moment>): Poi.Snapshot {
    if history == [] then s else history[|history| - 1].cache
  }

  /** Every moment of the history advances tables and cache together. */
  ghost predicate History(t: Tables, id: CorpusId, s: Poi.Snapshot, history: seq<Moment>) {
    history == []
    || (var init, m := history[..|history| - 1], history[|history| - 1];
        && History(t, id, s, init)
        && Advances(TablesAfter(t, init), m.op, id, CacheAfter(s, init), m.capture, m.cache))
  }

  lemma HeadStays(t: Tables, op: Op, id: CorpusId, s: Poi.Snapshot, c: Capture, s': Poi.Snapshot)
    requires HeadKey(id) in t.journal && Advances(t, op, id, s, c, s')
    ensures HeadKey(id) in Step(t, op).journal
  {
    assert HeadKey(id).id == id;
  }

  lemma {:induction false} InStepThroughout(t: Tables, id: CorpusId, start: Poi.Snapshot, s: Poi.Snapshot, history: seq<Moment>)
    requires InStep(t, id, start, s) && HeadKey(id) in t.journal && History(t, id, s, history)
    ensures InStep(TablesAfter(t, history), id, start, CacheAfter(s, history))
    ensures HeadKey(id) in TablesAfter(t, history).journal
    decreases |history|
  {
    if history != [] {
      var init, m := history[..|history| - 1], history[|history| - 1];
      InStepThroughout(t, id, start, s, init);
      StepKeepsInStep(TablesAfter(t, init), m.op, id, start, CacheAfter(s, init), m.capture, m.cache);
      HeadStays(TablesAfter(t, init), m.op, id, CacheAfter(s, init), m.capture, m.cache);
    }
  }

  /** A journal that was started from a cache, and whose appends carry what syncs captured
      since, loads after every history to the cache as it then is, whatever else happened
      to other corpora and watermarks, as long as the cursor has not passed 2^48. */
  lemma CapturedJournalLoads(t: Tables, q: RebaseRequest, s: Poi.Snapshot, history: seq<Moment>)
    requires RebaseApplies(t, q) && HeadRowBytes(RebasedHead(Seen(t, q.base.id, q.condition), q)) <= MAX_HEAD_ROW_BYTES
    requires Inv.Reachable(s) && Replayable(s) && DecodeBase(q.base.payload) == Some(s)
    requires q.eventCursor == s.nextEvent && q.leafCursor == s.nextLeaf
    requires CacheAfter(s, history).nextLeaf <= Poi.INDEX_LIMIT
    requires History(AfterRebase(t, q), q.base.id, s, history)
    ensures var id, t', s' := q.base.id, TablesAfter(AfterRebase(t, q), history), CacheAfter(s, history);
            && SoundJournal(t', id) && ReadableHead(t', id).Some? && Load(t', id).Some?
            && Load(t', id).value.(blockedSynced := s'.blockedSynced) == Inv.JudgedRoots(s', true)
  {
    RebaseStarts(t, q, s);
    InStepThroughout(AfterRebase(t, q), q.base.id, s, s, history);
    InStepLoads(TablesAfter(AfterRebase(t, q), history), q.base.id, s, CacheAfter(s, history));
  }
}
