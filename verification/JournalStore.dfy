/** The store's journal operations as they run: the writers reassign the tables,
    the auditor scans them. Each is tied to the declarative model. */
module JournalStore {
  import opened Common
  import opened OrderedSets
  import opened JournalAudit
  import opened JournalExact
  import opened JournalModel

  datatype Bundle = Bundle(
    base: BaseRecord, head: Option<HeadRecord>, deltas: seq<DeltaRecord>,
    blocked: Option<BlockedRecord>)

  datatype Inspection =
    | Missing
    | Valid(bundle: Bundle, token: ReplacementToken)
    | Corrupt(token: ReplacementToken)

  /** What a sound journal holds. */
  function BundleOf(t: Tables, id: CorpusId): Bundle
    requires SoundJournal(t, id)
  {
    var base := DecodedBase(t, id).value;
    if HeadKey(id) !in t.journal then Bundle(base, None, [], None)
    else
      var h := ReadableHead(t, id).value;
      Bundle(base, Some(h), DeltasOf(DeltaRows(t, id)),
             if h.blockedRevision.Some? then Some(t.journal[BlockedKey(id)].blocked) else None)
  }

  /** The bundle is what the rows of the corpus hold. */
  ghost predicate HoldsBundle(t: Tables, id: CorpusId, b: Bundle) {
    && HoldsBase(t, id, b.base) && HoldsDeltas(t, id, b.deltas)
    && (match b.head case Some(h) => HoldsHead(t, id, h) case None => HeadKey(id) !in t.journal)
    && match b.blocked
       case Some(s) => BlockedKey(id) in t.journal && t.journal[BlockedKey(id)] == BlockedRow(s)
       case None => BlockedKey(id) !in t.journal
  }

  lemma BundleIsHeld(t: Tables, id: CorpusId)
    requires SoundJournal(t, id)
    ensures HoldsBundle(t, id, BundleOf(t, id))
  {
    var base := DecodedBase(t, id).value;
    BaseExactly(t, id, base);
    NoRowsExactly(t, id);
    if HeadKey(id) in t.journal {
      var h := ReadableHead(t, id).value;
      ReadableExactly(t, id, h);
      SnapshotExactly(t, id, h);
      var ds := ScannedAreHeld(t, id, base, h);
    }
  }

  // ---- Facts about the delta scan ----

  lemma {:induction false} PayloadSumMonotone(rows: seq<ScanEntry>, i: nat)
    requires i <= |rows| && AllDeltas(rows)
    ensures PayloadSum(rows[..i]) <= PayloadSum(rows)
  {
    if i == |rows| {
      assert rows[..i] == rows;
    } else {
      var init := rows[..|rows| - 1];
      PayloadSumMonotone(init, i);
      assert init[..i] == rows[..i];
    }
  }

  /** What a scan has established about the revisions it has accepted: those above
      the covered one form an unbroken run that ends at the latest. */
  predicate CoveredSoFar(rows: seq<ScanEntry>, coverage: U64, last: Option<U64>) {
    match last
    case None => forall i :: 0 <= i < |rows| ==> rows[i].revision <= coverage
    case Some(v) =>
      && coverage < v && rows != [] && rows[|rows| - 1].revision == v
      && forall r: U64 :: coverage < r <= v ==> StoresRevision(rows, r)
  }

  /** A scan that meets a later revision than the one it expects has proved that
      the expected one is not stored anywhere. */
  lemma GapIsMissing(rows: seq<ScanEntry>, i: nat, coverage: U64, last: Option<U64>)
    requires StrictlyAscendingRows(rows) && i < |rows|
    requires CoveredSoFar(rows[..i], coverage, last)
    requires coverage < rows[i].revision
    ensures last.Some? ==> last.value < rows[i].revision
    ensures var expected := if last.None? then coverage + 1 else last.value + 1;
            expected <= rows[i].revision && (expected != rows[i].revision ==> !StoresRevision(rows, expected))
  {
    if last.Some? {
      assert rows[..i][i - 1] == rows[i - 1];
    }
    var expected := if last.None? then coverage + 1 else last.value + 1;
    forall k | 0 <= k < |rows| && expected != rows[i].revision
      ensures rows[k].revision != expected
    {
      if k < i {
        assert rows[..i][k] == rows[k];
      }
    }
  }

  /** Accepting the expected revision extends the run; accepting one at or below
      the covered revision leaves it as it is. */
  lemma CoverageExtends(rows: seq<ScanEntry>, i: nat, coverage: U64, last: Option<U64>, next: Option<U64>)
    requires StrictlyAscendingRows(rows) && i < |rows|
    requires CoveredSoFar(rows[..i], coverage, last)
    requires if rows[i].revision <= coverage then next == last
             else next == Some(rows[i].revision)
                  && rows[i].revision == if last.None? then coverage + 1 else last.value + 1
    ensures CoveredSoFar(rows[..i + 1], coverage, next)
  {
    var before, after := rows[..i], rows[..i + 1];
    assert forall k :: 0 <= k < i ==> after[k] == before[k];
    if next.Some? {
      forall r: U64 | coverage < r <= next.value ensures StoresRevision(after, r) {
        if r == rows[i].revision {
          assert after[i].revision == r;
        } else {
          assert StoresRevision(before, r);
          var k :| 0 <= k < |before| && before[k].revision == r;
          assert after[k].revision == r;
        }
      }
    }
  }

  /** At the end of a scan, the head is reached exactly when every revision after
      the covered one is stored. */
  lemma SuffixComplete(rows: seq<ScanEntry>, h: HeadRecord, last: Option<U64>)
    requires StrictlyAscendingRows(rows)
    requires CoveredSoFar(rows, CoverageAfter(h), last)
    requires CoverageAfter(h) <= h.revision
    requires forall i :: 0 <= i < |rows| ==> rows[i].revision <= h.revision
    ensures CoversSuffix(rows, h) <==> (h.revision == CoverageAfter(h) || last == Some(h.revision))
  {
    if CoversSuffix(rows, h) && h.revision != CoverageAfter(h) {
      assert StoresRevision(rows, h.revision);
    }
  }

  /** The running expectations of a scan. */
  datatype Scan = Scan(
    bytes: nat, eventCursor: U64, leafCursor: Option<U64>, tipRoot: Word, lastRequired: Option<U64>)

  predicate Tracks(rows: seq<ScanEntry>, i: nat, base: BaseRecord, head: HeadRecord, s: Scan) {
    && i <= |rows| && i <= head.deltaCount
    && (forall k :: 0 <= k < i ==> GoodEntry(rows, k, base, head))
    && AllDeltas(rows[..i])
    && s.bytes == PayloadSum(rows[..i]) <= head.deltaPayloadBytes
    && (if i == 0 then
          s.eventCursor == SaturatingSucc(base.tipIndex) && s.leafCursor == None && s.tipRoot == base.tipRoot
        else
          && rows[i - 1].row.DeltaRow?
          && var d := rows[i - 1].row.delta;
          s.eventCursor == d.eventEnd && s.leafCursor == Some(d.leafEnd) && s.tipRoot == d.endRoot)
    && CoveredSoFar(rows[..i], CoverageAfter(head), s.lastRequired)
  }

  /** One turn of the scan: the next row is accepted, or the rows cannot agree. */
  method AcceptEntry(rows: seq<ScanEntry>, i: nat, base: BaseRecord, head: HeadRecord, s: Scan)
    returns (r: Option<Scan>)
    requires StrictlyAscendingRows(rows) && ValidHead(head)
    requires i < |rows| && Tracks(rows, i, base, head, s)
    ensures match r
            case Some(next) => rows[i].row.DeltaRow? && Tracks(rows, i + 1, base, head, next)
            case None => !RowsAgree(rows, base, head)
  {
    if i >= head.deltaCount || i >= MAX_DELTA_COUNT {
      return None;
    }
    if !rows[i].row.DeltaRow? || DeltaRowBytes(rows[i].row.delta) > MAX_DELTA_ROW_BYTES {
      assert !GoodEntry(rows, i, base, head);
      return None;
    }
    var delta := rows[i].row.delta;
    assert rows[..i + 1][..i] == rows[..i];
    if |delta.payload| > head.deltaPayloadBytes - s.bytes || |delta.payload| > MAX_PAYLOAD_BYTES {
      if RowsAgree(rows, base, head) {
        PayloadSumMonotone(rows, i + 1);
      }
      return None;
    }
    var coverage := CoverageAfter(head);
    var lastRequired := s.lastRequired;
    if delta.revision > coverage {
      var expected := if lastRequired.None? then coverage + 1 else lastRequired.value + 1;
      if expected != delta.revision {
        if delta.revision == rows[i].revision <= head.revision {
          GapIsMissing(rows, i, coverage, lastRequired);
          assert !CoversSuffix(rows, head);
        } else {
          assert !GoodEntry(rows, i, base, head);
        }
        return None;
      }
      lastRequired := Some(delta.revision);
    }
    if delta.revision != rows[i].revision || !ValidDelta(delta, head)
       || delta.eventStart != s.eventCursor
       || (s.leafCursor.Some? && delta.leafStart != s.leafCursor.value)
       || delta.startRoot != s.tipRoot
    {
      assert !GoodEntry(rows, i, base, head);
      return None;
    }
    CoverageExtends(rows, i, coverage, s.lastRequired, lastRequired);
    r := Some(Scan(s.bytes + |delta.payload|, delta.eventEnd, Some(delta.leafEnd), delta.endRoot, lastRequired));
    assert GoodEntry(rows, i, base, head);
  }

  /** Scans delta rows in revision order, keeping the cursor, root, byte and
      coverage expectations, and accepts exactly when the rows agree with the head. */
  method ScanDeltas(rows: seq<ScanEntry>, base: BaseRecord, head: HeadRecord)
    returns (r: Option<seq<DeltaRecord>>)
    requires StrictlyAscendingRows(rows) && ValidHead(head)
    ensures r.Some? <==> RowsAgree(rows, base, head)
    ensures r.Some? ==> r.value == DeltasOf(rows)
  {
    var deltas := [];
    var s := Scan(0, SaturatingSucc(base.tipIndex), None, base.tipRoot, None);
    for i := 0 to |rows|
      invariant Tracks(rows, i, base, head, s)
      invariant |deltas| == i && forall k :: 0 <= k < i ==> rows[k].row == DeltaRow(deltas[k])
    {
      var next := AcceptEntry(rows, i, base, head, s);
      if next.None? {
        return None;
      }
      s := next.value;
      deltas := deltas + [rows[i].row.delta];
    }
    assert rows[..|rows|] == rows;
    forall k | 0 <= k < |rows| ensures rows[k].revision <= head.revision {
      assert GoodEntry(rows, k, base, head);
    }
    SuffixComplete(rows, head, s.lastRequired);
    if (head.revision != CoverageAfter(head) && s.lastRequired != Some(head.revision))
       || |deltas| != head.deltaCount
       || s.bytes != head.deltaPayloadBytes
       || s.eventCursor != head.eventCursor
       || (s.leafCursor.Some? && s.leafCursor.value != head.leafCursor)
       || s.tipRoot != head.corpus.tipRoot
    {
      return None;
    }
    return Some(deltas);
  }

  /** The stored corpus is not the one the append expects: appends never repair, never
      start a journal, and never overwrite a stored delta. */
  predicate AppendMismatches(t: Tables, a: AppendRequest) {
    var id, e := a.head.corpus.id, a.condition.state;
    || e.CorruptState?
    || (ConflictWith(t, a.condition).None? && Observe(t, id, e).Ok? && (Observe(t, id, e).value.None? || e.NoValidBase?))
    || (&& Observes(t, id, a.condition)
        && var o := Seen(t, id, a.condition);
        && WithinCaps(o, a) && Continues(o, a) && BlockedFits(a)
        && a.delta.Some? && DeltaKey(id, o.revision + 1) in t.journal)
  }

  lemma MismatchesExactly(t: Tables, a: AppendRequest)
    ensures AppendMismatches(t, a) <==> AppendConflicts(t, a)
  {
    var id, c := a.head.corpus.id, a.condition;
    ContextExactly(t, c);
    ObservesExactly(t, id, c);
    MismatchExactly(t, id, c.state);
    if Observes(t, id, c) {
      var s := Seen(t, id, c);
      var o := Origin(s.revision, s.eventCursor, s.leafCursor, s.tipRoot, s.deltaCount, s.deltaPayloadBytes);
      SeenExactly(t, id, c, o);
      if InContext(t, c) && exists x :: TakesRevision(t, a, x) {
        var x :| TakesRevision(t, a, x);
        SeenExactly(t, id, c, x);
      }
      if StartsAt(t, id, c.state, o) && WithinCaps(s, a) && Continues(s, a) && BlockedFits(a) && a.delta.Some? {
        assert TakesRevision(t, a, o) <==> DeltaKey(id, s.revision + 1) in t.journal;
      }
    }
    FreshIsReadable(t, id, c.state);
  }

  /** A head is unreadable exactly when observing it fails. */
  lemma FreshIsReadable(t: Tables, id: CorpusId, e: ExpectedState)
    ensures Observe(t, id, e).Ok? <==> e.CorruptState? || HeadIsReadable(t, id)
  {
    if ReadableHead(t, id).Some? { ReadableExactly(t, id, ReadableHead(t, id).value); }
    forall h ensures HoldsHead(t, id, h) ==> ReadableHead(t, id) == Some(h) {
      ReadableExactly(t, id, h);
    }
  }

  datatype Commit = Commit(
    head: HeadRecord, delta: Option<DeltaRecord>, blocked: Option<BlockedRecord>,
    base: Option<BaseRecord>, retiredDeltaCount: nat, retiredPayloadBytes: nat,
    compactionRecommended: bool)

  /** The returned records are the stamped request, built on what the condition names. */
  ghost predicate CommitsAppend(k: Commit, t: Tables, a: AppendRequest, s: Observed) {
    && BuildsOn(t, a.head.corpus.id, a.condition.state, s) && HeadStamped(k.head, s, a)
    && (match (a.delta, k.delta) case (Some(d), Some(stored)) => DeltaStamped(stored, d, s, a) case (None, None) => true case _ => false)
    && (match (a.blocked, k.blocked) case (Some(b), Some(stored)) => SnapshotStamped(stored, b, s, a) case (None, None) => true case _ => false)
    && k.base == None && k.retiredDeltaCount == 0 && k.retiredPayloadBytes == 0
  }

  ghost predicate CommitsRebase(k: Commit, t: Tables, q: RebaseRequest, s: Observed) {
    && BuildsOn(t, q.base.id, q.condition.state, s) && k.base.Some? && RebaseStamped(k.base.value, k.head, s, q)
    && k.delta == None && k.blocked == None
    && k.retiredDeltaCount == s.deltaCount && k.retiredPayloadBytes == s.deltaPayloadBytes
  }

  function CommitOf(o: Observed, a: AppendRequest): Commit
    requires o.revision < U64_MAX && WithinCaps(o, a)
  {
    var head := StampedHead(o, a);
    Commit(head,
           if a.delta.Some? then Some(StampedDelta(o, a)) else None,
           if a.blocked.Some? then Some(StampedBlocked(o, a)) else None,
           None, 0, 0,
           head.deltaCount >= SOFT_DELTA_COUNT || head.deltaPayloadBytes >= SOFT_PAYLOAD_BYTES)
  }

  lemma CommitOfAppend(t: Tables, a: AppendRequest, o: Observed)
    requires AppendApplies(t, a) && o == Seen(t, a.head.corpus.id, a.condition)
    ensures CommitsAppend(CommitOf(o, a), t, a, o)
  {
    BuildsOnSeen(t, a.head.corpus.id, a.condition);
  }

  /** The returned records are the stored ones. */
  predicate StoresCommit(t: Tables, id: CorpusId, k: Commit) {
    && HeadKey(id) in t.journal && t.journal[HeadKey(id)] == HeadRow(k.head)
    && (k.delta.Some? ==> DeltaKey(id, k.head.revision) in t.journal && t.journal[DeltaKey(id, k.head.revision)] == DeltaRow(k.delta.value))
    && (k.blocked.Some? ==> BlockedKey(id) in t.journal && t.journal[BlockedKey(id)] == BlockedRow(k.blocked.value))
  }

  datatype Outcome =
    | Applied(commit: Commit)
    | ContextConflicts(conflict: ContextConflict)
    | CorpusConflict
    | CompactionRequired
    | InvalidRecord

  datatype Observation =
    | Accepted(record: Watermark, changed: bool)
    | Rollback(record: Watermark)
    | Equivocation(record: Watermark)

  /** The watermark that an accepted v4 manifest leaves. */
  predicate AcceptsManifest(t: Tables, publisher: Word, sequence: U64, hash: Word) {
    publisher in t.watermarks ==>
      var w := t.watermarks[publisher];
      w.sequence < sequence
      || (w.sequence == sequence && (w.manifestHash.None? || w.manifestHash == Some(hash)))
  }

  predicate AdvancesWatermark(t: Tables, publisher: Word, sequence: U64) {
    publisher in t.watermarks ==> t.watermarks[publisher].sequence < sequence
  }

  class DbStore {
    var bases: map<CorpusId, BaseRow>
    var journal: map<JournalKey, JournalRow>
    var generation: U64
    var watermarks: map<Word, Watermark>

    constructor ()
      ensures View() == Tables(map[], map[], 0, map[])
    {
      bases, journal, generation, watermarks := map[], map[], 0, map[];
    }

    function View(): Tables
      reads this
    {
      Tables(bases, journal, generation, watermarks)
    }

    /** The auditor accepts exactly the sound journals, and returns what they hold. */
    method InspectJournal(id: CorpusId) returns (r: Inspection)
      ensures r.Missing? <==> id !in bases && NoRows(View(), id)
      ensures r.Valid? <==> IsSound(View(), id)
      ensures r.Valid? <==> SoundJournal(View(), id)
      ensures r.Valid? ==> r.bundle == BundleOf(View(), id) && HoldsBundle(View(), id, r.bundle)
      ensures !r.Missing? ==> r.token == TokenOf(View(), id) && TokenNames(View(), id, r.token)
    {
      SoundExactly(View(), id);
      TokenExactly(View(), id, TokenOf(View(), id));
      if SoundJournal(View(), id) { BundleIsHeld(View(), id); }
      NoRowsExactly(View(), id);
      var token := TokenOf(View(), id);
      var base := DecodedBase(View(), id);
      if id in bases && base.None? {
        return Corrupt(token);
      }
      var head: Option<HeadRecord> := None;
      if HeadKey(id) in journal {
        head := ReadableHead(View(), id);
        if head.None? || base.None? || !BaseAgrees(base.value, head.value) {
          return Corrupt(token);
        }
      }
      if base.None? {
        return if HasJournalRows(View(), id) then Corrupt(token) else Missing;
      }
      if head.None? {
        return if HasJournalRows(View(), id) then Corrupt(token)
          else Valid(Bundle(base.value, None, [], None), token);
      }
      var deltas := ScanDeltas(DeltaRows(View(), id), base.value, head.value);
      if deltas.None? {
        return Corrupt(token);
      }
      var blocked: Option<BlockedRecord> := None;
      if head.value.blockedRevision.Some? {
        if BlockedKey(id) !in journal || !journal[BlockedKey(id)].BlockedRow? {
          return Corrupt(token);
        }
        var b := journal[BlockedKey(id)].blocked;
        if BlockedRowBytes(b) > MAX_BLOCKED_ROW_BYTES || |b.payload| > MAX_BLOCKED_PAYLOAD_BYTES
           || !ValidBlocked(b, head.value)
           || b.revision != head.value.blockedRevision.value
           || Some(b.payloadHash) != head.value.blockedPayloadHash
        {
          return Corrupt(token);
        }
        blocked := Some(b);
      } else if BlockedKey(id) in journal {
        return Corrupt(token);
      }
      return Valid(Bundle(base.value, head, deltas.value, blocked), token);
    }

    /** Writes the delta, the snapshot and the head of an append. */
    method StoreAppend(a: AppendRequest, o: Observed) returns (k: Commit)
      requires AppendApplies(View(), a) && o == Seen(View(), a.head.corpus.id, a.condition)
      modifies this`journal
      ensures View() == AfterAppend(old(View()), a)
      ensures CommitsAppend(k, old(View()), a, o) && StoresCommit(View(), a.head.corpus.id, k)
      ensures k.compactionRecommended == (k.head.deltaCount >= 128 || k.head.deltaPayloadBytes >= 8_388_608)
    {
      var id := a.head.corpus.id;
      k := CommitOf(o, a);
      CommitOfAppend(View(), a, o);
      if a.delta.Some? {
        journal := journal[DeltaKey(id, o.revision + 1) := DeltaRow(StampedDelta(o, a))];
      }
      if a.blocked.Some? {
        journal := journal[BlockedKey(id) := BlockedRow(StampedBlocked(o, a))];
      }
      journal := journal[HeadKey(id) := HeadRow(k.head)];
    }

    /** Appends one revision when the stored state is the expected one; every other
        outcome leaves the tables as they were. */
    method AppendIfCurrent(a: AppendRequest) returns (r: Outcome)
      modifies this
      ensures r.Applied? <==> old(AppendApplies(View(), a))
      ensures r.Applied? <==>
        |a.head.corpus.payload| == 0 && InContext(old(View()), a.condition) && exists o :: AppendFits(old(View()), a, o)
      ensures View() == if old(AppendApplies(View(), a)) then AfterAppend(old(View()), a) else old(View())
      ensures r.Applied? ==>
        && (exists s :: CommitsAppend(r.commit, old(View()), a, s))
        && StoresCommit(View(), a.head.corpus.id, r.commit)
        && r.commit.compactionRecommended == (r.commit.head.deltaCount >= 128 || r.commit.head.deltaPayloadBytes >= 8_388_608)
      ensures r.CompactionRequired? <==>
        |a.head.corpus.payload| == 0 && InContext(old(View()), a.condition) && NeedsCompaction(old(View()), a)
      ensures r.ContextConflicts? <==>
        |a.head.corpus.payload| == 0 && !a.condition.state.CorruptState? && !InContext(old(View()), a.condition)
      ensures r.ContextConflicts? ==> ConflictWith(old(View()), a.condition) == Some(r.conflict)
      ensures r.CorpusConflict? <==> |a.head.corpus.payload| == 0 && AppendConflicts(old(View()), a)
    {
      var id := a.head.corpus.id;
      AppendAppliesExactly(View(), a);
      ContextExactly(View(), a.condition);
      MismatchesExactly(View(), a);
      if InContext(View(), a.condition) { CompactionExactly(View(), a); }
      if a.head.corpus.payload != [] {
        return InvalidRecord;
      }
      if a.condition.state.CorruptState? {
        return CorpusConflict;
      }
      var conflict := ConflictWith(View(), a.condition);
      if conflict.Some? {
        return ContextConflicts(conflict.value);
      }
      var observed := Observe(View(), id, a.condition.state);
      if observed.Err? {
        return InvalidRecord;
      }
      if observed.value.None? || a.condition.state.NoValidBase? {
        return CorpusConflict;
      }
      var o := observed.value.value;
      if o.revision == U64_MAX {
        return InvalidRecord;
      }
      if !WithinCaps(o, a) {
        return CompactionRequired;
      }
      if !Continues(o, a) || !BlockedFits(a) {
        return InvalidRecord;
      }
      if a.delta.Some? && DeltaKey(id, o.revision + 1) in journal {
        return CorpusConflict;
      }
      var commit := StoreAppend(a, o);
      r := Applied(commit);
    }

    /** Replaces the whole journal of a corpus by a new base and an empty head. */
    method RebaseIfCurrent(q: RebaseRequest) returns (r: Outcome)
      modifies this
      ensures r.Applied? <==> old(RebaseApplies(View(), q))
      ensures r.Applied? <==>
        && q.base.tipIndex + 1 == q.eventCursor && InContext(old(View()), q.condition)
        && Stands(old(View()), q.base.id, q.condition.state) && HasRoom(q.condition.state)
      ensures View() == if old(RebaseApplies(View(), q)) then AfterRebase(old(View()), q) else old(View())
      ensures r.Applied? ==>
        && (exists s :: CommitsRebase(r.commit, old(View()), q, s))
        && StoresCommit(View(), q.base.id, r.commit)
        && r.commit.base.Some? && bases[q.base.id] == StoredBase(r.commit.base.value) && !r.commit.compactionRecommended
      ensures r.ContextConflicts? <==> q.base.tipIndex + 1 == q.eventCursor && !InContext(old(View()), q.condition)
      ensures r.ContextConflicts? ==> ConflictWith(old(View()), q.condition) == Some(r.conflict)
      ensures r.CorpusConflict? <==>
        && q.base.tipIndex + 1 == q.eventCursor && InContext(old(View()), q.condition)
        && !Stands(old(View()), q.base.id, q.condition.state)
        && (q.condition.state.CorruptState? || HeadIsReadable(old(View()), q.base.id))
    {
      var id := q.base.id;
      RebaseAppliesExactly(View(), q);
      ContextExactly(View(), q.condition);
      MismatchExactly(View(), id, q.condition.state);
      if q.eventCursor == 0 || q.base.tipIndex != q.eventCursor - 1 {
        return InvalidRecord;
      }
      var conflict := ConflictWith(View(), q.condition);
      if conflict.Some? {
        return ContextConflicts(conflict.value);
      }
      var observed := Observe(View(), id, q.condition.state);
      if observed.Err? {
        return InvalidRecord;
      }
      if observed.value.None? {
        return CorpusConflict;
      }
      var o := observed.value.value;
      if o.revision == U64_MAX {
        return InvalidRecord;
      }
      BuildsOnSeen(View(), id, q.condition);
      bases := bases[id := StoredBase(RebasedBase(q))];
      var kept := map k | k in journal && k.id != id :: journal[k];
      journal := kept[HeadKey(id) := HeadRow(RebasedHead(o, q))];
      r := Applied(Commit(RebasedHead(o, q), None, None, Some(RebasedBase(q)), o.deltaCount, o.deltaPayloadBytes, false));
      assert CommitsRebase(r.commit, old(View()), q, o);
    }

    method PutBase(record: BaseRecord, now: U64)
      modifies this
      ensures View() == old(View()).(bases := old(bases)[record.id := StoredBase(record.(updatedAt := now))])
    {
      bases := bases[record.id := StoredBase(record.(updatedAt := now))];
    }

    method Clear() returns (r: Result<(nat, U64), ()>)
      modifies this
      ensures r.Ok? <==> old(generation) < U64_MAX
      ensures r.Ok? ==> View() == AfterClear(old(View())) && r.value == (|old(bases)|, old(generation) + 1)
      ensures r.Ok? ==>
        bases == map[] && journal == map[] && generation == old(generation) + 1 && watermarks == old(watermarks)
      ensures r.Err? ==> View() == old(View())
    {
      if generation == U64_MAX {
        return Err(());
      }
      r := Ok((|bases|, generation + 1));
      generation, bases, journal := generation + 1, map[], map[];
    }

    method AdvanceWatermark(publisher: Word, sequence: U64) returns (record: Watermark, changed: bool)
      modifies this
      ensures changed <==> AdvancesWatermark(old(View()), publisher, sequence)
      ensures changed ==> record == Watermark(sequence, None)
      ensures View() == if changed then old(View()).(watermarks := old(watermarks)[publisher := record])
                        else old(View())
      ensures publisher in watermarks && watermarks[publisher] == record && sequence <= record.sequence
    {
      if publisher in watermarks && watermarks[publisher].sequence >= sequence {
        return watermarks[publisher], false;
      }
      record, changed := Watermark(sequence, None), true;
      watermarks := watermarks[publisher := record];
    }

    method ObserveManifest(publisher: Word, sequence: U64, hash: Word) returns (r: Observation)
      modifies this
      ensures r.Accepted? <==> AcceptsManifest(old(View()), publisher, sequence, hash)
      ensures r.Accepted? ==>
        && r.record == Watermark(sequence, Some(hash))
        && View() == old(View()).(watermarks := old(watermarks)[publisher := r.record])
        && (r.changed <==> View() != old(View()))
      ensures !r.Accepted? ==> View() == old(View()) && publisher in watermarks && watermarks[publisher] == r.record
      ensures r.Rollback? ==> sequence < r.record.sequence
      ensures r.Equivocation? ==> sequence == r.record.sequence && r.record.manifestHash != Some(hash)
    {
      if publisher in watermarks {
        var w := watermarks[publisher];
        if sequence < w.sequence {
          return Rollback(w);
        }
        if sequence == w.sequence && w.manifestHash.Some? {
          if w.manifestHash == Some(hash) {
            assert watermarks[publisher := w] == watermarks;
            return Accepted(w, false);
          }
          return Equivocation(w);
        }
      }
      var w := Watermark(sequence, Some(hash));
      watermarks := watermarks[publisher := w];
      assert publisher in old(watermarks) ==> old(watermarks)[publisher] != w;
      return Accepted(w, true);
    }
  }
}
