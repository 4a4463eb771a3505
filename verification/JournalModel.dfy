/** The POI corpus journal as stored: one base record per corpus identity, and
    beside it a head, numbered deltas and at most one blocked-shield snapshot.
    Tables are maps, a write transaction is one atomic step, and a stored row is
    either the record that was encoded or bytes that do not decode. */
module JournalModel {
  import opened Common
  import opened OrderedSets

  const FORMAT_VERSION: nat := 1
  const SOFT_DELTA_COUNT: nat := 128
  const SOFT_PAYLOAD_BYTES: nat := 8 * 1024 * 1024
  const MAX_DELTA_COUNT: nat := 512
  const MAX_PAYLOAD_BYTES: nat := 32 * 1024 * 1024
  const MAX_BLOCKED_PAYLOAD_BYTES: nat := 4 * 1024 * 1024
  const MAX_HEAD_ROW_BYTES: nat := 1024 * 1024
  const ROW_OVERHEAD_BYTES: nat := 64 * 1024
  const MAX_DELTA_ROW_BYTES: nat := MAX_PAYLOAD_BYTES + ROW_OVERHEAD_BYTES
  const MAX_BLOCKED_ROW_BYTES: nat := MAX_BLOCKED_PAYLOAD_BYTES + ROW_OVERHEAD_BYTES

  datatype CorpusId = CorpusId(chainType: nat, chainId: U64, txidVersion: string, listKey: Bytes)

  /** `meta` stands for the descriptors and provenance fields, which the journal
      copies and never inspects. */
  datatype BaseRecord = BaseRecord(
    id: CorpusId, generation: U64, tipIndex: U64, tipRoot: Word,
    payload: Bytes, meta: string, updatedAt: U64)

  datatype HeadRecord = HeadRecord(
    formatVersion: nat, revision: U64, baseRevision: U64, basePayloadHash: Word,
    eventCursor: U64, leafCursor: U64,
    blockedRevision: Option<U64>, blockedPayloadHash: Option<Word>,
    deltaCount: nat, deltaPayloadBytes: U64, corpus: BaseRecord)

  datatype DeltaRecord = DeltaRecord(
    formatVersion: nat, id: CorpusId, generation: U64,
    revision: U64, previousRevision: U64, baseRevision: U64,
    eventStart: U64, eventEnd: U64, leafStart: U64, leafEnd: U64,
    startRoot: Word, endRoot: Word, payload: Bytes, updatedAt: U64)

  datatype BlockedRecord = BlockedRecord(
    formatVersion: nat, id: CorpusId, generation: U64, revision: U64,
    payloadHash: Word, payload: Bytes, updatedAt: U64)

  datatype BaseRow = StoredBase(record: BaseRecord) | UndecodableBase

  datatype JournalRow =
    | HeadRow(head: HeadRecord)
    | DeltaRow(delta: DeltaRecord)
    | BlockedRow(blocked: BlockedRecord)
    | UndecodableRow

  datatype JournalKey =
    | HeadKey(id: CorpusId)
    | DeltaKey(id: CorpusId, revision: U64)
    | BlockedKey(id: CorpusId)

  datatype Watermark = Watermark(sequence: U64, manifestHash: Option<Word>)

  datatype Tables = Tables(
    bases: map<CorpusId, BaseRow>,
    journal: map<JournalKey, JournalRow>,
    generation: U64,
    watermarks: map<Word, Watermark>)

  /** Any hash function, and any record encoding: only the encoded lengths matter. */
  const Keccak: Bytes -> Word
  const HeadFrameBytes: HeadRecord -> nat
  const DeltaRowBytes: DeltaRecord -> nat
  const BlockedRowBytes: BlockedRecord -> nat

  /** An encoded head holds its texts in full. */
  function HeadRowBytes(h: HeadRecord): nat {
    HeadFrameBytes(h) + |h.corpus.id.txidVersion| + |h.corpus.meta|
  }

  // ---- Reading the tables ----

  predicate HasJournalRows(t: Tables, id: CorpusId) {
    exists k :: k in t.journal && k.id == id
  }

  function Rows(t: Tables, id: CorpusId): map<JournalKey, JournalRow> {
    map k | k in t.journal && k.id == id :: t.journal[k]
  }

  function DecodedBase(t: Tables, id: CorpusId): Option<BaseRecord> {
    if id in t.bases && t.bases[id].StoredBase? && t.bases[id].record.id == id
    then Some(t.bases[id].record) else None
  }

  predicate ValidHead(h: HeadRecord) {
    && h.formatVersion == FORMAT_VERSION
    && h.corpus.payload == []
    && h.baseRevision <= h.revision
    && h.eventCursor > 0
    && h.corpus.tipIndex == h.eventCursor - 1
    && h.deltaCount <= MAX_DELTA_COUNT
    && h.deltaPayloadBytes <= MAX_PAYLOAD_BYTES
    && h.blockedRevision.Some? == h.blockedPayloadHash.Some?
    && (h.blockedRevision.Some? ==> h.baseRevision < h.blockedRevision.value <= h.revision)
  }

  predicate ValidDelta(d: DeltaRecord, h: HeadRecord) {
    && d.formatVersion == FORMAT_VERSION
    && d.id == h.corpus.id
    && d.generation == h.corpus.generation
    && d.baseRevision == h.baseRevision
    && h.baseRevision < d.revision <= h.revision
    && d.previousRevision + 1 == d.revision
    && d.eventStart <= d.eventEnd
    && d.leafStart <= d.leafEnd
  }

  predicate ValidBlocked(b: BlockedRecord, h: HeadRecord) {
    && b.formatVersion == FORMAT_VERSION
    && b.id == h.corpus.id
    && b.generation == h.corpus.generation
    && h.baseRevision < b.revision <= h.revision
    && b.payloadHash == Keccak(b.payload)
  }

  /** The head row of a corpus, when it is small enough, decodes and validates. */
  function ReadableHead(t: Tables, id: CorpusId): Option<HeadRecord> {
    if HeadKey(id) in t.journal && t.journal[HeadKey(id)].HeadRow? then
      var h := t.journal[HeadKey(id)].head;
      if HeadRowBytes(h) <= MAX_HEAD_ROW_BYTES && h.corpus.id == id && ValidHead(h)
      then Some(h) else None
    else None
  }

  /** The delta revisions stored for a corpus, in the order a range scan yields them. */
  function Revisions(t: Tables, id: CorpusId): (revs: seq<U64>)
    ensures StrictlyAscending(revs)
    ensures forall r: U64 :: r in revs <==> DeltaKey(id, r) in t.journal
  {
    Ascending(StoredRevisions(t, id))
  }

  function StoredRevisions(t: Tables, id: CorpusId): (s: set<U64>)
    ensures forall r: U64 :: r in s <==> DeltaKey(id, r) in t.journal
  {
    var s := set k | k in t.journal && k.DeltaKey? && k.id == id :: k.revision;
    assert forall r: U64 :: DeltaKey(id, r) in t.journal ==> DeltaKey(id, r).revision in s;
    s
  }

  // ---- Commit conditions ----

  datatype ReplacementToken = ReplacementToken(
    base: Option<BaseRow>, rows: map<JournalKey, JournalRow>,
    revision: U64, deltaCount: nat, deltaPayloadBytes: U64)

  datatype ExpectedState =
    | NoValidBase
    | ImplicitBase(basePayloadHash: Word, eventCursor: U64, leafCursor: U64, tipRoot: Word)
    | ExpectedHead(revision: U64, baseRevision: U64, basePayloadHash: Word,
                   eventCursor: U64, leafCursor: U64, tipRoot: Word)
    | CorruptState(token: ReplacementToken)

  datatype Condition = Condition(
    generation: U64, publisher: Option<(Word, U64)>, manifestHash: Option<Word>,
    state: ExpectedState)

  datatype Observed = Observed(
    revision: U64, baseRevision: U64, basePayloadHash: Word,
    eventCursor: U64, leafCursor: U64, tipRoot: Word,
    blockedRevision: Option<U64>, blockedPayloadHash: Option<Word>,
    deltaCount: nat, deltaPayloadBytes: U64)

  /** The fingerprint hashes every row of the corpus; as the hash is taken to be
      injective, the token carries the rows themselves. */
  function TokenOf(t: Tables, id: CorpusId): ReplacementToken {
    var base := if id in t.bases then Some(t.bases[id]) else None;
    match ReadableHead(t, id)
    case Some(h) => ReplacementToken(base, Rows(t, id), h.revision, h.deltaCount, h.deltaPayloadBytes)
    case None => ReplacementToken(base, Rows(t, id), 0, 0, 0)
  }

  datatype ContextConflict =
    | GenerationDiffers(actual: U64)
    | SequenceDiffers(sequence: Option<U64>)
    | ManifestDiffers(hash: Option<Word>)

  function ConflictWith(t: Tables, c: Condition): (r: Option<ContextConflict>) {
    if t.generation != c.generation then Some(GenerationDiffers(t.generation))
    else if c.publisher.None? then None
    else
      var (publisher, sequence) := c.publisher.value;
      if publisher !in t.watermarks then Some(SequenceDiffers(None))
      else if t.watermarks[publisher].sequence != sequence
      then Some(SequenceDiffers(Some(t.watermarks[publisher].sequence)))
      else if c.manifestHash.Some? && t.watermarks[publisher].manifestHash != c.manifestHash
      then Some(ManifestDiffers(t.watermarks[publisher].manifestHash))
      else None
  }

  const FRESH: Observed := Observed(0, 0, 0, 0, 0, 0, None, None, 0, 0)

  predicate Matches(h: HeadRecord, e: ExpectedState)
    requires e.ExpectedHead?
  {
    && h.revision == e.revision
    && h.baseRevision == e.baseRevision
    && h.basePayloadHash == e.basePayloadHash
    && h.eventCursor == e.eventCursor
    && h.leafCursor == e.leafCursor
    && h.corpus.tipRoot == e.tipRoot
  }

  /** `Err` when a head row exists that cannot be trusted; `Ok(None)` when the
      stored state is not the expected one. */
  function Observe(t: Tables, id: CorpusId, e: ExpectedState): Result<Option<Observed>, ()> {
    if e.CorruptState? then
      if TokenOf(t, id) != e.token then Ok(None)
      else Ok(Some(FRESH.(revision := e.token.revision, baseRevision := e.token.revision,
                          deltaCount := e.token.deltaCount,
                          deltaPayloadBytes := e.token.deltaPayloadBytes)))
    else if HeadKey(id) in t.journal && ReadableHead(t, id).None? then Err(())
    else
      var head := ReadableHead(t, id);
      match e
      case NoValidBase =>
        if head.Some? || id in t.bases || HasJournalRows(t, id) then Ok(None) else Ok(Some(FRESH))
      case ImplicitBase(hash, events, leaves, root) =>
        if head.Some? || DecodedBase(t, id).None? || Keccak(DecodedBase(t, id).value.payload) != hash
        then Ok(None)
        else Ok(Some(FRESH.(basePayloadHash := hash, eventCursor := events,
                            leafCursor := leaves, tipRoot := root)))
      case ExpectedHead(_, _, _, _, _, _) =>
        if head.None? || !Matches(head.value, e) then Ok(None)
        else
          var h := head.value;
          Ok(Some(Observed(h.revision, h.baseRevision, h.basePayloadHash, h.eventCursor,
                           h.leafCursor, h.corpus.tipRoot, h.blockedRevision,
                           h.blockedPayloadHash, h.deltaCount, h.deltaPayloadBytes)))
  }

  // ---- The writers: when they apply, and what they then store ----

  datatype AppendRequest = AppendRequest(
    head: HeadRecord, delta: Option<DeltaRecord>, blocked: Option<BlockedRecord>,
    condition: Condition, now: U64)

  datatype RebaseRequest = RebaseRequest(
    base: BaseRecord, eventCursor: U64, leafCursor: U64, condition: Condition, now: U64)

  predicate Observes(t: Tables, id: CorpusId, c: Condition) {
    && ConflictWith(t, c).None?
    && Observe(t, id, c.state).Ok?
    && Observe(t, id, c.state).value.Some?
    && Observe(t, id, c.state).value.value.revision < U64_MAX
  }

  function Seen(t: Tables, id: CorpusId, c: Condition): Observed
    requires Observes(t, id, c)
  {
    Observe(t, id, c.state).value.value
  }

  function PayloadBytes(delta: Option<DeltaRecord>): nat {
    if delta.Some? then |delta.value.payload| else 0
  }

  predicate WithinCaps(o: Observed, a: AppendRequest) {
    && o.deltaCount + (if a.delta.Some? then 1 else 0) <= MAX_DELTA_COUNT
    && o.deltaPayloadBytes + PayloadBytes(a.delta) <= MAX_PAYLOAD_BYTES
  }

  /** The request's cursors and roots continue the observed ones. */
  predicate Continues(o: Observed, a: AppendRequest) {
    && (match a.delta
        case Some(d) =>
          && d.id == a.head.corpus.id
          && d.eventStart == o.eventCursor && d.leafStart == o.leafCursor
          && d.startRoot == o.tipRoot
          && d.eventEnd == a.head.eventCursor && d.leafEnd == a.head.leafCursor
          && d.endRoot == a.head.corpus.tipRoot
        case None =>
          && a.head.eventCursor == o.eventCursor && a.head.leafCursor == o.leafCursor
          && a.head.corpus.tipRoot == o.tipRoot)
    && a.head.eventCursor > 0
    && a.head.corpus.tipIndex == a.head.eventCursor - 1
  }

  predicate BlockedFits(a: AppendRequest) {
    a.blocked.Some? ==>
      && a.blocked.value.id == a.head.corpus.id
      && |a.blocked.value.payload| <= MAX_BLOCKED_PAYLOAD_BYTES
  }

  /** Exactly the states and requests on which an append commits. */
  predicate AppendApplies(t: Tables, a: AppendRequest) {
    && a.head.corpus.payload == []
    && (a.condition.state.ImplicitBase? || a.condition.state.ExpectedHead?)
    && Observes(t, a.head.corpus.id, a.condition)
    && var o := Seen(t, a.head.corpus.id, a.condition);
    && WithinCaps(o, a)
    && Continues(o, a)
    && BlockedFits(a)
    && (a.delta.Some? ==> DeltaKey(a.head.corpus.id, o.revision + 1) !in t.journal)
  }

  function StampedDelta(o: Observed, a: AppendRequest): DeltaRecord
    requires a.delta.Some? && o.revision < U64_MAX
  {
    a.delta.value.(formatVersion := FORMAT_VERSION, generation := a.condition.generation,
                   revision := o.revision + 1, previousRevision := o.revision,
                   baseRevision := o.baseRevision, updatedAt := a.now)
  }

  function StampedBlocked(o: Observed, a: AppendRequest): BlockedRecord
    requires a.blocked.Some? && o.revision < U64_MAX
  {
    a.blocked.value.(formatVersion := FORMAT_VERSION, generation := a.condition.generation,
                     revision := o.revision + 1,
                     payloadHash := Keccak(a.blocked.value.payload), updatedAt := a.now)
  }

  function StampedHead(o: Observed, a: AppendRequest): HeadRecord
    requires o.revision < U64_MAX && WithinCaps(o, a)
  {
    a.head.(
    formatVersion := FORMAT_VERSION, revision := o.revision + 1,
    baseRevision := o.baseRevision, basePayloadHash := o.basePayloadHash,
    deltaCount := o.deltaCount + (if a.delta.Some? then 1 else 0),
    deltaPayloadBytes := o.deltaPayloadBytes + PayloadBytes(a.delta),
    blockedRevision := if a.blocked.Some? then Some(o.revision + 1) else o.blockedRevision,
    blockedPayloadHash :=
      if a.blocked.Some? then Some(Keccak(a.blocked.value.payload)) else o.blockedPayloadHash,
    corpus := a.head.corpus.(generation := a.condition.generation, updatedAt := a.now))
  }

  function AfterAppend(t: Tables, a: AppendRequest): Tables
    requires AppendApplies(t, a)
  {
    var id := a.head.corpus.id;
    var o := Seen(t, id, a.condition);
    var j1 := if a.delta.Some?
              then t.journal[DeltaKey(id, o.revision + 1) := DeltaRow(StampedDelta(o, a))]
              else t.journal;
    var j2 := if a.blocked.Some?
              then j1[BlockedKey(id) := BlockedRow(StampedBlocked(o, a))]
              else j1;
    t.(journal := j2[HeadKey(id) := HeadRow(StampedHead(o, a))])
  }

  predicate RebaseApplies(t: Tables, q: RebaseRequest) {
    && q.eventCursor > 0
    && q.base.tipIndex == q.eventCursor - 1
    && Observes(t, q.base.id, q.condition)
  }

  function RebasedBase(q: RebaseRequest): BaseRecord {
    q.base.(generation := q.condition.generation, updatedAt := q.now)
  }

  function RebasedHead(o: Observed, q: RebaseRequest): HeadRecord
    requires o.revision < U64_MAX
  {
    HeadRecord(FORMAT_VERSION, o.revision + 1, o.revision + 1, Keccak(q.base.payload),
               q.eventCursor, q.leafCursor, None, None, 0, 0,
               RebasedBase(q).(payload := []))
  }

  function AfterRebase(t: Tables, q: RebaseRequest): Tables
    requires RebaseApplies(t, q)
  {
    var id := q.base.id;
    var kept := map k | k in t.journal && k.id != id :: t.journal[k];
    t.(bases := t.bases[id := StoredBase(RebasedBase(q))],
       journal := kept[HeadKey(id) := HeadRow(RebasedHead(Seen(t, id, q.condition), q))])
  }

  /** Clearing empties both tables and starts a new generation. */
  function AfterClear(t: Tables): Tables
    requires t.generation < U64_MAX
  {
    t.(bases := map[], journal := map[], generation := t.generation + 1)
  }

  // ---- What a sound journal is ----

  predicate MissingCorpus(t: Tables, id: CorpusId) {
    id !in t.bases && !HasJournalRows(t, id)
  }

  /** One entry of a range scan over the delta rows of a corpus. */
  datatype ScanEntry = ScanEntry(revision: U64, row: JournalRow)

  function DeltaRows(t: Tables, id: CorpusId): (rows: seq<ScanEntry>)
    ensures StrictlyAscendingRows(rows)
    ensures |rows| == |Revisions(t, id)|
    ensures forall i :: 0 <= i < |rows| ==>
      && DeltaKey(id, rows[i].revision) in t.journal
      && rows[i].row == t.journal[DeltaKey(id, rows[i].revision)]
      && rows[i].revision == Revisions(t, id)[i]
  {
    var revs := Revisions(t, id);
    seq(|revs|, i requires 0 <= i < |revs| =>
      assert revs[i] in revs; ScanEntry(revs[i], t.journal[DeltaKey(id, revs[i])]))
  }

  predicate StrictlyAscendingRows(rows: seq<ScanEntry>) {
    forall i, j :: 0 <= i < j < |rows| ==> rows[i].revision < rows[j].revision
  }

  predicate StoresRevision(rows: seq<ScanEntry>, r: U64) {
    exists i :: 0 <= i < |rows| && rows[i].revision == r
  }

  predicate AllDeltas(rows: seq<ScanEntry>) {
    forall i :: 0 <= i < |rows| ==> rows[i].row.DeltaRow?
  }

  function DeltasOf(rows: seq<ScanEntry>): (ds: seq<DeltaRecord>)
    requires AllDeltas(rows)
  {
    seq(|rows|, i requires 0 <= i < |rows| => rows[i].row.delta)
  }

  function PayloadSum(rows: seq<ScanEntry>): nat
    requires AllDeltas(rows)
  {
    if rows == [] then 0
    else PayloadSum(rows[..|rows| - 1]) + |rows[|rows| - 1].row.delta.payload|
  }

  function CoverageAfter(h: HeadRecord): U64 {
    if h.blockedRevision.Some? then h.blockedRevision.value else h.baseRevision
  }

  predicate DeltaFits(d: DeltaRecord) {
    DeltaRowBytes(d) <= MAX_DELTA_ROW_BYTES
  }

  /** A delta starts where its predecessor, or the base, ended. The base says
      nothing about the leaf cursor. */
  predicate Linked(base: BaseRecord, previous: Option<DeltaRecord>, d: DeltaRecord) {
    match previous
    case None => d.eventStart == SaturatingSucc(base.tipIndex) && d.startRoot == base.tipRoot
    case Some(p) => d.eventStart == p.eventEnd && d.leafStart == p.leafEnd && d.startRoot == p.endRoot
  }

  function Previous(rows: seq<ScanEntry>, i: nat): Option<DeltaRecord>
    requires i <= |rows|
  {
    if i == 0 || !rows[i - 1].row.DeltaRow? then None else Some(rows[i - 1].row.delta)
  }

  predicate GoodEntry(rows: seq<ScanEntry>, i: nat, base: BaseRecord, h: HeadRecord)
    requires i < |rows|
  {
    && rows[i].row.DeltaRow?
    && var d := rows[i].row.delta;
    && d.revision == rows[i].revision
    && ValidDelta(d, h)
    && DeltaFits(d)
    && Linked(base, Previous(rows, i), d)
  }

  predicate EndsAtHead(base: BaseRecord, last: Option<DeltaRecord>, h: HeadRecord) {
    match last
    case None => h.eventCursor == SaturatingSucc(base.tipIndex) && h.corpus.tipRoot == base.tipRoot
    case Some(d) =>
      d.eventEnd == h.eventCursor && d.leafEnd == h.leafCursor && d.endRoot == h.corpus.tipRoot
  }

  predicate CoversSuffix(rows: seq<ScanEntry>, h: HeadRecord) {
    forall r: U64 :: CoverageAfter(h) < r <= h.revision ==> StoresRevision(rows, r)
  }

  /** Row count, payload total, cursor and root chains and revision coverage all
      match the head. */
  predicate RowsAgree(rows: seq<ScanEntry>, base: BaseRecord, h: HeadRecord) {
    && AllDeltas(rows)
    && (forall i :: 0 <= i < |rows| ==> GoodEntry(rows, i, base, h))
    && |rows| == h.deltaCount
    && PayloadSum(rows) == h.deltaPayloadBytes
    && EndsAtHead(base, Previous(rows, |rows|), h)
    && CoversSuffix(rows, h)
  }

  predicate BlockedAgrees(t: Tables, id: CorpusId, h: HeadRecord) {
    match h.blockedRevision
    case None => BlockedKey(id) !in t.journal
    case Some(revision) =>
      && BlockedKey(id) in t.journal
      && t.journal[BlockedKey(id)].BlockedRow?
      && var b := t.journal[BlockedKey(id)].blocked;
      && BlockedRowBytes(b) <= MAX_BLOCKED_ROW_BYTES
      && |b.payload| <= MAX_BLOCKED_PAYLOAD_BYTES
      && ValidBlocked(b, h)
      && b.revision == revision
      && Some(b.payloadHash) == h.blockedPayloadHash
  }

  predicate BaseAgrees(base: BaseRecord, h: HeadRecord) {
    base.generation == h.corpus.generation && Keccak(base.payload) == h.basePayloadHash
  }

  /** A journal whose every row agrees with its head, stated without the scan that
      checks it: row count, payload total, cursor and root chains, and a stored
      delta for every revision after the covered one. */
  predicate SoundJournal(t: Tables, id: CorpusId) {
    && DecodedBase(t, id).Some?
    && if HeadKey(id) !in t.journal then !HasJournalRows(t, id)
       else
         && ReadableHead(t, id).Some?
         && var base, h := DecodedBase(t, id).value, ReadableHead(t, id).value;
         && BaseAgrees(base, h)
         && RowsAgree(DeltaRows(t, id), base, h)
         && BlockedAgrees(t, id, h)
  }
}
