/** When a commit is accepted, said over the stored rows: which generation, watermark, base
    and head each condition asks for, field by field. */
module JournalExact {
  import opened Common
  import opened JournalModel

  // ---- The context of a condition ----

  /** The generation is the current one, and the publisher's watermark, if one is named, is
      at the expected sequence and hash. */
  predicate InContext(t: Tables, c: Condition) {
    && t.generation == c.generation
    && (c.publisher.Some? ==>
          && c.publisher.value.0 in t.watermarks
          && t.watermarks[c.publisher.value.0].sequence == c.publisher.value.1
          && (c.manifestHash.Some? ==> t.watermarks[c.publisher.value.0].manifestHash == c.manifestHash))
  }

  lemma ContextExactly(t: Tables, c: Condition)
    ensures ConflictWith(t, c).None? <==> InContext(t, c)
  {
  }

  // ---- The stored state a condition asks for ----

  /** The head row decodes to a head of this corpus, is at most a mebibyte long and makes
      sense. */
  predicate HoldsHead(t: Tables, id: CorpusId, h: HeadRecord) {
    && HeadKey(id) in t.journal && t.journal[HeadKey(id)] == HeadRow(h)
    && h.corpus.id == id && HeadRowBytes(h) <= 1_048_576
    && h.formatVersion == 1 && |h.corpus.payload| == 0
    && h.baseRevision <= h.revision && h.corpus.tipIndex + 1 == h.eventCursor
    && h.deltaCount <= 512 && h.deltaPayloadBytes <= 33_554_432
    && (match (h.blockedRevision, h.blockedPayloadHash)
        case (None, None) => true
        case (Some(r), Some(_)) => h.baseRevision < r && r <= h.revision
        case _ => false)
  }

  lemma ReadableExactly(t: Tables, id: CorpusId, h: HeadRecord)
    ensures ReadableHead(t, id) == Some(h) <==> HoldsHead(t, id, h)
  {
  }

  predicate NoRows(t: Tables, id: CorpusId) {
    forall k :: k in t.journal ==> k.id != id
  }

  /** The token names every row of the corpus, and the counts of its head if that is
      readable. */
  ghost predicate TokenNames(t: Tables, id: CorpusId, token: ReplacementToken) {
    && (if id in t.bases then token.base == Some(t.bases[id]) else token.base == None)
    && (forall k :: k in token.rows <==> k in t.journal && k.id == id)
    && (forall k :: k in token.rows ==> token.rows[k] == t.journal[k])
    && (if exists h :: HoldsHead(t, id, h)
        then exists h :: HoldsHead(t, id, h) && token.revision == h.revision
               && token.deltaCount == h.deltaCount && token.deltaPayloadBytes == h.deltaPayloadBytes
        else token.revision == 0 && token.deltaCount == 0 && token.deltaPayloadBytes == 0)
  }

  lemma TokenExactly(t: Tables, id: CorpusId, token: ReplacementToken)
    ensures TokenOf(t, id) == token <==> TokenNames(t, id, token)
  {
    if ReadableHead(t, id).Some? { ReadableExactly(t, id, ReadableHead(t, id).value); }
    forall h ensures HoldsHead(t, id, h) ==> ReadableHead(t, id) == Some(h) {
      ReadableExactly(t, id, h);
    }
    if TokenNames(t, id, token) {
      assert token.rows == Rows(t, id);
    }
  }

  /** The stored state is the expected one. */
  ghost predicate Stands(t: Tables, id: CorpusId, e: ExpectedState) {
    match e
    case NoValidBase => id !in t.bases && NoRows(t, id)
    case ImplicitBase(hash, _, _, _) =>
      && HeadKey(id) !in t.journal && id in t.bases
      && t.bases[id].StoredBase? && t.bases[id].record.id == id && Keccak(t.bases[id].record.payload) == hash
    case ExpectedHead(revision, baseRevision, hash, events, leaves, root) =>
      exists h :: HoldsHead(t, id, h)
        && h.revision == revision && h.baseRevision == baseRevision && h.basePayloadHash == hash
        && h.eventCursor == events && h.leafCursor == leaves && h.corpus.tipRoot == root
    case CorruptState(token) => TokenNames(t, id, token)
  }

  /** A commit leaves room for one more revision. */
  predicate HasRoom(e: ExpectedState) {
    match e
    case ExpectedHead(revision, _, _, _, _, _) => revision < U64_MAX
    case CorruptState(token) => token.revision < U64_MAX
    case _ => true
  }

  lemma NoRowsExactly(t: Tables, id: CorpusId)
    ensures NoRows(t, id) <==> !HasJournalRows(t, id)
  {
  }

  /** A condition is met exactly in its context and where the stored rows stand as it says. */
  lemma ObservesExactly(t: Tables, id: CorpusId, c: Condition)
    ensures Observes(t, id, c) <==> InContext(t, c) && Stands(t, id, c.state) && HasRoom(c.state)
  {
    ContextExactly(t, c);
    match c.state
    case NoValidBase =>
      NoRowsExactly(t, id);
      assert HeadKey(id).id == id;
    case ImplicitBase(_, _, _, _) =>
      if ReadableHead(t, id).Some? { ReadableExactly(t, id, ReadableHead(t, id).value); }
    case ExpectedHead(_, _, _, _, _, _) =>
      if ReadableHead(t, id).Some? { ReadableExactly(t, id, ReadableHead(t, id).value); }
      forall h ensures HoldsHead(t, id, h) ==> ReadableHead(t, id) == Some(h) {
        ReadableExactly(t, id, h);
      }
    case CorruptState(token) => TokenExactly(t, id, token);
  }

  // ---- Commits ----

  /** A rebase commits exactly for a cursor that names its tip, where its condition holds. */
  lemma RebaseAppliesExactly(t: Tables, q: RebaseRequest)
    ensures RebaseApplies(t, q) <==>
      && q.base.tipIndex + 1 == q.eventCursor
      && InContext(t, q.condition) && Stands(t, q.base.id, q.condition.state) && HasRoom(q.condition.state)
  {
    ObservesExactly(t, q.base.id, q.condition);
  }

  /** The head row, if there is one, can be read. */
  ghost predicate HeadIsReadable(t: Tables, id: CorpusId) {
    HeadKey(id) in t.journal ==> exists h :: HoldsHead(t, id, h)
  }

  /** A stored state other than the expected one is told apart from a head that cannot be
      read. */
  lemma MismatchExactly(t: Tables, id: CorpusId, e: ExpectedState)
    ensures Observe(t, id, e) == Ok(None) <==> !Stands(t, id, e) && (e.CorruptState? || HeadIsReadable(t, id))
  {
    var c := Condition(t.generation, None, None, e);
    ContextExactly(t, c);
    ObservesExactly(t, id, c);
    if ReadableHead(t, id).Some? { ReadableExactly(t, id, ReadableHead(t, id).value); }
    forall h ensures HoldsHead(t, id, h) ==> ReadableHead(t, id) == Some(h) {
      ReadableExactly(t, id, h);
    }
    match e
    case NoValidBase => NoRowsExactly(t, id);
    case ImplicitBase(_, _, _, _) =>
    case ExpectedHead(_, _, _, _, _, _) =>
    case CorruptState(token) => TokenExactly(t, id, token);
  }

  /** Where an append starts: the revision, cursors and root it continues, and the deltas and
      bytes that are stored already. */
  datatype Origin = Origin(revision: U64, events: U64, leaves: U64, root: Word, deltas: nat, bytes: nat)

  /** An implicit base is taken at its word; a head is read. */
  ghost predicate StartsAt(t: Tables, id: CorpusId, e: ExpectedState, o: Origin) {
    match e
    case ImplicitBase(_, events, leaves, root) => Stands(t, id, e) && o == Origin(0, events, leaves, root, 0, 0)
    case ExpectedHead(revision, _, _, events, leaves, root) =>
      && Stands(t, id, e)
      && o.revision == revision && o.events == events && o.leaves == leaves && o.root == root
      && exists h :: HoldsHead(t, id, h) && o.deltas == h.deltaCount && o.bytes == h.deltaPayloadBytes
    case _ => false
  }

  /** One more delta stays within 512 deltas and 32 mebibytes. */
  predicate FitsCaps(o: Origin, a: AppendRequest) {
    match a.delta
    case None => o.deltas <= 512 && o.bytes <= 33_554_432
    case Some(d) => o.deltas < 512 && o.bytes + |d.payload| <= 33_554_432
  }

  /** The delta leads from the origin to the new head; without one the head stays there. */
  predicate Leads(o: Origin, a: AppendRequest) {
    && a.head.corpus.tipIndex + 1 == a.head.eventCursor
    && match a.delta
       case None => a.head.eventCursor == o.events && a.head.leafCursor == o.leaves && a.head.corpus.tipRoot == o.root
       case Some(d) =>
         && d.id == a.head.corpus.id
         && d.eventStart == o.events && d.eventEnd == a.head.eventCursor
         && d.leafStart == o.leaves && d.leafEnd == a.head.leafCursor
         && d.startRoot == o.root && d.endRoot == a.head.corpus.tipRoot
  }

  predicate SnapshotFits(a: AppendRequest) {
    a.blocked.Some? ==> a.blocked.value.id == a.head.corpus.id && |a.blocked.value.payload| <= 4_194_304
  }

  ghost predicate AppendFits(t: Tables, a: AppendRequest, o: Origin) {
    && StartsAt(t, a.head.corpus.id, a.condition.state, o) && o.revision < U64_MAX
    && FitsCaps(o, a) && Leads(o, a) && SnapshotFits(a)
    && (a.delta.Some? ==> DeltaKey(a.head.corpus.id, o.revision + 1) !in t.journal)
  }

  /** An append sees exactly the origin its condition names. */
  lemma SeenExactly(t: Tables, id: CorpusId, c: Condition, o: Origin)
    requires Observes(t, id, c)
    ensures StartsAt(t, id, c.state, o) <==>
      var s := Seen(t, id, c);
      && (c.state.ImplicitBase? || c.state.ExpectedHead?)
      && o == Origin(s.revision, s.eventCursor, s.leafCursor, s.tipRoot, s.deltaCount, s.deltaPayloadBytes)
  {
    ObservesExactly(t, id, c);
    if ReadableHead(t, id).Some? { ReadableExactly(t, id, ReadableHead(t, id).value); }
    forall h ensures HoldsHead(t, id, h) ==> ReadableHead(t, id) == Some(h) {
      ReadableExactly(t, id, h);
    }
  }

  /** An append commits exactly for a head without payload, in its context, from an origin it
      continues within the caps and onto a free revision. */
  lemma AppendAppliesExactly(t: Tables, a: AppendRequest)
    ensures AppendApplies(t, a) <==>
      |a.head.corpus.payload| == 0 && InContext(t, a.condition) && exists o :: AppendFits(t, a, o)
  {
    var id, c := a.head.corpus.id, a.condition;
    ObservesExactly(t, id, c);
    if AppendApplies(t, a) {
      var s := Seen(t, id, c);
      var o := Origin(s.revision, s.eventCursor, s.leafCursor, s.tipRoot, s.deltaCount, s.deltaPayloadBytes);
      SeenExactly(t, id, c, o);
      assert AppendFits(t, a, o);
    }
    if |a.head.corpus.payload| == 0 && InContext(t, c) && exists o :: AppendFits(t, a, o) {
      var o :| AppendFits(t, a, o);
      SeenExactly(t, id, c, o);
    }
  }

  /** An append asks for compaction when its delta would not fit beside the stored ones. */
  ghost predicate NeedsCompaction(t: Tables, a: AppendRequest) {
    exists o :: StartsAt(t, a.head.corpus.id, a.condition.state, o) && o.revision < U64_MAX && !FitsCaps(o, a)
  }

  lemma CompactionExactly(t: Tables, a: AppendRequest)
    requires InContext(t, a.condition)
    ensures NeedsCompaction(t, a) <==>
      && (a.condition.state.ImplicitBase? || a.condition.state.ExpectedHead?)
      && Observes(t, a.head.corpus.id, a.condition) && !WithinCaps(Seen(t, a.head.corpus.id, a.condition), a)
  {
    var id, c := a.head.corpus.id, a.condition;
    ObservesExactly(t, id, c);
    if NeedsCompaction(t, a) {
      var o :| StartsAt(t, id, c.state, o) && o.revision < U64_MAX && !FitsCaps(o, a);
      SeenExactly(t, id, c, o);
    }
    if Observes(t, id, c) && !WithinCaps(Seen(t, id, c), a) && (c.state.ImplicitBase? || c.state.ExpectedHead?) {
      var s := Seen(t, id, c);
      var o := Origin(s.revision, s.eventCursor, s.leafCursor, s.tipRoot, s.deltaCount, s.deltaPayloadBytes);
      SeenExactly(t, id, c, o);
      assert !FitsCaps(o, a);
    }
  }

  /** The corpus is not the one an append expects: appends never repair, never start a
      journal, and never overwrite a stored delta. */
  ghost predicate AppendConflicts(t: Tables, a: AppendRequest) {
    var id, e := a.head.corpus.id, a.condition.state;
    || e.CorruptState?
    || (InContext(t, a.condition) && HeadIsReadable(t, id) && (e.NoValidBase? || !Stands(t, id, e)))
    || (InContext(t, a.condition) && exists o :: TakesRevision(t, a, o))
  }

  ghost predicate TakesRevision(t: Tables, a: AppendRequest, o: Origin) {
    && StartsAt(t, a.head.corpus.id, a.condition.state, o) && o.revision < U64_MAX
    && FitsCaps(o, a) && Leads(o, a) && SnapshotFits(a)
    && a.delta.Some? && DeltaKey(a.head.corpus.id, o.revision + 1) in t.journal
  }

  // ---- What a commit stores ----

  /** The revision, base and snapshot a commit builds on; a new journal builds on nothing. */
  ghost predicate BuildsOn(t: Tables, id: CorpusId, e: ExpectedState, s: Observed) {
    match e
    case NoValidBase => s == Observed(0, 0, 0, 0, 0, 0, None, None, 0, 0)
    case ImplicitBase(hash, events, leaves, root) => s == Observed(0, 0, hash, events, leaves, root, None, None, 0, 0)
    case ExpectedHead(_, _, _, _, _, _) =>
      exists h :: HoldsHead(t, id, h)
        && s == Observed(h.revision, h.baseRevision, h.basePayloadHash, h.eventCursor, h.leafCursor, h.corpus.tipRoot,
                         h.blockedRevision, h.blockedPayloadHash, h.deltaCount, h.deltaPayloadBytes)
    case CorruptState(token) =>
      s == Observed(token.revision, token.revision, 0, 0, 0, 0, None, None, token.deltaCount, token.deltaPayloadBytes)
  }

  lemma BuildsOnSeen(t: Tables, id: CorpusId, c: Condition)
    requires Observes(t, id, c)
    ensures BuildsOn(t, id, c.state, Seen(t, id, c))
  {
    if ReadableHead(t, id).Some? { ReadableExactly(t, id, ReadableHead(t, id).value); }
  }

  /** An append stamps version, revisions, generation and time, counts its delta, and names
      the snapshot it brings or the one before. */
  predicate HeadStamped(h: HeadRecord, s: Observed, a: AppendRequest) {
    && h.formatVersion == 1 && h.revision == s.revision + 1
    && h.baseRevision == s.baseRevision && h.basePayloadHash == s.basePayloadHash
    && h.eventCursor == a.head.eventCursor && h.leafCursor == a.head.leafCursor
    && (match a.blocked
        case Some(b) => h.blockedRevision == Some(s.revision + 1) && h.blockedPayloadHash == Some(Keccak(b.payload))
        case None => h.blockedRevision == s.blockedRevision && h.blockedPayloadHash == s.blockedPayloadHash)
    && (match a.delta
        case Some(d) => h.deltaCount == s.deltaCount + 1 && h.deltaPayloadBytes == s.deltaPayloadBytes + |d.payload|
        case None => h.deltaCount == s.deltaCount && h.deltaPayloadBytes == s.deltaPayloadBytes)
    && var c := a.head.corpus;
    h.corpus == BaseRecord(c.id, a.condition.generation, c.tipIndex, c.tipRoot, c.payload, c.meta, a.now)
  }

  predicate DeltaStamped(stored: DeltaRecord, d: DeltaRecord, s: Observed, a: AppendRequest) {
    && stored.formatVersion == 1 && stored.generation == a.condition.generation && stored.updatedAt == a.now
    && stored.revision == s.revision + 1 && stored.previousRevision == s.revision && stored.baseRevision == s.baseRevision
    && stored.id == d.id && stored.eventStart == d.eventStart && stored.eventEnd == d.eventEnd
    && stored.leafStart == d.leafStart && stored.leafEnd == d.leafEnd
    && stored.startRoot == d.startRoot && stored.endRoot == d.endRoot && stored.payload == d.payload
  }

  predicate SnapshotStamped(stored: BlockedRecord, b: BlockedRecord, s: Observed, a: AppendRequest) {
    && stored.formatVersion == 1 && stored.generation == a.condition.generation && stored.updatedAt == a.now
    && stored.revision == s.revision + 1 && stored.id == b.id
    && stored.payload == b.payload && stored.payloadHash == Keccak(b.payload)
  }

  /** A rebase stores its base whole and a head without deltas, one revision on. */
  predicate RebaseStamped(base: BaseRecord, h: HeadRecord, s: Observed, q: RebaseRequest) {
    && base == BaseRecord(q.base.id, q.condition.generation, q.base.tipIndex, q.base.tipRoot, q.base.payload, q.base.meta, q.now)
    && h.formatVersion == 1 && h.revision == s.revision + 1 && h.baseRevision == s.revision + 1
    && h.basePayloadHash == Keccak(q.base.payload) && h.eventCursor == q.eventCursor && h.leafCursor == q.leafCursor
    && h.blockedRevision == None && h.blockedPayloadHash == None && h.deltaCount == 0 && h.deltaPayloadBytes == 0
    && h.corpus == BaseRecord(base.id, base.generation, base.tipIndex, base.tipRoot, [], base.meta, base.updatedAt)
  }
}
