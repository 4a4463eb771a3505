/** Safety of the journal over whole runs: writers and auditor agree, and publisher
    manifests never equivocate. */
module JournalRuns {
  import opened Common
  import opened OrderedSets
  import opened JournalModel
  import opened JournalStore

  // ---- One append against the auditor ----

  /** A condition that describes a base without a journal describes it correctly. */
  predicate Truthful(t: Tables, a: AppendRequest)
    requires AppendApplies(t, a) && DecodedBase(t, a.head.corpus.id).Some?
  {
    a.condition.state.ImplicitBase? ==>
      && a.condition.state.eventCursor == SaturatingSucc(DecodedBase(t, a.head.corpus.id).value.tipIndex)
      && a.condition.state.tipRoot == DecodedBase(t, a.head.corpus.id).value.tipRoot
  }

  /** The delta of an append, if there is one, runs forward and fits a row. */
  predicate DeltaSound(o: Observed, a: AppendRequest)
    requires o.revision < U64_MAX
  {
    a.delta.Some? ==>
      && a.delta.value.eventStart <= a.delta.value.eventEnd
      && a.delta.value.leafStart <= a.delta.value.leafEnd
      && DeltaFits(StampedDelta(o, a))
  }

  /** What a caller must know before an append for the journal to stay sound.
      Nothing here is checked by the append itself. */
  predicate AppendAdmissible(t: Tables, a: AppendRequest)
    requires AppendApplies(t, a) && DecodedBase(t, a.head.corpus.id).Some?
  {
    var o := Seen(t, a.head.corpus.id, a.condition);
    var base := DecodedBase(t, a.head.corpus.id).value;
    && (a.delta.Some? || a.blocked.Some?)
    && DeltaSound(o, a)
    && (a.blocked.Some? ==> BlockedRowBytes(StampedBlocked(o, a)) <= MAX_BLOCKED_ROW_BYTES)
    && HeadRowBytes(StampedHead(o, a)) <= MAX_HEAD_ROW_BYTES
    && base.generation == a.condition.generation
    && Truthful(t, a)
  }

  lemma AppendHeadIsValid(t: Tables, a: AppendRequest)
    requires AppendApplies(t, a)
    ensures ValidHead(StampedHead(Seen(t, a.head.corpus.id, a.condition), a))
  {
  }

  predicate SameDeltaRow(t: Tables, t': Tables, id: CorpusId, r: U64) {
    && (DeltaKey(id, r) in t.journal <==> DeltaKey(id, r) in t'.journal)
    && (DeltaKey(id, r) in t.journal ==> t.journal[DeltaKey(id, r)] == t'.journal[DeltaKey(id, r)])
  }

  lemma RowsUnchanged(t: Tables, t': Tables, id: CorpusId)
    requires forall r: U64 :: SameDeltaRow(t, t', id, r)
    ensures DeltaRows(t', id) == DeltaRows(t, id)
  {
    assert StoredRevisions(t', id) == StoredRevisions(t, id) by {
      forall r: U64 ensures r in StoredRevisions(t', id) <==> r in StoredRevisions(t, id) {
        assert SameDeltaRow(t, t', id, r);
      }
    }
    forall i | 0 <= i < |DeltaRows(t, id)| ensures DeltaRows(t', id)[i] == DeltaRows(t, id)[i] {
      assert SameDeltaRow(t, t', id, Revisions(t, id)[i]);
    }
  }

  lemma RowsSnoc(t: Tables, t': Tables, id: CorpusId, next: U64)
    requires forall r: U64 :: DeltaKey(id, r) in t.journal ==> r < next
    requires forall r: U64 :: r != next ==> SameDeltaRow(t, t', id, r)
    requires DeltaKey(id, next) in t'.journal
    ensures DeltaRows(t', id) == DeltaRows(t, id) + [ScanEntry(next, t'.journal[DeltaKey(id, next)])]
  {
    assert StoredRevisions(t', id) == StoredRevisions(t, id) + {next} by {
      forall r: U64 ensures r in StoredRevisions(t', id) <==> r in StoredRevisions(t, id) + {next} {
        if r != next { assert SameDeltaRow(t, t', id, r); }
      }
    }
    AscendingSnoc(StoredRevisions(t, id), next);
    var rows, rows' := DeltaRows(t, id), DeltaRows(t', id);
    forall i | 0 <= i < |rows| ensures rows'[i] == rows[i] {
      assert Revisions(t, id)[i] in Revisions(t, id);
      assert SameDeltaRow(t, t', id, Revisions(t, id)[i]);
    }
  }

  /** `h'` is the head one revision after `h`, over the same base. */
  predicate Succeeds(h: HeadRecord, h': HeadRecord) {
    && h'.revision == h.revision + 1
    && h'.baseRevision == h.baseRevision <= h.revision
    && h'.corpus.id == h.corpus.id
    && h'.corpus.generation == h.corpus.generation
    && h.baseRevision <= CoverageAfter(h) <= h.revision
    && (CoverageAfter(h') == CoverageAfter(h) || CoverageAfter(h') == h'.revision)
  }

  predicate StampedBetween(h: HeadRecord, d: DeltaRecord, h': HeadRecord) {
    && d.formatVersion == FORMAT_VERSION
    && d.id == h'.corpus.id && d.generation == h'.corpus.generation
    && d.baseRevision == h'.baseRevision
    && d.revision == h'.revision && d.previousRevision == h.revision
    && d.eventStart == h.eventCursor && d.leafStart == h.leafCursor && d.startRoot == h.corpus.tipRoot
    && d.eventEnd == h'.eventCursor && d.leafEnd == h'.leafCursor && d.endRoot == h'.corpus.tipRoot
  }

  lemma EntriesStayGood(rows: seq<ScanEntry>, more: seq<ScanEntry>, base: BaseRecord, h: HeadRecord, h': HeadRecord)
    requires Succeeds(h, h') && RowsAgree(rows, base, h)
    ensures forall i :: 0 <= i < |rows| ==> GoodEntry(rows + more, i, base, h')
  {
    var all := rows + more;
    forall i | 0 <= i < |rows| ensures GoodEntry(all, i, base, h') {
      assert GoodEntry(rows, i, base, h);
      assert Previous(all, i) == Previous(rows, i);
    }
  }

  lemma RevisionsBounded(rows: seq<ScanEntry>, base: BaseRecord, h: HeadRecord, r: U64)
    requires RowsAgree(rows, base, h) && h.revision < r
    ensures !StoresRevision(rows, r)
  {
    forall i | 0 <= i < |rows| ensures rows[i].revision != r {
      assert GoodEntry(rows, i, base, h);
    }
  }

  lemma SnocAgrees(rows: seq<ScanEntry>, base: BaseRecord, h: HeadRecord, d: DeltaRecord, h': HeadRecord)
    requires RowsAgree(rows, base, h)
    requires Succeeds(h, h') && StampedBetween(h, d, h')
    requires h'.deltaCount == h.deltaCount + 1
    requires h'.deltaPayloadBytes == h.deltaPayloadBytes + |d.payload|
    ensures RowsAgree(rows + [ScanEntry(h'.revision, DeltaRow(d))], base, h')
       <==> (d.eventStart <= d.eventEnd && d.leafStart <= d.leafEnd && DeltaFits(d))
  {
    var entry := ScanEntry(h'.revision, DeltaRow(d));
    var all := rows + [entry];
    var n := |rows|;
    assert all[n] == entry && all[..n] == rows;
    EntriesStayGood(rows, [entry], base, h, h');
    assert Previous(all, n) == Previous(rows, n);
    assert GoodEntry(all, n, base, h') <==> (d.eventStart <= d.eventEnd && d.leafStart <= d.leafEnd && DeltaFits(d));
    assert AllDeltas(all);
    assert PayloadSum(all) == PayloadSum(rows) + |d.payload|;
    assert Previous(all, n + 1) == Some(d);
    forall r: U64 | CoverageAfter(h') < r <= h'.revision ensures StoresRevision(all, r) {
      if r == h'.revision {
        assert all[n].revision == r;
      } else {
        assert StoresRevision(rows, r);
        var i :| 0 <= i < n && rows[i].revision == r;
        assert all[i].revision == r;
      }
    }
  }

  lemma NoDeltaAgrees(rows: seq<ScanEntry>, base: BaseRecord, h: HeadRecord, h': HeadRecord)
    requires RowsAgree(rows, base, h)
    requires Succeeds(h, h')
    requires h'.deltaCount == h.deltaCount && h'.deltaPayloadBytes == h.deltaPayloadBytes
    requires h'.eventCursor == h.eventCursor && h'.leafCursor == h.leafCursor
    requires h'.corpus.tipRoot == h.corpus.tipRoot
    ensures RowsAgree(rows, base, h') <==> CoverageAfter(h') == h'.revision
  {
    assert rows + [] == rows;
    EntriesStayGood(rows, [], base, h, h');
    RevisionsBounded(rows, base, h, h'.revision);
    if CoverageAfter(h') != h'.revision {
      assert !CoversSuffix(rows, h');
    }
  }

  /** The head an append builds on: the stored one, or the one its condition
      implies for a base that has no journal yet. */
  function HeadBefore(t: Tables, a: AppendRequest): HeadRecord
    requires AppendApplies(t, a)
  {
    var e := a.condition.state;
    match ReadableHead(t, a.head.corpus.id)
    case Some(h) => h
    case None =>
      var generation := if DecodedBase(t, a.head.corpus.id).Some?
                        then DecodedBase(t, a.head.corpus.id).value.generation else 0;
      HeadRecord(FORMAT_VERSION, 0, 0, e.basePayloadHash, e.eventCursor, e.leafCursor, None, None, 0, 0,
                 a.head.corpus.(tipRoot := e.tipRoot, generation := generation))
  }

  lemma HeadBeforeIsObserved(t: Tables, a: AppendRequest)
    requires AppendApplies(t, a)
    ensures var h, o := HeadBefore(t, a), Seen(t, a.head.corpus.id, a.condition);
            && h.revision == o.revision && h.baseRevision == o.baseRevision
            && h.basePayloadHash == o.basePayloadHash
            && h.eventCursor == o.eventCursor && h.leafCursor == o.leafCursor
            && h.corpus.tipRoot == o.tipRoot && h.corpus.id == a.head.corpus.id
            && h.blockedRevision == o.blockedRevision && h.blockedPayloadHash == o.blockedPayloadHash
            && h.deltaCount == o.deltaCount && h.deltaPayloadBytes == o.deltaPayloadBytes
    ensures HeadBefore(t, a).baseRevision <= CoverageAfter(HeadBefore(t, a)) <= HeadBefore(t, a).revision
  {
  }

  lemma RowsBeforeAppend(t: Tables, a: AppendRequest)
    requires AppendApplies(t, a) && SoundJournal(t, a.head.corpus.id)
    ensures var id := a.head.corpus.id;
            Truthful(t, a) ==> RowsAgree(DeltaRows(t, id), DecodedBase(t, id).value, HeadBefore(t, a))
    ensures a.condition.state.ImplicitBase? ==> DeltaRows(t, a.head.corpus.id) == []
    ensures a.condition.state.ImplicitBase? ==> BlockedKey(a.head.corpus.id) !in t.journal
    ensures forall r: U64 :: DeltaKey(a.head.corpus.id, r) in t.journal ==> r <= HeadBefore(t, a).revision
  {
    var id := a.head.corpus.id;
    var rows := DeltaRows(t, id);
    if a.condition.state.ImplicitBase? {
      assert ReadableHead(t, id).None? && HeadKey(id) !in t.journal;
      assert forall k :: k in t.journal ==> k.id != id;
      assert forall r: U64 :: DeltaKey(id, r) !in t.journal;
    } else {
      forall r: U64 | DeltaKey(id, r) in t.journal ensures r <= HeadBefore(t, a).revision {
        assert r in Revisions(t, id);
        var i :| 0 <= i < |Revisions(t, id)| && Revisions(t, id)[i] == r;
        assert GoodEntry(rows, i, DecodedBase(t, id).value, HeadBefore(t, a));
      }
    }
  }

  /** The delta rows with the one an append adds, if it adds one. */
  function RowsWith(entries: seq<ScanEntry>, o: Observed, a: AppendRequest): seq<ScanEntry>
    requires o.revision < U64_MAX
  {
    if a.delta.Some? then entries + [ScanEntry(o.revision + 1, DeltaRow(StampedDelta(o, a)))] else entries
  }

  lemma RowsAfterAppend(t: Tables, a: AppendRequest)
    requires AppendApplies(t, a) && SoundJournal(t, a.head.corpus.id)
    ensures var id := a.head.corpus.id;
            var o := Seen(t, id, a.condition);
            DeltaRows(AfterAppend(t, a), id) == RowsWith(DeltaRows(t, id), o, a)
  {
    var id := a.head.corpus.id;
    var t' := AfterAppend(t, a);
    var next: U64 := Seen(t, id, a.condition).revision + 1;
    DeltasBelow(t, a);
    forall r: U64 | a.delta.None? || r != next ensures SameDeltaRow(t, t', id, r) {
      AppendLeavesDelta(t, a, r);
    }
    if a.delta.Some? {
      AppendedDelta(t, a);
      RowsSnoc(t, t', id, next);
    } else {
      RowsUnchanged(t, t', id);
    }
  }

  lemma DeltasBelow(t: Tables, a: AppendRequest)
    requires AppendApplies(t, a) && SoundJournal(t, a.head.corpus.id)
    ensures forall r: U64 :: DeltaKey(a.head.corpus.id, r) in t.journal ==> r < Seen(t, a.head.corpus.id, a.condition).revision + 1
  {
    HeadBeforeIsObserved(t, a);
    RowsBeforeAppend(t, a);
  }

  lemma AppendLeavesDelta(t: Tables, a: AppendRequest, r: U64)
    requires AppendApplies(t, a) && (a.delta.None? || r != Seen(t, a.head.corpus.id, a.condition).revision + 1)
    ensures SameDeltaRow(t, AfterAppend(t, a), a.head.corpus.id, r)
  {
  }

  lemma AppendedDelta(t: Tables, a: AppendRequest)
    requires AppendApplies(t, a) && a.delta.Some?
    ensures var (id, o) := (a.head.corpus.id, Seen(t, a.head.corpus.id, a.condition));
            && DeltaKey(id, o.revision + 1) in AfterAppend(t, a).journal
            && AfterAppend(t, a).journal[DeltaKey(id, o.revision + 1)] == DeltaRow(StampedDelta(o, a))
  {
  }

  lemma BlockedAfterAppend(t: Tables, a: AppendRequest)
    requires AppendApplies(t, a) && SoundJournal(t, a.head.corpus.id)
    requires DecodedBase(t, a.head.corpus.id).value.generation == a.condition.generation
    ensures var o := Seen(t, a.head.corpus.id, a.condition);
            BlockedAgrees(AfterAppend(t, a), a.head.corpus.id, StampedHead(o, a)) <==>
            (a.blocked.Some? ==> BlockedRowBytes(StampedBlocked(o, a)) <= MAX_BLOCKED_ROW_BYTES)
  {
    HeadBeforeIsObserved(t, a);
    RowsBeforeAppend(t, a);
  }

  /** The head an append leaves follows the head it was built on. */
  lemma HeadFollows(t: Tables, a: AppendRequest)
    requires AppendApplies(t, a) && SoundJournal(t, a.head.corpus.id) && Truthful(t, a)
    requires DecodedBase(t, a.head.corpus.id).value.generation == a.condition.generation
    ensures var o := Seen(t, a.head.corpus.id, a.condition);
            var h, h' := HeadBefore(t, a), StampedHead(o, a);
            && Succeeds(h, h')
            && if a.delta.Some?
               then StampedBetween(h, StampedDelta(o, a), h') && h'.deltaCount == h.deltaCount + 1
                    && h'.deltaPayloadBytes == h.deltaPayloadBytes + |StampedDelta(o, a).payload|
               else h'.deltaCount == h.deltaCount && h'.deltaPayloadBytes == h.deltaPayloadBytes
                    && h'.eventCursor == h.eventCursor && h'.leafCursor == h.leafCursor
                    && h'.corpus.tipRoot == h.corpus.tipRoot
                    && (CoverageAfter(h') == h'.revision <==> a.blocked.Some?)
  {
    HeadBeforeIsObserved(t, a);
  }

  lemma DeltaRowsAgree(t: Tables, a: AppendRequest)
    requires AppendApplies(t, a) && SoundJournal(t, a.head.corpus.id) && Truthful(t, a) && a.delta.Some?
    requires DecodedBase(t, a.head.corpus.id).value.generation == a.condition.generation
    ensures var id := a.head.corpus.id;
            var o := Seen(t, id, a.condition);
            RowsAgree(DeltaRows(AfterAppend(t, a), id), DecodedBase(t, id).value, StampedHead(o, a)) <==> DeltaSound(o, a)
  {
    var id := a.head.corpus.id;
    var o := Seen(t, id, a.condition);
    assert RowsAgree(DeltaRows(t, id), DecodedBase(t, id).value, HeadBefore(t, a)) by { RowsBeforeAppend(t, a); }
    RowsAfterAppend(t, a);
    HeadFollows(t, a);
    SnocAgrees(DeltaRows(t, id), DecodedBase(t, id).value, HeadBefore(t, a), StampedDelta(o, a), StampedHead(o, a));
  }

  lemma OtherRowsAgree(t: Tables, a: AppendRequest)
    requires AppendApplies(t, a) && SoundJournal(t, a.head.corpus.id) && Truthful(t, a) && a.delta.None?
    requires DecodedBase(t, a.head.corpus.id).value.generation == a.condition.generation
    ensures var id := a.head.corpus.id;
            var o := Seen(t, id, a.condition);
            RowsAgree(DeltaRows(AfterAppend(t, a), id), DecodedBase(t, id).value, StampedHead(o, a)) <==> a.blocked.Some?
  {
    var id := a.head.corpus.id;
    var o := Seen(t, id, a.condition);
    assert RowsAgree(DeltaRows(t, id), DecodedBase(t, id).value, HeadBefore(t, a)) by { RowsBeforeAppend(t, a); }
    RowsAfterAppend(t, a);
    HeadFollows(t, a);
    NoDeltaAgrees(DeltaRows(t, id), DecodedBase(t, id).value, HeadBefore(t, a), StampedHead(o, a));
  }

  lemma UntruthfulRowsDisagree(t: Tables, a: AppendRequest)
    requires AppendApplies(t, a) && SoundJournal(t, a.head.corpus.id) && !Truthful(t, a)
    requires DecodedBase(t, a.head.corpus.id).value.generation == a.condition.generation
    ensures var id := a.head.corpus.id;
            !RowsAgree(DeltaRows(AfterAppend(t, a), id), DecodedBase(t, id).value, StampedHead(Seen(t, id, a.condition), a))
  {
    var id := a.head.corpus.id;
    var base := DecodedBase(t, id).value;
    var h' := StampedHead(Seen(t, id, a.condition), a);
    RowsBeforeAppend(t, a);
    RowsAfterAppend(t, a);
    var rows' := DeltaRows(AfterAppend(t, a), id);
    if a.delta.Some? {
      assert !GoodEntry(rows', 0, base, h');
    } else {
      assert !EndsAtHead(base, Previous(rows', |rows'|), h');
    }
  }

  lemma RowsAgreeAfterAppend(t: Tables, a: AppendRequest)
    requires AppendApplies(t, a) && SoundJournal(t, a.head.corpus.id)
    requires DecodedBase(t, a.head.corpus.id).value.generation == a.condition.generation
    ensures var id := a.head.corpus.id;
            var o := Seen(t, id, a.condition);
            RowsAgree(DeltaRows(AfterAppend(t, a), id), DecodedBase(t, id).value, StampedHead(o, a)) <==>
            Truthful(t, a) && (a.delta.Some? || a.blocked.Some?) && DeltaSound(o, a)
  {
    if !Truthful(t, a) {
      UntruthfulRowsDisagree(t, a);
    } else if a.delta.Some? {
      DeltaRowsAgree(t, a);
    } else {
      OtherRowsAgree(t, a);
    }
  }

  /** Writers and auditor agree on one append: after an append that commits on a
      sound journal, the journal is sound exactly when the append was admissible. */
  lemma AppendAgreesExactly(t: Tables, a: AppendRequest)
    requires AppendApplies(t, a) && SoundJournal(t, a.head.corpus.id)
    ensures SoundJournal(AfterAppend(t, a), a.head.corpus.id) <==> AppendAdmissible(t, a)
  {
    var id := a.head.corpus.id;
    var o := Seen(t, id, a.condition);
    var t' := AfterAppend(t, a);
    var h' := StampedHead(o, a);
    AppendHeadIsValid(t, a);
    HeadBeforeIsObserved(t, a);
    assert t'.journal[HeadKey(id)] == HeadRow(h');
    assert DecodedBase(t', id) == DecodedBase(t, id);
    if DecodedBase(t, id).value.generation == a.condition.generation {
      BlockedAfterAppend(t, a);
      RowsAgreeAfterAppend(t, a);
      assert Keccak(DecodedBase(t, id).value.payload) == h'.basePayloadHash;
    }
  }

  // ---- Rebase ----

  /** A rebase repairs any journal, however corrupt: the result is sound exactly
      when the new head row is small enough to be read back. */
  lemma RebaseAgreesExactly(t: Tables, q: RebaseRequest)
    requires RebaseApplies(t, q)
    ensures SoundJournal(AfterRebase(t, q), q.base.id)
       <==> HeadRowBytes(RebasedHead(Seen(t, q.base.id, q.condition), q)) <= MAX_HEAD_ROW_BYTES
  {
    var id := q.base.id;
    var t' := AfterRebase(t, q);
    var h := RebasedHead(Seen(t, id, q.condition), q);
    assert t'.journal[HeadKey(id)] == HeadRow(h);
    assert forall r: U64 :: DeltaKey(id, r) !in t'.journal;
    var rows := DeltaRows(t', id);
    assert rows == [];
    assert RowsAgree(rows, RebasedBase(q), h);
  }

  /** The token of a corrupt inspection always opens the way to a repair. */
  lemma CorruptTokenIsAccepted(t: Tables, q: RebaseRequest)
    requires !SoundJournal(t, q.base.id)
    requires q.condition.state == CorruptState(TokenOf(t, q.base.id))
    requires ConflictWith(t, q.condition).None?
    requires q.eventCursor > 0 && q.base.tipIndex == q.eventCursor - 1
    requires TokenOf(t, q.base.id).revision < U64_MAX
    ensures RebaseApplies(t, q)
    ensures ReadableHead(AfterRebase(t, q), q.base.id).Some? ==> SoundJournal(AfterRebase(t, q), q.base.id)
  {
    RebaseAgreesExactly(t, q);
  }

  // ---- Putting a base ----

  /** The new base has the generation, payload hash and tip of the stored one. */
  predicate SameFoundation(base: BaseRecord, base': BaseRecord) {
    && base'.generation == base.generation
    && Keccak(base'.payload) == Keccak(base.payload)
    && SaturatingSucc(base'.tipIndex) == SaturatingSucc(base.tipIndex)
    && base'.tipRoot == base.tipRoot
  }

  lemma RowsOverBase(rows: seq<ScanEntry>, base: BaseRecord, base': BaseRecord, h: HeadRecord)
    requires RowsAgree(rows, base, h)
    ensures RowsAgree(rows, base', h)
        <==> SaturatingSucc(base'.tipIndex) == SaturatingSucc(base.tipIndex) && base'.tipRoot == base.tipRoot
  {
    if rows != [] {
      assert GoodEntry(rows, 0, base, h);
      assert GoodEntry(rows, 0, base', h)
        <==> SaturatingSucc(base'.tipIndex) == SaturatingSucc(base.tipIndex) && base'.tipRoot == base.tipRoot;
      assert forall i :: 0 < i < |rows| ==> GoodEntry(rows, i, base, h) && GoodEntry(rows, i, base', h);
    }
  }

  function AfterPut(t: Tables, r: BaseRecord, now: U64): Tables {
    t.(bases := t.bases[r.id := StoredBase(r.(updatedAt := now))])
  }

  /** Putting a base under a sound journal keeps it sound exactly when there are no
      journal rows or the foundation is the same. */
  lemma PutAgreesExactly(t: Tables, r: BaseRecord, now: U64)
    requires SoundJournal(t, r.id)
    ensures SoundJournal(AfterPut(t, r, now), r.id)
        <==> !HasJournalRows(t, r.id) || SameFoundation(DecodedBase(t, r.id).value, r)
  {
    var t' := AfterPut(t, r, now);
    assert HeadKey(r.id) in t.journal ==> HasJournalRows(t, r.id);
    if HeadKey(r.id) in t.journal {
      assert forall k: U64 :: SameDeltaRow(t, t', r.id, k);
      RowsUnchanged(t, t', r.id);
      RowsOverBase(DeltaRows(t, r.id), DecodedBase(t, r.id).value, r.(updatedAt := now), ReadableHead(t, r.id).value);
    }
  }

  // ---- Runs ----

  datatype Op =
    | Append(append: AppendRequest)
    | Rebase(rebase: RebaseRequest)
    | Clear
    | PutBase(record: BaseRecord, now: U64)
    | Advance(publisher: Word, sequence: U64)
    | ObserveV4(publisher: Word, sequence: U64, hash: Word)

  /** Whether the operation changes the tables; otherwise it leaves them alone. */
  predicate Applies(t: Tables, op: Op) {
    match op
    case Append(a) => AppendApplies(t, a)
    case Rebase(q) => RebaseApplies(t, q)
    case Clear => t.generation < U64_MAX
    case PutBase(_, _) => true
    case Advance(p, n) => AdvancesWatermark(t, p, n)
    case ObserveV4(p, n, h) => AcceptsManifest(t, p, n, h)
  }

  function Step(t: Tables, op: Op): Tables {
    if !Applies(t, op) then t else
    match op
    case Append(a) => AfterAppend(t, a)
    case Rebase(q) => AfterRebase(t, q)
    case Clear => AfterClear(t)
    case PutBase(r, now) => AfterPut(t, r, now)
    case Advance(p, n) => t.(watermarks := t.watermarks[p := Watermark(n, None)])
    case ObserveV4(p, n, h) => t.(watermarks := t.watermarks[p := Watermark(n, Some(h))])
  }

  predicate StepAt(states: seq<Tables>, ops: seq<Op>, i: nat)
    requires i < |ops| && |states| == |ops| + 1
  {
    states[i + 1] == Step(states[i], ops[i])
  }

  predicate IsRun(states: seq<Tables>, ops: seq<Op>) {
    && |states| == |ops| + 1
    && forall i :: 0 <= i < |ops| ==> StepAt(states, ops, i)
  }

  // ---- Agreement over runs ----

  ghost predicate AllSound(t: Tables) {
    forall id :: NotCorrupt(t, id)
  }

  /** The auditor's verdict on the corpus is Missing or Valid. */
  predicate NotCorrupt(t: Tables, id: CorpusId) {
    MissingCorpus(t, id) || SoundJournal(t, id)
  }

  predicate OpAdmissible(t: Tables, op: Op) {
    match op
    case Append(a) =>
      AppendApplies(t, a) ==> DecodedBase(t, a.head.corpus.id).Some? && AppendAdmissible(t, a)
    case Rebase(q) =>
      RebaseApplies(t, q) ==>
        HeadRowBytes(RebasedHead(Seen(t, q.base.id, q.condition), q)) <= MAX_HEAD_ROW_BYTES
    case PutBase(r, _) =>
      HasJournalRows(t, r.id) ==> DecodedBase(t, r.id).Some? && SameFoundation(DecodedBase(t, r.id).value, r)
    case _ => true
  }

  predicate SameCorpus(t: Tables, t': Tables, id: CorpusId) {
    && (id in t.bases <==> id in t'.bases)
    && (id in t.bases ==> t.bases[id] == t'.bases[id])
    && (forall k :: k in t.journal && k.id == id ==> k in t'.journal && t'.journal[k] == t.journal[k])
    && (forall k :: k in t'.journal && k.id == id ==> k in t.journal)
  }

  lemma SameCorpusSameReads(t: Tables, t': Tables, id: CorpusId)
    requires SameCorpus(t, t', id)
    ensures HasJournalRows(t, id) <==> HasJournalRows(t', id)
    ensures HeadKey(id) in t.journal <==> HeadKey(id) in t'.journal
    ensures DecodedBase(t, id) == DecodedBase(t', id) && ReadableHead(t, id) == ReadableHead(t', id)
    ensures DeltaRows(t, id) == DeltaRows(t', id)
    ensures forall h :: BlockedAgrees(t, id, h) <==> BlockedAgrees(t', id, h)
  {
    assert HeadKey(id).id == id && BlockedKey(id).id == id;
    forall r: U64 ensures SameDeltaRow(t, t', id, r) {
      assert DeltaKey(id, r).id == id;
    }
    RowsUnchanged(t, t', id);
  }

  lemma SameCorpusSameVerdict(t: Tables, t': Tables, id: CorpusId)
    requires SameCorpus(t, t', id)
    ensures NotCorrupt(t, id) <==> NotCorrupt(t', id)
  {
    SameCorpusSameReads(t, t', id);
  }

  lemma OtherCorporaUntouched(t: Tables, op: Op, id: CorpusId)
    requires op.Append? ==> op.append.head.corpus.id != id
    requires op.Rebase? ==> op.rebase.base.id != id
    requires op.PutBase? ==> op.record.id != id
    requires !op.Clear?
    ensures SameCorpus(t, Step(t, op), id)
  {
  }

  lemma StepKeepsSound(t: Tables, op: Op, id: CorpusId)
    requires AllSound(t) && OpAdmissible(t, op)
    ensures NotCorrupt(Step(t, op), id)
  {
    var t' := Step(t, op);
    assert NotCorrupt(t, id);
    if !Applies(t, op) || op.Clear? {
    } else if op.Append? && op.append.head.corpus.id == id {
      assert id in t.bases;
      AppendAgreesExactly(t, op.append);
    } else if op.Rebase? && op.rebase.base.id == id {
      RebaseAgreesExactly(t, op.rebase);
    } else if op.PutBase? && op.record.id == id {
      PutOverSound(t, op.record, op.now);
    } else {
      OtherCorporaUntouched(t, op, id);
      SameCorpusSameVerdict(t, t', id);
    }
  }

  lemma PutOverSound(t: Tables, r: BaseRecord, now: U64)
    requires NotCorrupt(t, r.id)
    ensures NotCorrupt(AfterPut(t, r, now), r.id) <==> OpAdmissible(t, PutBase(r, now))
  {
    if SoundJournal(t, r.id) {
      PutAgreesExactly(t, r, now);
    } else {
      assert AfterPut(t, r, now).journal == t.journal;
      assert HeadKey(r.id) in t.journal ==> HasJournalRows(t, r.id);
    }
  }

  /** An operation that is not admissible leaves its corpus corrupt. */
  lemma StepBreaksSound(t: Tables, op: Op)
    requires AllSound(t) && !OpAdmissible(t, op)
    ensures !AllSound(Step(t, op))
  {
    var id := if op.PutBase? then op.record.id else CommitId(op);
    assert NotCorrupt(t, id);
    match op
    case Append(a) =>
      assert HeadKey(id) in t.journal ==> HasJournalRows(t, id);
      AppendAgreesExactly(t, a);
      assert id in Step(t, op).bases && !NotCorrupt(Step(t, op), id);
    case Rebase(q) =>
      RebaseAgreesExactly(t, q);
      assert id in Step(t, op).bases && !NotCorrupt(Step(t, op), id);
    case PutBase(r, now) =>
      PutOverSound(t, r, now);
      assert !NotCorrupt(Step(t, op), id);
  }

  /** Writers and auditor agree on every operation: from sound tables the auditor
      reports corruption afterwards exactly when the operation was not admissible. */
  lemma StepAgreesExactly(t: Tables, op: Op)
    requires AllSound(t)
    ensures AllSound(Step(t, op)) <==> OpAdmissible(t, op)
  {
    if OpAdmissible(t, op) {
      forall id ensures NotCorrupt(Step(t, op), id) {
        StepKeepsSound(t, op, id);
      }
    } else {
      StepBreaksSound(t, op);
    }
  }

  /** Writers and auditor agree over every run: from sound tables, through any
      sequence of admissible operations, the auditor never reports corruption. */
  lemma {:induction false} AgreementOverRun(states: seq<Tables>, ops: seq<Op>)
    requires IsRun(states, ops) && AllSound(states[0])
    requires forall i :: 0 <= i < |ops| ==> OpAdmissible(states[i], ops[i])
    ensures forall i :: 0 <= i < |states| ==> AllSound(states[i])
  {
    if ops != [] {
      var n := |ops| - 1;
      var before, done := states[..n + 1], ops[..n];
      forall i | 0 <= i < n ensures StepAt(before, done, i) {
        assert StepAt(states, ops, i);
      }
      AgreementOverRun(before, done);
      assert AllSound(before[n]) && StepAt(states, ops, n);
      StepAgreesExactly(states[n], ops[n]);
      forall i | 0 <= i < |states| ensures AllSound(states[i]) {
        if i <= n { assert states[..n + 1][i] == states[i]; }
      }
    }
  }

  // ---- Runs from empty tables ----

  /** Readable heads carry the current generation. */
  ghost predicate HeadsAreCurrent(t: Tables) {
    forall id :: HeadIsCurrent(t, id)
  }

  predicate HeadIsCurrent(t: Tables, id: CorpusId) {
    ReadableHead(t, id).Some? ==> ReadableHead(t, id).value.corpus.generation == t.generation
  }

  lemma StepKeepsHeadsCurrent(t: Tables, op: Op)
    requires HeadsAreCurrent(t)
    ensures HeadsAreCurrent(Step(t, op))
  {
    forall id ensures HeadIsCurrent(Step(t, op), id) {
      assert HeadIsCurrent(t, id);
    }
  }

  /** What callers must know when the tables started out empty: as before, but the
      generation of the base only where no head vouches for it. */
  predicate CallerAdmissible(t: Tables, op: Op) {
    if op.Append? && AppendApplies(t, op.append) && op.append.condition.state.ExpectedHead?
    then var a := op.append;
         var o := Seen(t, a.head.corpus.id, a.condition);
         && (a.delta.Some? || a.blocked.Some?)
         && DeltaSound(o, a)
         && (a.blocked.Some? ==> BlockedRowBytes(StampedBlocked(o, a)) <= MAX_BLOCKED_ROW_BYTES)
         && HeadRowBytes(StampedHead(o, a)) <= MAX_HEAD_ROW_BYTES
    else OpAdmissible(t, op)
  }

  lemma CallerIsAdmissible(t: Tables, op: Op)
    requires AllSound(t) && HeadsAreCurrent(t)
    ensures CallerAdmissible(t, op) <==> OpAdmissible(t, op)
  {
    if op.Append? && AppendApplies(t, op.append) && op.append.condition.state.ExpectedHead? {
      var id := op.append.head.corpus.id;
      assert HeadIsCurrent(t, id) && NotCorrupt(t, id);
      assert HeadKey(id) in t.journal && HasJournalRows(t, id);
    }
  }

  /** Over every run from empty tables the auditor reports corruption first after the
      first operation whose caller did not meet the conditions: never before. */
  lemma {:induction false} AgreementFromEmpty(states: seq<Tables>, ops: seq<Op>, n: nat)
    requires IsRun(states, ops) && states[0].bases == map[] && states[0].journal == map[] && n <= |ops|
    requires forall i :: 0 <= i < n ==> CallerAdmissible(states[i], ops[i])
    ensures AllSound(states[n]) && HeadsAreCurrent(states[n])
    ensures n < |ops| ==> (AllSound(states[n + 1]) <==> CallerAdmissible(states[n], ops[n]))
    decreases n
  {
    if n > 0 {
      AgreementFromEmpty(states, ops, n - 1);
      assert StepAt(states, ops, n - 1);
      StepKeepsHeadsCurrent(states[n - 1], ops[n - 1]);
    } else {
      assert forall id :: NotCorrupt(states[0], id) && HeadIsCurrent(states[0], id);
    }
    if n < |ops| {
      assert StepAt(states, ops, n);
      CallerIsAdmissible(states[n], ops[n]);
      StepAgreesExactly(states[n], ops[n]);
    }
  }

  // ---- Commits ----

  function CommitId(op: Op): CorpusId
    requires op.Append? || op.Rebase?
  {
    if op.Append? then op.append.head.corpus.id else op.rebase.base.id
  }

  function CommitCondition(op: Op): Condition
    requires op.Append? || op.Rebase?
  {
    if op.Append? then op.append.condition else op.rebase.condition
  }

  predicate Commits(t: Tables, op: Op) {
    (op.Append? || op.Rebase?) && Applies(t, op)
  }

  // ---- Publisher manifests ----

  /** `w'` may follow `w`: sequences never fall, and a recorded hash is never
      replaced at the same sequence. */
  predicate Follows(w: Watermark, w': Watermark) {
    w.sequence < w'.sequence
    || (w.sequence == w'.sequence && (w.manifestHash.None? || w'.manifestHash == w.manifestHash))
  }

  /** An accepted v4 observation, or a commit that names a publisher together with
      a manifest hash, vouches for that manifest. */
  predicate Vouches(t: Tables, op: Op, publisher: Word, sequence: U64, hash: Word) {
    || (op == ObserveV4(publisher, sequence, hash) && Applies(t, op))
    || (Commits(t, op)
        && CommitCondition(op).publisher == Some((publisher, sequence))
        && CommitCondition(op).manifestHash == Some(hash))
  }

  lemma VouchingRecordsManifest(t: Tables, op: Op, p: Word, n: U64, h: Word)
    requires Vouches(t, op, p, n, h)
    ensures p in Step(t, op).watermarks && Step(t, op).watermarks[p] == Watermark(n, Some(h))
    ensures p in t.watermarks ==> Follows(t.watermarks[p], Watermark(n, Some(h)))
  {
  }

  lemma {:induction false} WatermarksFollow(states: seq<Tables>, ops: seq<Op>, p: Word, i: nat, j: nat)
    requires IsRun(states, ops) && i <= j <= |ops| && p in states[i].watermarks
    ensures p in states[j].watermarks && Follows(states[i].watermarks[p], states[j].watermarks[p])
    decreases j
  {
    if i < j {
      WatermarksFollow(states, ops, p, i, j - 1);
      var t, op := states[j - 1], ops[j - 1];
      assert StepAt(states, ops, j - 1);
      assert p in Step(t, op).watermarks && Follows(t.watermarks[p], Step(t, op).watermarks[p]);
    }
  }

  /** Over any run, the manifests vouched for under one publisher have nondecreasing
      sequences, and one hash per sequence. */
  lemma ManifestsNeverEquivocate(
    states: seq<Tables>, ops: seq<Op>, i: nat, j: nat, p: Word, n: U64, h: Word, n': U64, h': Word)
    requires IsRun(states, ops) && i < j < |ops|
    requires Vouches(states[i], ops[i], p, n, h)
    requires Vouches(states[j], ops[j], p, n', h')
    ensures n <= n' && (n == n' ==> h == h')
  {
    assert StepAt(states, ops, i) && StepAt(states, ops, j);
    VouchingRecordsManifest(states[i], ops[i], p, n, h);
    WatermarksFollow(states, ops, p, i + 1, j);
    VouchingRecordsManifest(states[j], ops[j], p, n', h');
  }
}
