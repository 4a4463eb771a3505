/** What the audit accepts, said over the stored rows: a base, a chain of deltas that leads
    from it to the head, and the snapshot the head names. */
module JournalAudit {
  import opened Common
  import opened JournalExact
  import opened JournalModel
  import opened OrderedSets

  // ---- Rows ----

  predicate HoldsBase(t: Tables, id: CorpusId, base: BaseRecord) {
    id in t.bases && t.bases[id] == StoredBase(base) && base.id == id
  }

  /** The stored deltas of the corpus are these, each under its own revision. */
  ghost predicate HoldsDeltas(t: Tables, id: CorpusId, ds: seq<DeltaRecord>) {
    && (forall i, j :: 0 <= i < j < |ds| ==> ds[i].revision < ds[j].revision)
    && (forall i :: 0 <= i < |ds| ==>
          DeltaKey(id, ds[i].revision) in t.journal && t.journal[DeltaKey(id, ds[i].revision)] == DeltaRow(ds[i]))
    && (forall r: U64 :: DeltaKey(id, r) in t.journal ==> HasRevision(ds, r))
  }

  predicate HasRevision(ds: seq<DeltaRecord>, r: U64) {
    exists i :: 0 <= i < |ds| && ds[i].revision == r
  }

  /** A delta of the head's corpus, generation and base, after the base and up to the head,
      that follows the revision before it, runs forward and is not too large to read. */
  predicate BelongsTo(d: DeltaRecord, h: HeadRecord) {
    && d.formatVersion == 1 && d.id == h.corpus.id && d.generation == h.corpus.generation
    && d.baseRevision == h.baseRevision && h.baseRevision < d.revision && d.revision <= h.revision
    && d.previousRevision == d.revision - 1
    && d.eventStart <= d.eventEnd && d.leafStart <= d.leafEnd
    && DeltaRowBytes(d) <= 33_619_968
  }

  /** Each delta starts where the one before it ended, the first at the tip of the base. */
  predicate IsChain(base: BaseRecord, ds: seq<DeltaRecord>) {
    forall i :: 0 <= i < |ds| ==> StartsAfter(base, ds, i)
  }

  predicate StartsAfter(base: BaseRecord, ds: seq<DeltaRecord>, i: nat)
    requires i < |ds|
  {
    if i == 0 then ds[0].eventStart == SaturatingSucc(base.tipIndex) && ds[0].startRoot == base.tipRoot
    else
      && ds[i].eventStart == ds[i - 1].eventEnd && ds[i].leafStart == ds[i - 1].leafEnd
      && ds[i].startRoot == ds[i - 1].endRoot
  }

  /** The chain ends at the head; without deltas the base does. */
  predicate EndsThere(base: BaseRecord, ds: seq<DeltaRecord>, h: HeadRecord) {
    if ds == [] then h.eventCursor == SaturatingSucc(base.tipIndex) && h.corpus.tipRoot == base.tipRoot
    else
      var d := ds[|ds| - 1];
      h.eventCursor == d.eventEnd && h.leafCursor == d.leafEnd && h.corpus.tipRoot == d.endRoot
  }

  function TotalPayload(ds: seq<DeltaRecord>): nat {
    if ds == [] then 0 else TotalPayload(ds[..|ds| - 1]) + |ds[|ds| - 1].payload|
  }

  /** Every revision after the snapshot, or after the base without one, has a delta. */
  ghost predicate Uninterrupted(ds: seq<DeltaRecord>, h: HeadRecord) {
    forall r: U64 :: (if h.blockedRevision.Some? then h.blockedRevision.value else h.baseRevision) < r <= h.revision ==>
      HasRevision(ds, r)
  }

  /** The snapshot row is there exactly when the head names it, at that revision, with
      payload and hash that match each other and the head. */
  predicate HoldsSnapshot(t: Tables, id: CorpusId, h: HeadRecord) {
    if h.blockedRevision.None? then BlockedKey(id) !in t.journal
    else
      && BlockedKey(id) in t.journal && t.journal[BlockedKey(id)].BlockedRow?
      && var b := t.journal[BlockedKey(id)].blocked;
      && b.formatVersion == 1 && b.id == h.corpus.id && b.generation == h.corpus.generation
      && Some(b.revision) == h.blockedRevision && h.baseRevision < b.revision && b.revision <= h.revision
      && Keccak(b.payload) == b.payloadHash && Some(b.payloadHash) == h.blockedPayloadHash
      && |b.payload| <= 4_194_304 && BlockedRowBytes(b) <= 4_259_840
  }

  // ---- The whole journal ----

  ghost predicate LeadsTo(t: Tables, id: CorpusId, base: BaseRecord, ds: seq<DeltaRecord>, h: HeadRecord) {
    && HoldsBase(t, id, base) && HoldsHead(t, id, h) && HoldsDeltas(t, id, ds) && HoldsSnapshot(t, id, h)
    && base.generation == h.corpus.generation && Keccak(base.payload) == h.basePayloadHash
    && AllBelong(ds, h) && IsChain(base, ds) && EndsThere(base, ds, h)
    && |ds| == h.deltaCount && TotalPayload(ds) == h.deltaPayloadBytes && Uninterrupted(ds, h)
  }

  /** A base alone, or a base with a chain of deltas that leads to its head. */
  ghost predicate IsSound(t: Tables, id: CorpusId) {
    || (NoRows(t, id) && exists base :: HoldsBase(t, id, base))
    || exists base, ds, h :: LeadsTo(t, id, base, ds, h)
  }

  // ---- The scan sees the same deltas ----

  lemma {:induction false} SamePayload(rows: seq<ScanEntry>)
    requires AllDeltas(rows)
    ensures PayloadSum(rows) == TotalPayload(DeltasOf(rows))
    decreases |rows|
  {
    if rows != [] {
      var n := |rows| - 1;
      SamePayload(rows[..n]);
      assert DeltasOf(rows)[..n] == DeltasOf(rows[..n]);
    }
  }

  predicate Lists(rows: seq<ScanEntry>, ds: seq<DeltaRecord>) {
    |rows| == |ds| && forall k :: 0 <= k < |ds| ==> rows[k] == ScanEntry(ds[k].revision, DeltaRow(ds[k]))
  }

  /** The scan lists exactly the stored deltas. */
  lemma ScanListsDeltas(t: Tables, id: CorpusId, ds: seq<DeltaRecord>)
    requires HoldsDeltas(t, id, ds)
    ensures Lists(DeltaRows(t, id), ds)
  {
    var rows := DeltaRows(t, id);
    var revs := seq(|ds|, i requires 0 <= i < |ds| => ds[i].revision);
    forall r: U64 ensures r in Revisions(t, id) <==> r in revs {
      if DeltaKey(id, r) in t.journal {
        var i :| 0 <= i < |ds| && ds[i].revision == r;
        assert revs[i] == r;
      }
      if r in revs {
        var i :| 0 <= i < |revs| && revs[i] == r;
        assert DeltaKey(id, ds[i].revision) in t.journal;
      }
    }
    AscendingUnique(Revisions(t, id), revs);
    assert |rows| == |revs|;
    forall i | 0 <= i < |ds| ensures rows[i] == ScanEntry(ds[i].revision, DeltaRow(ds[i])) {
      assert revs[i] == ds[i].revision;
    }
  }

  lemma {:induction false} AscendingUnique(a: seq<U64>, b: seq<U64>)
    requires StrictlyAscending(a) && StrictlyAscending(b) && forall r: U64 :: r in a <==> r in b
    ensures a == b
    decreases |a|
  {
    assert a != [] ==> a[0] in a;
    assert b != [] ==> b[0] in b;
    if a != [] {
      var i :| 0 <= i < |b| && b[i] == a[0];
      var j :| 0 <= j < |a| && a[j] == b[0];
      assert a[0] == b[0];
      var x, y := a[1..], b[1..];
      forall r: U64 ensures r in x <==> r in y {
        InTail(a, r);
        InTail(b, r);
      }
      AscendingUnique(x, y);
      assert a == [a[0]] + x && b == [b[0]] + y;
    }
  }

  lemma InTail(a: seq<U64>, r: U64)
    requires StrictlyAscending(a) && a != []
    ensures StrictlyAscending(a[1..]) && (r in a[1..] <==> r in a && r != a[0])
  {
    if r in a[1..] {
      var i :| 0 <= i < |a[1..]| && a[1..][i] == r;
      assert a[i + 1] == r;
    }
  }

  lemma EntryExactly(rows: seq<ScanEntry>, ds: seq<DeltaRecord>, base: BaseRecord, h: HeadRecord, i: nat)
    requires Lists(rows, ds) && i < |ds|
    ensures GoodEntry(rows, i, base, h) <==> BelongsTo(ds[i], h) && StartsAfter(base, ds, i)
  {
  }

  lemma StoresExactly(rows: seq<ScanEntry>, ds: seq<DeltaRecord>, r: U64)
    requires Lists(rows, ds)
    ensures StoresRevision(rows, r) <==> HasRevision(ds, r)
  {
    if StoresRevision(rows, r) {
      var i :| 0 <= i < |rows| && rows[i].revision == r;
      assert ds[i].revision == r;
    }
    if HasRevision(ds, r) {
      var i :| 0 <= i < |ds| && ds[i].revision == r;
      assert rows[i].revision == r;
    }
  }

  predicate AllBelong(ds: seq<DeltaRecord>, h: HeadRecord) {
    forall i :: 0 <= i < |ds| ==> BelongsTo(ds[i], h)
  }

  lemma EntriesExactly(rows: seq<ScanEntry>, ds: seq<DeltaRecord>, base: BaseRecord, h: HeadRecord)
    requires Lists(rows, ds)
    ensures (forall i :: 0 <= i < |rows| ==> GoodEntry(rows, i, base, h)) <==> AllBelong(ds, h) && IsChain(base, ds)
  {
    forall i | 0 <= i < |ds| ensures GoodEntry(rows, i, base, h) <==> BelongsTo(ds[i], h) && StartsAfter(base, ds, i) {
      EntryExactly(rows, ds, base, h, i);
    }
  }

  lemma EndExactly(rows: seq<ScanEntry>, ds: seq<DeltaRecord>, base: BaseRecord, h: HeadRecord)
    requires Lists(rows, ds)
    ensures EndsAtHead(base, Previous(rows, |rows|), h) <==> EndsThere(base, ds, h)
  {
  }

  lemma CoverageExactly(rows: seq<ScanEntry>, ds: seq<DeltaRecord>, h: HeadRecord)
    requires Lists(rows, ds)
    ensures CoversSuffix(rows, h) <==> Uninterrupted(ds, h)
  {
    forall r: U64 ensures StoresRevision(rows, r) <==> HasRevision(ds, r) {
      StoresExactly(rows, ds, r);
    }
  }

  lemma SumExactly(rows: seq<ScanEntry>, ds: seq<DeltaRecord>)
    requires Lists(rows, ds)
    ensures AllDeltas(rows) && PayloadSum(rows) == TotalPayload(ds)
  {
    SamePayload(rows);
    assert DeltasOf(rows) == ds;
  }

  lemma RowsExactly(t: Tables, id: CorpusId, ds: seq<DeltaRecord>, base: BaseRecord, h: HeadRecord)
    requires HoldsDeltas(t, id, ds)
    ensures RowsAgree(DeltaRows(t, id), base, h) <==>
      && AllBelong(ds, h) && IsChain(base, ds) && EndsThere(base, ds, h)
      && |ds| == h.deltaCount && TotalPayload(ds) == h.deltaPayloadBytes && Uninterrupted(ds, h)
  {
    ScanListsDeltas(t, id, ds);
    ListedExactly(DeltaRows(t, id), ds, base, h);
  }

  lemma ListedExactly(rows: seq<ScanEntry>, ds: seq<DeltaRecord>, base: BaseRecord, h: HeadRecord)
    requires Lists(rows, ds)
    ensures RowsAgree(rows, base, h) <==>
      && AllBelong(ds, h) && IsChain(base, ds) && EndsThere(base, ds, h)
      && |ds| == h.deltaCount && TotalPayload(ds) == h.deltaPayloadBytes && Uninterrupted(ds, h)
  {
    SumExactly(rows, ds);
    EntriesExactly(rows, ds, base, h);
    EndExactly(rows, ds, base, h);
    CoverageExactly(rows, ds, h);
  }

  /** What the scan accepts is held as deltas. */
  lemma ScannedAreHeld(t: Tables, id: CorpusId, base: BaseRecord, h: HeadRecord) returns (ds: seq<DeltaRecord>)
    requires RowsAgree(DeltaRows(t, id), base, h)
    ensures ds == DeltasOf(DeltaRows(t, id)) && HoldsDeltas(t, id, ds)
  {
    var rows := DeltaRows(t, id);
    ds := DeltasOf(rows);
    forall i | 0 <= i < |ds| ensures ds[i].revision == rows[i].revision {
      assert GoodEntry(rows, i, base, h);
    }
    forall r: U64 | DeltaKey(id, r) in t.journal ensures HasRevision(ds, r) {
      var i :| 0 <= i < |Revisions(t, id)| && Revisions(t, id)[i] == r;
      assert ds[i].revision == r;
    }
  }

  lemma BaseExactly(t: Tables, id: CorpusId, base: BaseRecord)
    ensures DecodedBase(t, id) == Some(base) <==> HoldsBase(t, id, base)
  {
  }

  lemma SnapshotExactly(t: Tables, id: CorpusId, h: HeadRecord)
    requires HoldsHead(t, id, h)
    ensures BlockedAgrees(t, id, h) <==> HoldsSnapshot(t, id, h)
  {
  }

  lemma SoundLeads(t: Tables, id: CorpusId)
    requires SoundJournal(t, id)
    ensures IsSound(t, id)
  {
    var base := DecodedBase(t, id).value;
    BaseExactly(t, id, base);
    NoRowsExactly(t, id);
    if HeadKey(id) in t.journal {
      var h := ReadableHead(t, id).value;
      ReadableExactly(t, id, h);
      SnapshotExactly(t, id, h);
      var ds := ScannedAreHeld(t, id, base, h);
      RowsExactly(t, id, ds, base, h);
      assert LeadsTo(t, id, base, ds, h);
    }
  }

  lemma LeadingIsSound(t: Tables, id: CorpusId, base: BaseRecord, ds: seq<DeltaRecord>, h: HeadRecord)
    requires LeadsTo(t, id, base, ds, h)
    ensures SoundJournal(t, id)
  {
    BaseExactly(t, id, base);
    ReadableExactly(t, id, h);
    SnapshotExactly(t, id, h);
    RowsExactly(t, id, ds, base, h);
  }

  /** The audit accepts exactly a base alone, or a base with a chain of deltas to its head. */
  lemma SoundExactly(t: Tables, id: CorpusId)
    ensures SoundJournal(t, id) <==> IsSound(t, id)
  {
    NoRowsExactly(t, id);
    if SoundJournal(t, id) { SoundLeads(t, id); }
    if NoRows(t, id) && exists base :: HoldsBase(t, id, base) {
      var base :| HoldsBase(t, id, base);
      BaseExactly(t, id, base);
      assert HeadKey(id).id == id;
    } else if IsSound(t, id) {
      var base, ds, h :| LeadsTo(t, id, base, ds, h);
      LeadingIsSound(t, id, base, ds, h);
    }
  }
}
