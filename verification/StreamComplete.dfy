/** A completed stream is not extended, and a sealed chunk is not contradicted: what every
    accepted listing looks like. */
module StreamComplete {
  import opened Common
  import opened OrderedSets
  import opened Sorting
  import opened StreamModel
  import opened StreamPlan
  import opened StreamOrder
  import opened StreamFold
  import opened StreamCoverage
  import opened StreamOverlay
  import opened StreamSafety

  // ---- Where a planner is closed ----

  /** Nothing past the end is accepted any more. */
  predicate ClosedAt(p: Planner, end: U64) {
    p.completeTail.Some? && p.completeTail.value <= end
  }

  /** No chunk on the range is accepted any more. */
  predicate ShutOn(p: Planner, start: U64, end: U64) {
    (start, end) in p.completeRanges
  }

  /** Every complete chunk that is current has closed the planner. */
  predicate CompleteAreClosed(p: Planner) {
    forall x :: x in p.current && x.descriptor.complete ==> ClosedAt(p, x.descriptor.end)
  }

  lemma RemainingAreCurrent(p: Planner, g: U64, start: U64, end: U64, x: Entry)
    requires x in Remaining(p.current, p.current, g, start, end)
    ensures x in p.current
  {
    RemainingIsFilter(p.current, p.current, g, start, end);
  }

  lemma EntryCloses(p: Planner, e: Entry, q: Request)
    requires CompleteAreClosed(p) && AfterEntry(p, e, q).Some?
    ensures var p' := AfterEntry(p, e, q).value;
            CompleteAreClosed(p') && (e.descriptor.complete ==> ClosedAt(p', e.descriptor.end))
  {
    var p' := AfterEntry(p, e, q).value;
    forall x | x in p'.current && x.descriptor.complete ensures ClosedAt(p', x.descriptor.end) {
      if x in Remaining(p.current, p.current, e.generation, e.descriptor.start, e.descriptor.end) {
        RemainingAreCurrent(p, e.generation, e.descriptor.start, e.descriptor.end, x);
      }
    }
    if EntryRepeats(p, e) {
      var x :| x in p.current && Repeats(x, p.current, e);
      assert x.descriptor.complete == e.descriptor.complete && x.descriptor.end == e.descriptor.end;
    }
  }

  lemma EntryRespects(p: Planner, e: Entry, q: Request, start: U64, end: U64)
    requires AfterEntry(p, e, q).Some?
    ensures ClosedAt(p, end) ==> e.descriptor.end <= end && ClosedAt(AfterEntry(p, e, q).value, end)
    ensures ShutOn(p, start, end) ==>
      !(start <= e.descriptor.end && e.descriptor.start <= end) && ShutOn(AfterEntry(p, e, q).value, start, end)
  {
    if ShutOn(p, start, end) {
      var i :| 0 <= i < |p.completeRanges| && p.completeRanges[i] == (start, end);
    }
  }

  lemma CoverageCloses(p: Planner, c: CoverageEntry, q: Request)
    requires CompleteAreClosed(p) && AfterCoverage(p, c, q).Some?
    ensures CompleteAreClosed(AfterCoverage(p, c, q).value)
  {
    var p' := AfterCoverage(p, c, q).value;
    forall x | x in p'.current && x.descriptor.complete ensures ClosedAt(p', x.descriptor.end) {
      RemainingAreCurrent(p, c.generation, c.coverage.start, c.coverage.end, x);
    }
  }

  lemma CoverageRespects(p: Planner, c: CoverageEntry, q: Request, start: U64, end: U64)
    requires AfterCoverage(p, c, q).Some?
    ensures ClosedAt(p, end) ==> c.coverage.end <= end && ClosedAt(AfterCoverage(p, c, q).value, end)
    ensures ShutOn(p, start, end) ==> ShutOn(AfterCoverage(p, c, q).value, start, end)
  {
  }

  // ---- What is listed ----

  /** A listed chunk or catalog. */
  datatype Item = Chunk(entry: Entry) | Catalog(catalog: CoverageEntry) {
    function Generation(): U64 {
      match this case Chunk(e) => e.generation case Catalog(c) => c.generation
    }

    function Start(): U64 {
      match this case Chunk(e) => e.descriptor.start case Catalog(c) => c.coverage.start
    }

    function End(): U64 {
      match this case Chunk(e) => e.descriptor.end case Catalog(c) => c.coverage.end
    }

    /** A chunk marked complete, or a complete catalog without chunks, ends its stream. */
    predicate EndsStream() {
      match this case Chunk(e) => e.descriptor.complete case Catalog(c) => c.emptyCatalog && c.coverage.complete
    }
  }

  predicate Lists(inp: Input, x: Item) {
    match x case Chunk(e) => e in inp.entries case Catalog(c) => c in inp.coverage
  }

  // ---- Runs of entries and of coverage ----

  lemma {:induction false} EntriesRespectEnd(p: Planner, es: seq<Entry>, q: Request, end: U64, i: nat)
    requires ApplyEntries(p, es, q).Some? && ClosedAt(p, end)
    ensures ClosedAt(ApplyEntries(p, es, q).value, end)
    ensures i < |es| ==> es[i].descriptor.end <= end
    decreases |es|
  {
    if es != [] {
      EntryRespects(p, es[0], q, 0, end);
      EntriesRespectEnd(AfterEntry(p, es[0], q).value, es[1..], q, end, if i > 0 then i - 1 else |es|);
    }
  }

  lemma {:induction false} EntriesRespectRange(p: Planner, es: seq<Entry>, q: Request, start: U64, end: U64, i: nat)
    requires ApplyEntries(p, es, q).Some? && ShutOn(p, start, end)
    ensures ShutOn(ApplyEntries(p, es, q).value, start, end)
    ensures i < |es| ==> !(start <= es[i].descriptor.end && es[i].descriptor.start <= end)
    decreases |es|
  {
    if es != [] {
      EntryRespects(p, es[0], q, start, end);
      var p' := AfterEntry(p, es[0], q).value;
      assert ApplyEntries(p, es, q) == ApplyEntries(p', es[1..], q);
      if 0 < i < |es| {
        EntriesRespectRange(p', es[1..], q, start, end, i - 1);
        assert es[1..][i - 1] == es[i];
      } else {
        EntriesRespectRange(p', es[1..], q, start, end, |es|);
      }
    }
  }

  lemma {:induction false} EntriesClose(p: Planner, es: seq<Entry>, q: Request)
    requires CompleteAreClosed(p) && ApplyEntries(p, es, q).Some?
    ensures CompleteAreClosed(ApplyEntries(p, es, q).value)
    decreases |es|
  {
    if es != [] {
      EntryCloses(p, es[0], q);
      EntriesClose(AfterEntry(p, es[0], q).value, es[1..], q);
    }
  }

  lemma {:induction false} EntryClosesRest(p: Planner, es: seq<Entry>, q: Request, i: nat, j: nat)
    requires CompleteAreClosed(p) && ApplyEntries(p, es, q).Some? && i < |es| && es[i].descriptor.complete
    ensures ClosedAt(ApplyEntries(p, es, q).value, es[i].descriptor.end)
    ensures i < j < |es| ==> es[j].descriptor.end <= es[i].descriptor.end
    decreases |es|
  {
    EntryCloses(p, es[0], q);
    var p' := AfterEntry(p, es[0], q).value;
    if i == 0 {
      EntriesRespectEnd(p', es[1..], q, es[0].descriptor.end, if j > 0 then j - 1 else |es|);
    } else {
      EntryClosesRest(p', es[1..], q, i - 1, if j > 0 then j - 1 else 0);
    }
  }

  lemma {:induction false} CoveragesRespect(p: Planner, cs: seq<CoverageEntry>, q: Request, start: U64, end: U64, i: nat)
    requires ApplyCoverages(p, cs, q).Some?
    ensures ClosedAt(p, end) ==> ClosedAt(ApplyCoverages(p, cs, q).value, end) && (i < |cs| ==> cs[i].coverage.end <= end)
    ensures ShutOn(p, start, end) ==> ShutOn(ApplyCoverages(p, cs, q).value, start, end)
    decreases |cs|
  {
    if cs != [] {
      CoverageRespects(p, cs[0], q, start, end);
      CoveragesRespect(AfterCoverage(p, cs[0], q).value, cs[1..], q, start, end, if i > 0 then i - 1 else |cs|);
    }
  }

  lemma {:induction false} CoveragesClose(p: Planner, cs: seq<CoverageEntry>, q: Request)
    requires CompleteAreClosed(p) && ApplyCoverages(p, cs, q).Some?
    ensures CompleteAreClosed(ApplyCoverages(p, cs, q).value)
    decreases |cs|
  {
    if cs != [] {
      CoverageCloses(p, cs[0], q);
      CoveragesClose(AfterCoverage(p, cs[0], q).value, cs[1..], q);
    }
  }

  lemma {:induction false} CoveragesSplit(p: Planner, cs: seq<CoverageEntry>, q: Request, k: nat)
    requires ApplyCoverages(p, cs, q).Some? && k <= |cs|
    ensures ApplyCoverages(p, cs[..k], q).Some?
    ensures ApplyCoverages(ApplyCoverages(p, cs[..k], q).value, cs[k..], q) == ApplyCoverages(p, cs, q)
    decreases k
  {
    if k > 0 {
      CoveragesSplit(AfterCoverage(p, cs[0], q).value, cs[1..], q, k - 1);
      assert cs[..k][1..] == cs[1..][..k - 1] && cs[1..][k - 1..] == cs[k..];
    } else {
      assert cs[0..] == cs;
    }
  }

  /** A complete catalog without chunks closes the stream at its end and shuts its range. */
  lemma EmptyCatalogCloses(p: Planner, c: CoverageEntry, q: Request, log: seq<CoverageEntry>)
    requires AfterCoverage(p, c, q).Some? && c.emptyCatalog && c.coverage.complete
    requires p.coverage == Overlay(log) && Layered(log + [c])
    ensures ClosedAt(AfterCoverage(p, c, q).value, c.coverage.end)
    ensures ShutOn(AfterCoverage(p, c, q).value, c.coverage.start, c.coverage.end)
  {
    assert (log + [c])[..|log|] == log;
    NeverCrowded(log + [c]);
    UncrowdedCloses(p, c, q, CutAround(p.coverage, c));
  }

  lemma UncrowdedCloses(p: Planner, c: CoverageEntry, q: Request, cut: seq<CoverageEntry>)
    requires AfterCoverage(p, c, q).Some? && c.emptyCatalog && c.coverage.complete
    requires cut == CutAround(p.coverage, c) && !Crowded(cut, c)
    ensures ClosedAt(AfterCoverage(p, c, q).value, c.coverage.end)
    ensures ShutOn(AfterCoverage(p, c, q).value, c.coverage.start, c.coverage.end)
  {
    var p' := AfterCoverage(p, c, q).value;
    assert p'.completeTail == LowerTail(p.completeTail, c.coverage.end);
    assert p'.completeRanges == p.completeRanges + [(c.coverage.start, c.coverage.end)];
    LastIsIn(p.completeRanges, (c.coverage.start, c.coverage.end));
  }

  lemma LastIsIn(rs: seq<(U64, U64)>, r: (U64, U64))
    ensures r in rs + [r]
  {
  }

  lemma LayeredFront(log: seq<CoverageEntry>, cs: seq<CoverageEntry>)
    requires Layered(log + cs) && cs != []
    ensures Layered(log + [cs[0]]) && log + cs == log + [cs[0]] + cs[1..]
  {
    var all := log + cs;
    assert log + [cs[0]] == all[..|log| + 1];
  }

  lemma {:induction false} CatalogClosesRest(
    p: Planner, cs: seq<CoverageEntry>, q: Request, log: seq<CoverageEntry>, i: nat)
    requires ApplyCoverages(p, cs, q).Some? && p.coverage == Overlay(log) && Layered(log + cs)
    requires i < |cs| && cs[i].emptyCatalog && cs[i].coverage.complete
    ensures ClosedAt(ApplyCoverages(p, cs, q).value, cs[i].coverage.end)
    ensures ShutOn(ApplyCoverages(p, cs, q).value, cs[i].coverage.start, cs[i].coverage.end)
    decreases |cs|
  {
    LayeredFront(log, cs);
    if i == 0 {
      FirstCatalogCloses(p, cs, q, log);
    } else {
      CoverageStep(p, cs[0], q, log);
      CatalogClosesRest(AfterCoverage(p, cs[0], q).value, cs[1..], q, log + [cs[0]], i - 1);
    }
  }

  lemma LayeredUpTo(log: seq<CoverageEntry>, cs: seq<CoverageEntry>, k: nat)
    requires Layered(log + cs) && k <= |cs|
    ensures Layered(log + cs[..k])
  {
    assert log + cs[..k] == (log + cs)[..|log| + k];
  }

  lemma ClosedEndsRest(p: Planner, cs: seq<CoverageEntry>, q: Request, k: nat, j: nat, end: U64)
    requires ApplyCoverages(p, cs, q).Some? && k <= j < |cs|
    requires ApplyCoverages(p, cs[..k], q).Some? && ClosedAt(ApplyCoverages(p, cs[..k], q).value, end)
    ensures cs[j].coverage.end <= end
  {
    CoveragesSplit(p, cs, q, k);
    CoveragesRespect(ApplyCoverages(p, cs[..k], q).value, cs[k..], q, 0, end, j - k);
  }

  lemma CatalogClosesFront(p: Planner, cs: seq<CoverageEntry>, q: Request, log: seq<CoverageEntry>, i: nat)
    requires ApplyCoverages(p, cs, q).Some? && p.coverage == Overlay(log) && Layered(log + cs)
    requires i < |cs| && cs[i].emptyCatalog && cs[i].coverage.complete
    ensures ApplyCoverages(p, cs[..i + 1], q).Some?
    ensures ClosedAt(ApplyCoverages(p, cs[..i + 1], q).value, cs[i].coverage.end)
  {
    CoveragesSplit(p, cs, q, i + 1);
    LayeredUpTo(log, cs, i + 1);
    CatalogClosesRest(p, cs[..i + 1], q, log, i);
  }

  lemma CatalogEndsRest(
    p: Planner, cs: seq<CoverageEntry>, q: Request, log: seq<CoverageEntry>, i: nat, j: nat)
    requires ApplyCoverages(p, cs, q).Some? && p.coverage == Overlay(log) && Layered(log + cs)
    requires i < j < |cs| && cs[i].emptyCatalog && cs[i].coverage.complete
    ensures cs[j].coverage.end <= cs[i].coverage.end
  {
    CatalogClosesFront(p, cs, q, log, i);
    ClosedEndsRest(p, cs, q, i + 1, j, cs[i].coverage.end);
  }

  lemma FirstCatalogCloses(p: Planner, cs: seq<CoverageEntry>, q: Request, log: seq<CoverageEntry>)
    requires cs != [] && ApplyCoverages(p, cs, q).Some? && p.coverage == Overlay(log) && Layered(log + [cs[0]])
    requires cs[0].emptyCatalog && cs[0].coverage.complete
    ensures ClosedAt(ApplyCoverages(p, cs, q).value, cs[0].coverage.end)
    ensures ShutOn(ApplyCoverages(p, cs, q).value, cs[0].coverage.start, cs[0].coverage.end)
  {
    EmptyCatalogCloses(p, cs[0], q, log);
    CoveragesRespect(AfterCoverage(p, cs[0], q).value, cs[1..], q, cs[0].coverage.start, cs[0].coverage.end, |cs|);
  }

  // ---- One generation ----

  lemma SortedHoldsCoverage(inp: Input, g: U64, c: CoverageEntry) returns (i: nat)
    requires c in inp.coverage && c.generation == g
    ensures i < |SortedCoverage(inp, g)| && SortedCoverage(inp, g)[i] == c
  {
    var cs := SortedCoverage(inp, g);
    SortedHas(CoverageOf(inp.coverage, g), CoverageKey, c);
    i :| 0 <= i < |cs| && cs[i] == c;
  }

  function Marks(inp: Input, g: U64): seq<Entry> {
    MarkFinal(SortedEntries(inp, g), g, inp.boundaries)
  }

  /** Once closed, no later generation goes past the end or, if a catalog shut it, back
      into the range. */
  lemma GenerationRespects(p: Planner, inp: Input, g: U64, q: Request, start: U64, end: U64, x: Item)
    requires AfterGeneration(p, inp, g, q).Some? && (x.Generation() == g ==> Lists(inp, x))
    ensures ClosedAt(p, end) ==> ClosedAt(AfterGeneration(p, inp, g, q).value, end) && (x.Generation() == g ==> x.End() <= end)
    ensures ShutOn(p, start, end) ==>
      && ShutOn(AfterGeneration(p, inp, g, q).value, start, end)
      && (x.Generation() == g && x.Chunk? ==> !(start <= x.End() && x.Start() <= end))
  {
    var i, j := |Marks(inp, g)|, |SortedCoverage(inp, g)|;
    MarkKeepsChunks(SortedEntries(inp, g), g, inp.boundaries);
    if x.Generation() == g {
      match x
      case Chunk(e) => i := SortedHoldsEntry(inp, g, e);
      case Catalog(c) => j := SortedHoldsCoverage(inp, g, c);
    }
    if ClosedAt(p, end) { EntriesRespectEnd(p, Marks(inp, g), q, end, i); }
    if ShutOn(p, start, end) { EntriesRespectRange(p, Marks(inp, g), q, start, end, i); }
    CoveragesRespect(ApplyEntries(p, Marks(inp, g), q).value, SortedCoverage(inp, g), q, start, end, j);
  }

  lemma GenerationKeepsClosing(p: Planner, inp: Input, g: U64, q: Request)
    requires CompleteAreClosed(p) && AfterGeneration(p, inp, g, q).Some?
    ensures CompleteAreClosed(AfterGeneration(p, inp, g, q).value)
  {
    EntriesClose(p, Marks(inp, g), q);
    CoveragesClose(ApplyEntries(p, Marks(inp, g), q).value, SortedCoverage(inp, g), q);
  }

  /** A complete chunk closes the stream within its own generation. */
  lemma ChunkEndsGeneration(p: Planner, inp: Input, q: Request, e: Entry, x: Item)
    requires ValidInput(inp) && CompleteAreClosed(p) && e in inp.entries && e.descriptor.complete
    requires AfterGeneration(p, inp, e.generation, q).Some? && Lists(inp, x) && x.Generation() == e.generation
    ensures ClosedAt(AfterGeneration(p, inp, e.generation, q).value, e.descriptor.end) && x.End() <= e.descriptor.end
  {
    var g := e.generation;
    var es, cs := SortedEntries(inp, g), SortedCoverage(inp, g);
    MarkKeepsChunks(es, g, inp.boundaries);
    var i := SortedHoldsEntry(inp, g, e);
    var j, k := 0, |cs|;
    match x {
      case Chunk(e') => j := SortedHoldsEntry(inp, g, e');
      case Catalog(c) => k := SortedHoldsCoverage(inp, g, c);
    }
    EntryClosesRest(p, Marks(inp, g), q, i, j);
    CoveragesRespect(ApplyEntries(p, Marks(inp, g), q).value, cs, q, 0, e.descriptor.end, k);
    ValidSortedEntries(inp, g);
    SortedStarts(es);
    if j < i { ApartUpTo(es, j, i); }
  }

  /** A complete catalog without chunks closes it for the catalogs of its generation. */
  lemma CatalogEndsGeneration(p: Planner, inp: Input, q: Request, log: seq<CoverageEntry>, c: CoverageEntry, x: Item)
    requires ValidInput(inp) && c in inp.coverage && c.emptyCatalog && c.coverage.complete
    requires AfterGeneration(p, inp, c.generation, q).Some? && Lists(inp, x) && x.Generation() == c.generation
    requires p.coverage == Overlay(log) && Layered(log + SortedCoverage(inp, c.generation))
    ensures ClosedAt(AfterGeneration(p, inp, c.generation, q).value, c.coverage.end)
    ensures ShutOn(AfterGeneration(p, inp, c.generation, q).value, c.coverage.start, c.coverage.end)
    ensures x.Catalog? ==> x.End() <= c.coverage.end
  {
    var g := c.generation;
    var cs := SortedCoverage(inp, g);
    var i := SortedHoldsCoverage(inp, g, c);
    var j := 0;
    if x.Catalog? { j := SortedHoldsCoverage(inp, g, x.catalog); }
    EntriesLeaveCoverage(p, Marks(inp, g), q);
    CatalogClosesRest(ApplyEntries(p, Marks(inp, g), q).value, cs, q, log, i);
    if i < j { CatalogEndsRest(ApplyEntries(p, Marks(inp, g), q).value, cs, q, log, i, j); }
    ValidSortedCoverage(inp, g);
    if j < i { CoverageApartUpTo(cs, j, i); }
  }

  // ---- All generations ----

  /** Once closed, nothing of any later generation goes past the end. */
  lemma {:induction false} GenerationsRespect(
    p: Planner, inp: Input, gens: seq<U64>, q: Request, start: U64, end: U64, x: Item)
    requires AfterGenerations(p, inp, gens, q).Some? && Lists(inp, x) && x.Generation() in gens
    ensures ClosedAt(p, end) ==> x.End() <= end
    ensures ShutOn(p, start, end) && x.Chunk? ==> !(start <= x.End() && x.Start() <= end)
    decreases |gens|
  {
    GenerationRespects(p, inp, gens[0], q, start, end, x);
    if x.Generation() != gens[0] {
      GenerationsRespect(AfterGeneration(p, inp, gens[0], q).value, inp, gens[1..], q, start, end, x);
    }
  }

  /** The item is not a chunk beside a catalog that ends its generation: those are read
      first. */
  predicate ReadAfter(x: Item, done: Item) {
    x.Generation() > done.Generation() || (x.Generation() == done.Generation() && (done.Chunk? || x.Catalog?))
  }

  lemma LayeredPrefix(log: seq<CoverageEntry>, head: seq<CoverageEntry>, tail: seq<CoverageEntry>)
    requires Layered(log + (head + tail))
    ensures Layered(log + head) && log + (head + tail) == log + head + tail
  {
    var all := log + (head + tail);
    assert log + head == all[..|log| + |head|];
  }

  lemma {:induction false} EndsRest(
    p: Planner, inp: Input, gens: seq<U64>, q: Request, log: seq<CoverageEntry>, done: Item, x: Item)
    requires ValidInput(inp) && StrictlyAscending(gens) && AfterGenerations(p, inp, gens, q).Some?
    requires CompleteAreClosed(p) && p.coverage == Overlay(log) && Layered(log + CoverageLog(inp, gens))
    requires Lists(inp, done) && Lists(inp, x) && done.EndsStream() && ReadAfter(x, done)
    requires done.Generation() in gens && x.Generation() in gens
    ensures x.End() <= done.End()
    ensures done.Catalog? && x.Chunk? ==> x.End() < done.Start()
    decreases |gens|
  {
    var g, p' := gens[0], AfterGeneration(p, inp, gens[0], q).value;
    LayeredPrefix(log, SortedCoverage(inp, g), CoverageLog(inp, gens[1..]));
    if done.Generation() == g {
      EndsGeneration(p, inp, q, log, done, if x.Generation() == g then x else done);
      if x.Generation() != g {
        assert x.Generation() in gens[1..];
        GenerationsRespect(p', inp, gens[1..], q, done.Start(), done.End(), x);
      }
    } else {
      AscendingTail(gens);
      assert done.Generation() in gens[1..];
      assert x.Generation() in gens[1..] by { AboveTail(gens, done.Generation(), x.Generation()); }
      GenerationKeepsClosing(p, inp, g, q);
      GenerationOverlay(p, inp, g, q, log);
      EndsRest(p', inp, gens[1..], q, log + SortedCoverage(inp, g), done, x);
    }
  }

  lemma AboveTail(gens: seq<U64>, g: U64, h: U64)
    requires StrictlyAscending(gens) && gens != [] && g in gens[1..] && h in gens && g <= h
    ensures h in gens[1..]
  {
    AscendingTail(gens);
  }

  lemma EndsGeneration(p: Planner, inp: Input, q: Request, log: seq<CoverageEntry>, done: Item, x: Item)
    requires ValidInput(inp) && CompleteAreClosed(p) && AfterGeneration(p, inp, done.Generation(), q).Some?
    requires p.coverage == Overlay(log) && Layered(log + SortedCoverage(inp, done.Generation()))
    requires Lists(inp, done) && Lists(inp, x) && done.EndsStream() && x.Generation() == done.Generation()
    requires done.Chunk? || x.Catalog?
    ensures x.End() <= done.End() && ClosedAt(AfterGeneration(p, inp, done.Generation(), q).value, done.End())
    ensures done.Catalog? ==> ShutOn(AfterGeneration(p, inp, done.Generation(), q).value, done.Start(), done.End())
  {
    match done
    case Chunk(e) => ChunkEndsGeneration(p, inp, q, e, x);
    case Catalog(c) => CatalogEndsGeneration(p, inp, q, log, c, x);
  }

  /** In every accepted listing a completed stream is not extended: whatever is read after
      a complete chunk or a complete catalog without chunks ends by its end, and chunks read
      after such a catalog end before it. */
  lemma CompletedIsFinal(inp: Input, q: Request, done: Item, x: Item)
    requires ValidInput(inp) && Folded(inp, q).Some?
    requires Lists(inp, done) && Lists(inp, x) && done.EndsStream() && ReadAfter(x, done)
    ensures x.End() <= done.End()
    ensures done.Catalog? && x.Chunk? ==> x.End() < done.Start()
  {
    var gens := Ascending(Generations(inp));
    LogIsLayered(EMPTY_PLANNER, inp, gens, q);
    assert [] + CoverageLog(inp, gens) == CoverageLog(inp, gens);
    ListedGeneration(inp, done);
    ListedGeneration(inp, x);
    EndsRest(EMPTY_PLANNER, inp, gens, q, [], done, x);
  }

  lemma ListedGeneration(inp: Input, x: Item)
    requires Lists(inp, x)
    ensures x.Generation() in Ascending(Generations(inp))
  {
  }

  // ---- Sealed chunks ----

  /** Equal in everything but a decoded size that may be left out. */
  predicate SameBytes(a: Descriptor, b: Descriptor) {
    a.start == b.start && a.end == b.end && a.content == b.content && a.complete == b.complete && a.sealed == b.sealed
  }

  predicate IsFixed(d: Descriptor) {
    d.sealed || d.complete
  }

  predicate Meets(a: Descriptor, b: Descriptor) {
    a.start <= b.end && b.start <= a.end
  }

  /** A current chunk that stays says what a sealed or complete chunk says. */
  predicate FixedHeld(p: Planner, d: Descriptor) {
    exists y :: y in p.current && IsFixed(y.descriptor) && SameBytes(y.descriptor, d)
  }

  lemma EntryFixes(p: Planner, e: Entry, q: Request)
    requires AfterEntry(p, e, q).Some? && IsFixed(e.descriptor)
    ensures FixedHeld(AfterEntry(p, e, q).value, e.descriptor)
  {
    var p' := AfterEntry(p, e, q).value;
    if EntryRepeats(p, e) {
      var x :| x in p.current && Repeats(x, p.current, e);
      StableSurvivesEntry(p, e, q, x);
      assert x in p'.current && SameBytes(x.descriptor, e.descriptor);
    } else {
      assert p'.current[|p'.current| - 1] == e;
    }
  }

  /** A fixed chunk stays, and whatever meets it afterwards says the same. */
  lemma EntryLeavesFixed(p: Planner, e: Entry, q: Request, d: Descriptor)
    requires AfterEntry(p, e, q).Some? && FixedHeld(p, d) && ValidRange(e) && d.start <= d.end
    ensures FixedHeld(AfterEntry(p, e, q).value, d) && (Meets(e.descriptor, d) ==> SameBytes(e.descriptor, d))
  {
    var y :| y in p.current && IsFixed(y.descriptor) && SameBytes(y.descriptor, d);
    StableSurvivesEntry(p, e, q, y);
    if Meets(e.descriptor, d) {
      assert y.Hits(e.descriptor.start, e.descriptor.end);
    }
  }

  lemma CoverageLeavesFixed(p: Planner, c: CoverageEntry, q: Request, d: Descriptor)
    requires AfterCoverage(p, c, q).Some? && FixedHeld(p, d)
    ensures FixedHeld(AfterCoverage(p, c, q).value, d)
  {
    var y :| y in p.current && IsFixed(y.descriptor) && SameBytes(y.descriptor, d);
    StableSurvivesCoverage(p, c, q, y);
  }

  lemma {:induction false} EntriesLeaveFixed(p: Planner, es: seq<Entry>, q: Request, d: Descriptor, i: nat)
    requires ApplyEntries(p, es, q).Some? && FixedHeld(p, d) && d.start <= d.end
    requires forall k :: 0 <= k < |es| ==> ValidRange(es[k])
    ensures FixedHeld(ApplyEntries(p, es, q).value, d)
    ensures i < |es| && Meets(es[i].descriptor, d) ==> SameBytes(es[i].descriptor, d)
    decreases |es|
  {
    if es != [] {
      EntryLeavesFixed(p, es[0], q, d);
      EntriesLeaveFixed(AfterEntry(p, es[0], q).value, es[1..], q, d, if i > 0 then i - 1 else |es|);
    }
  }

  lemma {:induction false} EntriesFix(p: Planner, es: seq<Entry>, q: Request, i: nat)
    requires ApplyEntries(p, es, q).Some? && i < |es| && IsFixed(es[i].descriptor)
    requires forall k :: 0 <= k < |es| ==> ValidRange(es[k])
    ensures FixedHeld(ApplyEntries(p, es, q).value, es[i].descriptor)
    decreases |es|
  {
    var p' := AfterEntry(p, es[0], q).value;
    if i == 0 {
      EntryFixes(p, es[0], q);
      EntriesLeaveFixed(p', es[1..], q, es[0].descriptor, |es|);
    } else {
      EntriesFix(p', es[1..], q, i - 1);
    }
  }

  lemma {:induction false} CoveragesLeaveFixed(p: Planner, cs: seq<CoverageEntry>, q: Request, d: Descriptor)
    requires ApplyCoverages(p, cs, q).Some? && FixedHeld(p, d)
    ensures FixedHeld(ApplyCoverages(p, cs, q).value, d)
    decreases |cs|
  {
    if cs != [] {
      CoverageLeavesFixed(p, cs[0], q, d);
      CoveragesLeaveFixed(AfterCoverage(p, cs[0], q).value, cs[1..], q, d);
    }
  }

  lemma MarksAreValid(inp: Input, g: U64)
    requires ValidInput(inp)
    ensures forall k :: 0 <= k < |Marks(inp, g)| ==> ValidRange(Marks(inp, g)[k])
  {
    ValidSortedEntries(inp, g);
    MarkKeepsChunks(SortedEntries(inp, g), g, inp.boundaries);
  }

  lemma GenerationLeavesFixed(p: Planner, inp: Input, g: U64, q: Request, d: Descriptor, e: Entry)
    requires ValidInput(inp) && AfterGeneration(p, inp, g, q).Some? && FixedHeld(p, d) && d.start <= d.end
    requires e.generation == g ==> e in inp.entries
    ensures FixedHeld(AfterGeneration(p, inp, g, q).value, d)
    ensures e.generation == g && Meets(e.descriptor, d) ==> SameBytes(e.descriptor, d)
  {
    MarksAreValid(inp, g);
    MarkKeepsChunks(SortedEntries(inp, g), g, inp.boundaries);
    var i := |Marks(inp, g)|;
    if e.generation == g { i := SortedHoldsEntry(inp, g, e); }
    EntriesLeaveFixed(p, Marks(inp, g), q, d, i);
    CoveragesLeaveFixed(ApplyEntries(p, Marks(inp, g), q).value, SortedCoverage(inp, g), q, d);
  }

  lemma GenerationFixes(p: Planner, inp: Input, q: Request, x: Entry)
    requires ValidInput(inp) && AfterGeneration(p, inp, x.generation, q).Some? && x in inp.entries && IsFixed(x.descriptor)
    ensures FixedHeld(AfterGeneration(p, inp, x.generation, q).value, x.descriptor)
  {
    var g := x.generation;
    MarksAreValid(inp, g);
    MarkKeepsChunks(SortedEntries(inp, g), g, inp.boundaries);
    var i := SortedHoldsEntry(inp, g, x);
    EntriesFix(p, Marks(inp, g), q, i);
    CoveragesLeaveFixed(ApplyEntries(p, Marks(inp, g), q).value, SortedCoverage(inp, g), q, x.descriptor);
  }

  lemma {:induction false} GenerationsLeaveFixed(p: Planner, inp: Input, gens: seq<U64>, q: Request, d: Descriptor, e: Entry)
    requires ValidInput(inp) && AfterGenerations(p, inp, gens, q).Some? && FixedHeld(p, d) && d.start <= d.end
    requires e in inp.entries && e.generation in gens && Meets(e.descriptor, d)
    ensures SameBytes(e.descriptor, d)
    decreases |gens|
  {
    GenerationLeavesFixed(p, inp, gens[0], q, d, e);
    if e.generation != gens[0] {
      GenerationsLeaveFixed(AfterGeneration(p, inp, gens[0], q).value, inp, gens[1..], q, d, e);
    }
  }

  lemma {:induction false} GenerationsFix(p: Planner, inp: Input, gens: seq<U64>, q: Request, x: Entry, e: Entry)
    requires ValidInput(inp) && StrictlyAscending(gens) && AfterGenerations(p, inp, gens, q).Some?
    requires x in inp.entries && e in inp.entries && x.generation in gens && e.generation in gens
    requires IsFixed(x.descriptor) && x.generation < e.generation && Meets(e.descriptor, x.descriptor)
    ensures SameBytes(e.descriptor, x.descriptor)
    decreases |gens|
  {
    var p' := AfterGeneration(p, inp, gens[0], q).value;
    AscendingTail(gens);
    if x.generation == gens[0] {
      GenerationFixes(p, inp, q, x);
      GenerationsLeaveFixed(p', inp, gens[1..], q, x.descriptor, e);
    } else {
      assert e.generation in gens[1..] by { AboveTail(gens, x.generation, e.generation); }
      GenerationsFix(p', inp, gens[1..], q, x, e);
    }
  }

  /** In every accepted listing a newer chunk that meets a sealed or complete one repeats
      it. */
  lemma FixedIsRepeated(inp: Input, q: Request, x: Entry, e: Entry)
    requires ValidInput(inp) && Folded(inp, q).Some? && x in inp.entries && e in inp.entries
    requires IsFixed(x.descriptor) && x.generation < e.generation && Meets(e.descriptor, x.descriptor)
    ensures SameBytes(e.descriptor, x.descriptor)
  {
    ListedGeneration(inp, Chunk(x));
    ListedGeneration(inp, Chunk(e));
    GenerationsFix(EMPTY_PLANNER, inp, Ascending(Generations(inp)), q, x, e);
  }

  // ---- When an entry is refused ----

  /** The chunk is in the way of the entry: it stays and says something else, or it is not
      older. */
  predicate InTheWay(x: Entry, current: seq<Entry>, e: Entry) {
    var stays := !x.final || x.descriptor.sealed || x.descriptor.complete
                 || exists y :: y in current && x.descriptor.end < y.descriptor.start;
    var (d, c) := (x.descriptor, e.descriptor);
    && Meets(d, c)
    && if stays then !SameBytes(d, c) || (d.decodedSize.Some? && c.decodedSize.Some? && d.decodedSize != c.decodedSize)
       else e.generation <= x.generation
  }

  /** An entry is refused exactly when it goes past a completed end, enters a completed empty
      catalog, or has a chunk in its way. */
  lemma EntryRefusedExactly(p: Planner, e: Entry, q: Request)
    requires CompleteAreClosed(p) && ValidRange(e) && forall x :: x in p.current ==> ValidRange(x)
    ensures AfterEntry(p, e, q).None? <==>
      || (p.completeTail.Some? && p.completeTail.value < e.descriptor.end)
      || (exists r :: r in p.completeRanges && r.0 <= e.descriptor.end && e.descriptor.start <= r.1)
      || (exists x :: x in p.current && InTheWay(x, p.current, e))
  {
    if FirstCompleteTailBefore(p.current, e.descriptor.end) {
      var i :| 0 <= i < |p.current| && p.current[i].IsCompleteTail() && e.descriptor.end > p.current[i].descriptor.end;
      assert p.current[i] in p.current;
    }
    forall x | x in p.current
      ensures InTheWay(x, p.current, e) <==>
        x.Hits(e.descriptor.start, e.descriptor.end)
        && !GivesWay(x, p.current, e.generation, e.descriptor.start, e.descriptor.end) && !Repeats(x, p.current, e)
    {
      StableIsNotReplaceable(x, p.current);
    }
    if exists r :: r in p.completeRanges && r.0 <= e.descriptor.end && e.descriptor.start <= r.1 {
      var r :| r in p.completeRanges && r.0 <= e.descriptor.end && e.descriptor.start <= r.1;
      var i :| 0 <= i < |p.completeRanges| && p.completeRanges[i] == r;
      assert HitsCompleteRange(p, e.descriptor.start, e.descriptor.end);
    }
    if HitsCompleteRange(p, e.descriptor.start, e.descriptor.end) {
      var i :| 0 <= i < |p.completeRanges| && p.completeRanges[i].0 <= e.descriptor.end && e.descriptor.start <= p.completeRanges[i].1;
      assert p.completeRanges[i] in p.completeRanges;
    }
  }

  /** Coverage is refused exactly when it goes past a completed end. */
  lemma CoverageRefusedExactly(p: Planner, c: CoverageEntry, q: Request)
    requires CompleteAreClosed(p)
    ensures AfterCoverage(p, c, q).None? <==> p.completeTail.Some? && p.completeTail.value < c.coverage.end
  {
    if FirstCompleteTailBefore(p.current, c.coverage.end) {
      var i :| 0 <= i < |p.current| && p.current[i].IsCompleteTail() && c.coverage.end > p.current[i].descriptor.end;
      assert p.current[i] in p.current;
    }
  }

  /** Where a planner is closed, something listed closed it. */
  ghost predicate ClosedByListed(p: Planner, inp: Input) {
    && (p.completeTail.Some? ==> exists done :: EndsAt(inp, done, p.completeTail.value))
    && (forall r :: r in p.completeRanges ==> exists c :: ShutsOff(inp, c, r))
  }

  predicate EndsAt(inp: Input, done: Item, end: U64) {
    Lists(inp, done) && done.EndsStream() && done.End() == end
  }

  predicate ShutsOff(inp: Input, c: CoverageEntry, r: (U64, U64)) {
    c in inp.coverage && c.emptyCatalog && c.coverage.complete && r == (c.coverage.start, c.coverage.end)
  }

  lemma EntryClosedByListed(p: Planner, inp: Input, e: Entry, q: Request)
    requires ClosedByListed(p, inp) && AfterEntry(p, e, q).Some? && Listed(e, inp)
    ensures ClosedByListed(AfterEntry(p, e, q).value, inp)
  {
    var y :| y in inp.entries && SameChunk(e, y);
    if e.descriptor.complete { assert EndsAt(inp, Chunk(y), e.descriptor.end); }
  }

  lemma CoverageClosedByListed(p: Planner, inp: Input, c: CoverageEntry, q: Request)
    requires ClosedByListed(p, inp) && AfterCoverage(p, c, q).Some? && c in inp.coverage
    ensures ClosedByListed(AfterCoverage(p, c, q).value, inp)
  {
    if c.emptyCatalog && c.coverage.complete {
      assert EndsAt(inp, Catalog(c), c.coverage.end);
      assert ShutsOff(inp, c, (c.coverage.start, c.coverage.end));
    }
  }

  lemma {:induction false} EntriesClosedByListed(p: Planner, inp: Input, es: seq<Entry>, q: Request)
    requires ClosedByListed(p, inp) && AllListed(es, inp) && ApplyEntries(p, es, q).Some?
    ensures ClosedByListed(ApplyEntries(p, es, q).value, inp)
    decreases |es|
  {
    if es != [] {
      EntryClosedByListed(p, inp, es[0], q);
      EntriesClosedByListed(AfterEntry(p, es[0], q).value, inp, es[1..], q);
    }
  }

  lemma {:induction false} CoveragesClosedByListed(p: Planner, inp: Input, cs: seq<CoverageEntry>, q: Request)
    requires ClosedByListed(p, inp) && (forall i :: 0 <= i < |cs| ==> cs[i] in inp.coverage) && ApplyCoverages(p, cs, q).Some?
    ensures ClosedByListed(ApplyCoverages(p, cs, q).value, inp)
    decreases |cs|
  {
    if cs != [] {
      CoverageClosedByListed(p, inp, cs[0], q);
      CoveragesClosedByListed(AfterCoverage(p, cs[0], q).value, inp, cs[1..], q);
    }
  }

  /** Before every generation of a listing the planner is closed exactly as far as complete
      chunks are current and only where something listed closed it. */
  lemma {:induction false} ClosingsOverRun(p: Planner, inp: Input, gens: seq<U64>, q: Request)
    requires ValidInput(inp) && CompleteAreClosed(p) && ClosedByListed(p, inp) && AfterGenerations(p, inp, gens, q).Some?
    ensures CompleteAreClosed(AfterGenerations(p, inp, gens, q).value)
    ensures ClosedByListed(AfterGenerations(p, inp, gens, q).value, inp)
    decreases |gens|
  {
    if gens != [] {
      var g := gens[0];
      GenerationKeepsClosing(p, inp, g, q);
      MarkedAreListed(inp, g);
      ValidSortedCoverage(inp, g);
      EntriesClosedByListed(p, inp, Marks(inp, g), q);
      CoveragesClosedByListed(ApplyEntries(p, Marks(inp, g), q).value, inp, SortedCoverage(inp, g), q);
      ClosingsOverRun(AfterGeneration(p, inp, g, q).value, inp, gens[1..], q);
    }
  }
}
