/** What holds of every successful plan of a stream. */
module StreamSafety {
  import opened Common
  import opened OrderedSets
  import opened Sorting
  import opened StreamFold
  import opened StreamModel
  import opened StreamOrder
  import opened StreamPlan

  // ---- Where current chunks come from ----

  /** A listed chunk, apart from the final mark. */
  predicate Listed(e: Entry, inp: Input) {
    exists y :: y in inp.entries && SameChunk(e, y)
  }

  /** Current chunks are disjoint and listed, and records are ranges. */
  predicate Sound(p: Planner, inp: Input) {
    && Disjoint(p.current)
    && (forall e :: e in p.current ==> Listed(e, inp))
    && (forall s :: s in p.superseded ==> s.start <= s.end)
  }

  lemma {:induction false} NewRecordsAreRanges(
    xs: seq<Entry>, current: seq<Entry>, g: U64, start: U64, end: U64, q: Request, s: Superseded)
    requires s in NewlySuperseded(xs, current, g, start, end, q)
    ensures s.start <= s.end
    decreases |xs|
  {
    if s in NewlySuperseded(xs[..|xs| - 1], current, g, start, end, q) {
      NewRecordsAreRanges(xs[..|xs| - 1], current, g, start, end, q, s);
    }
  }

  lemma RemovalKeepsSound(p: Planner, inp: Input, g: U64, start: U64, end: U64, q: Request)
    requires Sound(p, inp)
    ensures Sound(p.(current := Remaining(p.current, p.current, g, start, end),
                     superseded := p.superseded + NewlySuperseded(p.current, p.current, g, start, end, q)), inp)
  {
    RemainingDisjoint(p.current, p.current, g, start, end);
    RemainingIsFilter(p.current, p.current, g, start, end);
    forall s | s in NewlySuperseded(p.current, p.current, g, start, end, q) ensures s.start <= s.end {
      NewRecordsAreRanges(p.current, p.current, g, start, end, q, s);
    }
  }

  lemma EntryKeepsSound(p: Planner, inp: Input, e: Entry, q: Request)
    requires Sound(p, inp) && ValidRange(e) && Listed(e, inp) && AfterEntry(p, e, q).Some?
    ensures Sound(AfterEntry(p, e, q).value, inp)
  {
    RemovalKeepsSound(p, inp, e.generation, e.descriptor.start, e.descriptor.end, q);
    EntryKeepsDisjoint(p, e, q);
  }

  lemma CoverageKeepsSound(p: Planner, inp: Input, c: CoverageEntry, q: Request)
    requires Sound(p, inp) && AfterCoverage(p, c, q).Some?
    ensures Sound(AfterCoverage(p, c, q).value, inp)
  {
    RemovalKeepsSound(p, inp, c.generation, c.coverage.start, c.coverage.end, q);
  }

  predicate AllListed(es: seq<Entry>, inp: Input) {
    forall i :: 0 <= i < |es| ==> ValidRange(es[i]) && Listed(es[i], inp)
  }

  lemma {:induction false} EntriesKeepSound(p: Planner, inp: Input, es: seq<Entry>, q: Request)
    requires Sound(p, inp) && AllListed(es, inp) && ApplyEntries(p, es, q).Some?
    ensures Sound(ApplyEntries(p, es, q).value, inp)
    decreases |es|
  {
    if es != [] {
      EntryKeepsSound(p, inp, es[0], q);
      EntriesKeepSound(AfterEntry(p, es[0], q).value, inp, es[1..], q);
    }
  }

  lemma {:induction false} CoveragesKeepSound(p: Planner, inp: Input, cs: seq<CoverageEntry>, q: Request)
    requires Sound(p, inp) && ApplyCoverages(p, cs, q).Some?
    ensures Sound(ApplyCoverages(p, cs, q).value, inp)
    decreases |cs|
  {
    if cs != [] {
      CoverageKeepsSound(p, inp, cs[0], q);
      CoveragesKeepSound(AfterCoverage(p, cs[0], q).value, inp, cs[1..], q);
    }
  }

  /** Marking changes nothing but the mark. */
  lemma MarkKeepsChunks(es: seq<Entry>, g: U64, bs: seq<Boundary>)
    ensures |MarkFinal(es, g, bs)| == |es|
    ensures forall i :: 0 <= i < |es| ==>
              MarkFinal(es, g, bs)[i].descriptor == es[i].descriptor && MarkFinal(es, g, bs)[i].generation == es[i].generation
  {
  }

  lemma MarkedAreListed(inp: Input, g: U64)
    requires ValidInput(inp)
    ensures AllListed(MarkFinal(SortedEntries(inp, g), g, inp.boundaries), inp)
  {
    ValidSortedEntries(inp, g);
    var es := SortedEntries(inp, g);
    MarkKeepsChunks(es, g, inp.boundaries);
    var marked := MarkFinal(es, g, inp.boundaries);
    forall i | 0 <= i < |marked| ensures ValidRange(marked[i]) && Listed(marked[i], inp) {
      assert es[i] in inp.entries;
    }
  }

  lemma GenerationKeepsSound(p: Planner, inp: Input, g: U64, q: Request)
    requires ValidInput(inp) && Sound(p, inp) && AfterGeneration(p, inp, g, q).Some?
    ensures Sound(AfterGeneration(p, inp, g, q).value, inp)
  {
    var marked := MarkFinal(SortedEntries(inp, g), g, inp.boundaries);
    MarkedAreListed(inp, g);
    EntriesKeepSound(p, inp, marked, q);
    CoveragesKeepSound(ApplyEntries(p, marked, q).value, inp, SortedCoverage(inp, g), q);
  }

  lemma {:induction false} GenerationsKeepSound(p: Planner, inp: Input, gens: seq<U64>, q: Request)
    requires ValidInput(inp) && Sound(p, inp) && AfterGenerations(p, inp, gens, q).Some?
    ensures Sound(AfterGenerations(p, inp, gens, q).value, inp)
    decreases |gens|
  {
    if gens != [] {
      GenerationKeepsSound(p, inp, gens[0], q);
      GenerationsKeepSound(AfterGeneration(p, inp, gens[0], q).value, inp, gens[1..], q);
    }
  }

  /** After all generations the current chunks are disjoint listed chunks. */
  lemma FoldedIsSound(inp: Input, q: Request)
    requires ValidInput(inp) && Folded(inp, q).Some?
    ensures Sound(Folded(inp, q).value, inp)
  {
    GenerationsKeepSound(EMPTY_PLANNER, inp, Ascending(Generations(inp)), q);
  }

  lemma CurrentIsListed(inp: Input, q: Request, y: Entry) returns (e: Entry)
    requires ValidInput(inp) && Folded(inp, q).Some? && y in Folded(inp, q).value.current
    ensures e in inp.entries && SameChunk(y, e)
  {
    FoldedIsSound(inp, q);
    assert Listed(y, inp);
    e :| e in inp.entries && SameChunk(y, e);
  }

  // ---- Stable chunks stay ----

  lemma {:induction false} StableSurvivesEntries(p: Planner, es: seq<Entry>, q: Request, x: Entry)
    requires x in p.current && x.IsExplicitlyStable() && ApplyEntries(p, es, q).Some?
    ensures x in ApplyEntries(p, es, q).value.current
    decreases |es|
  {
    if es != [] {
      StableSurvivesEntry(p, es[0], q, x);
      StableSurvivesEntries(AfterEntry(p, es[0], q).value, es[1..], q, x);
    }
  }

  lemma {:induction false} StableSurvivesCoverages(p: Planner, cs: seq<CoverageEntry>, q: Request, x: Entry)
    requires x in p.current && x.IsExplicitlyStable() && ApplyCoverages(p, cs, q).Some?
    ensures x in ApplyCoverages(p, cs, q).value.current
    decreases |cs|
  {
    if cs != [] {
      StableSurvivesCoverage(p, cs[0], q, x);
      StableSurvivesCoverages(AfterCoverage(p, cs[0], q).value, cs[1..], q, x);
    }
  }

  /** Once a sealed, complete or non-final chunk is current, no later generation removes
      it. */
  lemma {:induction false} StableSurvivesGenerations(p: Planner, inp: Input, gens: seq<U64>, q: Request, x: Entry)
    requires x in p.current && x.IsExplicitlyStable() && AfterGenerations(p, inp, gens, q).Some?
    ensures x in AfterGenerations(p, inp, gens, q).value.current
    decreases |gens|
  {
    if gens != [] {
      var g := gens[0];
      var marked := MarkFinal(SortedEntries(inp, g), g, inp.boundaries);
      StableSurvivesEntries(p, marked, q, x);
      StableSurvivesCoverages(ApplyEntries(p, marked, q).value, SortedCoverage(inp, g), q, x);
      StableSurvivesGenerations(AfterGeneration(p, inp, g, q).value, inp, gens[1..], q, x);
    }
  }

  // ---- No requested index is lost ----

  predicate OfGeneration(es: seq<Entry>, g: U64) {
    forall i :: 0 <= i < |es| ==> es[i].generation == g
  }

  /** A listed chunk that speaks for another: itself, or one of equal content. */
  predicate StandsFor(h: Entry, e: Entry, inp: Input) {
    h in inp.entries && (h == e || SameContent(h.descriptor, e.descriptor))
  }

  lemma {:induction false} EntriesKeepHeld(p: Planner, inp: Input, es: seq<Entry>, g: U64, q: Request, h: Entry, x: int)
    requires Sound(p, inp) && AllListed(es, inp) && OfGeneration(es, g) && ApplyEntries(p, es, q).Some?
    requires Held(p, h, x, g) && h.Covers(x) && Within(x, q.start, q.end)
    ensures Held(ApplyEntries(p, es, q).value, h, x, g)
    decreases |es|
  {
    if es != [] {
      EntryKeepsSound(p, inp, es[0], q);
      EntryKeepsHeld(p, es[0], q, h, x);
      EntriesKeepHeld(AfterEntry(p, es[0], q).value, inp, es[1..], g, q, h, x);
    }
  }

  lemma {:induction false} CoveragesKeepHeld(p: Planner, inp: Input, cs: seq<CoverageEntry>, g: U64, q: Request, h: Entry, x: int)
    requires Sound(p, inp) && ApplyCoverages(p, cs, q).Some? && forall i :: 0 <= i < |cs| ==> cs[i].generation == g
    requires Held(p, h, x, g) && h.Covers(x) && Within(x, q.start, q.end)
    ensures Held(ApplyCoverages(p, cs, q).value, h, x, g)
    decreases |cs|
  {
    if cs != [] {
      CoverageKeepsSound(p, inp, cs[0], q);
      CoverageKeepsHeld(p, cs[0], q, h, x);
      CoveragesKeepHeld(AfterCoverage(p, cs[0], q).value, inp, cs[1..], g, q, h, x);
    }
  }

  /** An applied entry is from then on held, by itself or by the chunk it repeats. */
  lemma EntryIsHeld(p: Planner, inp: Input, m: Entry, q: Request, e: Entry, x: int) returns (h: Entry)
    requires Sound(p, inp) && ValidRange(m) && AfterEntry(p, m, q).Some?
    requires e in inp.entries && SameChunk(m, e) && e.Covers(x)
    ensures StandsFor(h, e, inp) && h.Covers(x) && IsCurrent(AfterEntry(p, m, q).value, h)
  {
    var y := AcceptedEntryIsCurrent(p, m, q);
    h := e;
    if !SameChunk(y, e) {
      assert Listed(y, inp);
      h :| h in inp.entries && SameChunk(y, h);
    }
  }

  lemma {:induction false} EntriesHold(p: Planner, inp: Input, es: seq<Entry>, g: U64, q: Request, i: nat, e: Entry, x: int)
    returns (h: Entry)
    requires Sound(p, inp) && AllListed(es, inp) && OfGeneration(es, g) && ApplyEntries(p, es, q).Some?
    requires i < |es| && e in inp.entries && SameChunk(es[i], e) && e.Covers(x) && Within(x, q.start, q.end)
    ensures StandsFor(h, e, inp) && h.Covers(x) && Held(ApplyEntries(p, es, q).value, h, x, g)
    decreases |es|
  {
    var p', rest := AfterEntry(p, es[0], q).value, es[1..];
    EntryKeepsSound(p, inp, es[0], q);
    if i == 0 {
      h := EntryIsHeld(p, inp, es[0], q, e, x);
      EntriesKeepHeld(p', inp, rest, g, q, h, x);
    } else {
      assert rest[i - 1] == es[i];
      h := EntriesHold(p', inp, rest, g, q, i - 1, e, x);
    }
  }

  lemma SortedHoldsEntry(inp: Input, g: U64, e: Entry) returns (i: nat)
    requires e in inp.entries && e.generation == g
    ensures i < |SortedEntries(inp, g)| && SortedEntries(inp, g)[i] == e
  {
    var es := SortedEntries(inp, g);
    SortedHas(EntriesOf(inp.entries, g), EntryKey, e);
    i :| 0 <= i < |es| && es[i] == e;
  }

  lemma MarkedAreOfGeneration(inp: Input, g: U64)
    requires ValidInput(inp)
    ensures OfGeneration(MarkFinal(SortedEntries(inp, g), g, inp.boundaries), g)
  {
    ValidSortedEntries(inp, g);
    MarkKeepsChunks(SortedEntries(inp, g), g, inp.boundaries);
  }

  /** Whatever was held before a generation is held after it. */
  lemma GenerationKeepsHeld(p: Planner, inp: Input, g: U64, q: Request, h: Entry, x: int)
    requires ValidInput(inp) && Sound(p, inp) && AfterGeneration(p, inp, g, q).Some?
    requires Held(p, h, x, g) && h.Covers(x) && Within(x, q.start, q.end)
    ensures Held(AfterGeneration(p, inp, g, q).value, h, x, g)
  {
    var marked := MarkFinal(SortedEntries(inp, g), g, inp.boundaries);
    MarkedAreListed(inp, g);
    MarkedAreOfGeneration(inp, g);
    EntriesKeepSound(p, inp, marked, q);
    EntriesKeepHeld(p, inp, marked, g, q, h, x);
    ValidSortedCoverage(inp, g);
    CoveragesKeepHeld(ApplyEntries(p, marked, q).value, inp, SortedCoverage(inp, g), g, q, h, x);
  }

  /** A chunk is held after the generation that lists it. */
  lemma GenerationHolds(p: Planner, inp: Input, q: Request, e: Entry, x: int) returns (h: Entry)
    requires ValidInput(inp) && Sound(p, inp) && AfterGeneration(p, inp, e.generation, q).Some?
    requires e in inp.entries && e.Covers(x) && Within(x, q.start, q.end)
    ensures StandsFor(h, e, inp) && h.Covers(x)
    ensures Held(AfterGeneration(p, inp, e.generation, q).value, h, x, e.generation)
  {
    var g := e.generation;
    var marked := MarkFinal(SortedEntries(inp, g), g, inp.boundaries);
    MarkedAreListed(inp, g);
    MarkedAreOfGeneration(inp, g);
    var i := SortedHoldsEntry(inp, g, e);
    MarkKeepsChunks(SortedEntries(inp, g), g, inp.boundaries);
    h := EntriesHold(p, inp, marked, g, q, i, e, x);
    EntriesKeepSound(p, inp, marked, q);
    ValidSortedCoverage(inp, g);
    CoveragesKeepHeld(ApplyEntries(p, marked, q).value, inp, SortedCoverage(inp, g), g, q, h, x);
  }

  predicate AllAbove(floor: U64, gens: seq<U64>) {
    forall i :: 0 <= i < |gens| ==> floor < gens[i]
  }

  lemma AscendingTail(gens: seq<U64>)
    requires StrictlyAscending(gens) && gens != []
    ensures StrictlyAscending(gens[1..]) && AllAbove(gens[0], gens[1..])
  {
  }

  lemma FloorRises(p: Planner, h: Entry, x: int, floor: U64, floor': U64)
    requires Held(p, h, x, floor) && floor <= floor'
    ensures Held(p, h, x, floor')
  {
  }

  /** What the first generation leaves held stays held through the others. */
  lemma {:induction false} GenerationsKeepHeld(
    p: Planner, inp: Input, floor: U64, gens: seq<U64>, q: Request, h: Entry, x: int)
    requires ValidInput(inp) && Sound(p, inp) && AfterGenerations(p, inp, gens, q).Some?
    requires StrictlyAscending(gens) && AllAbove(floor, gens)
    requires Held(p, h, x, floor) && h.Covers(x) && Within(x, q.start, q.end)
    ensures Held(AfterGenerations(p, inp, gens, q).value, h, x, U64_MAX)
    decreases |gens|
  {
    if gens == [] {
      FloorRises(p, h, x, floor, U64_MAX);
    } else {
      FloorRises(p, h, x, floor, gens[0]);
      GenerationKeepsSound(p, inp, gens[0], q);
      GenerationKeepsHeld(p, inp, gens[0], q, h, x);
      AscendingTail(gens);
      GenerationsKeepHeld(AfterGeneration(p, inp, gens[0], q).value, inp, gens[0], gens[1..], q, h, x);
    }
  }

  lemma {:induction false} GenerationsHold(p: Planner, inp: Input, gens: seq<U64>, q: Request, e: Entry, x: int)
    returns (h: Entry)
    requires ValidInput(inp) && Sound(p, inp) && AfterGenerations(p, inp, gens, q).Some? && StrictlyAscending(gens)
    requires e in inp.entries && e.generation in gens && e.Covers(x) && Within(x, q.start, q.end)
    ensures StandsFor(h, e, inp) && h.Covers(x)
    ensures Held(AfterGenerations(p, inp, gens, q).value, h, x, U64_MAX)
    decreases |gens|
  {
    var p' := AfterGeneration(p, inp, gens[0], q).value;
    GenerationKeepsSound(p, inp, gens[0], q);
    AscendingTail(gens);
    if e.generation == gens[0] {
      h := GenerationHolds(p, inp, q, e, x);
      GenerationsKeepHeld(p', inp, gens[0], gens[1..], q, h, x);
    } else {
      h := GenerationsHold(p', inp, gens[1..], q, e, x);
    }
  }

  /** The plan answers for a chunk at an index: the index is in a required chunk that is
      the chunk itself or newer, or in catalog coverage newer than the chunk. */
  ghost predicate Answers(plan: Plan, p: Planner, h: Entry, x: int) {
    AnswersByChunk(plan, p, h, x) || AnswersByCoverage(plan, p, h, x)
  }

  ghost predicate AnswersByChunk(plan: Plan, p: Planner, h: Entry, x: int) {
    exists y, d :: AnswersWith(plan, p, h, x, y, d)
  }

  predicate AnswersWith(plan: Plan, p: Planner, h: Entry, x: int, y: Entry, d: Planned) {
    && y in p.current && d in plan.chunks && d.descriptor == y.descriptor && y.Covers(x)
    && (SameChunk(y, h) || y.generation > h.generation)
  }

  predicate AnswersByCoverage(plan: Plan, p: Planner, h: Entry, x: int) {
    exists c :: c in p.coverage && c.coverage in plan.coverage && c.Covers(x) && c.generation > h.generation
  }

  lemma {:induction false} RequiredChunksHold(es: seq<Entry>, current: seq<Entry>, q: Request, e: Entry)
    requires e in es && e.Hits(q.start, q.end)
    ensures exists c :: c in RequiredChunks(es, current, q) && c.descriptor == e.descriptor
    decreases |es|
  {
    var n := |es| - 1;
    var all := RequiredChunks(es, current, q);
    if es[n] == e {
      assert all[|all| - 1].descriptor == e.descriptor;
    } else {
      RequiredChunksHold(es[..n], current, q, e);
      var c :| c in RequiredChunks(es[..n], current, q) && c.descriptor == e.descriptor;
      assert c in all;
    }
  }

  lemma {:induction false} CatalogCoverageHolds(cs: seq<CoverageEntry>, q: Request, c: CoverageEntry)
    requires c in cs && c.Hits(q.start, q.end)
    ensures c.coverage in CatalogCoverage(cs, q)
    decreases |cs|
  {
    if cs[|cs| - 1] != c { CatalogCoverageHolds(cs[..|cs| - 1], q, c); }
  }

  lemma CurrentAnswers(p: Planner, q: Request, y: Entry, h: Entry, x: int)
    requires y in p.current && y.Covers(x) && Within(x, q.start, q.end) && Finish(p, q).Some?
    requires SameChunk(y, h) || y.generation > h.generation
    ensures Answers(Finish(p, q).value, p, h, x)
  {
    var current := SortBy(p.current, PlanKey);
    SameMembers(current, p.current);
    RequiredChunksHold(current, current, q, y);
    var d :| d in RequiredChunks(current, current, q) && d.descriptor == y.descriptor;
    assert AnswersWith(Finish(p, q).value, p, h, x, y, d);
  }

  lemma RecordedAnswers(p: Planner, q: Request, s: Superseded, h: Entry, x: int)
    requires Finish(p, q).Some? && Within(x, q.start, q.end) && OnlyNewerAt(p.current, h.generation, x)
    requires s in p.superseded && s.generation == h.generation && Within(x, s.start, s.end)
    ensures Answers(Finish(p, q).value, p, h, x)
  {
    var current, coverage := SortBy(p.current, PlanKey), SortBy(p.coverage, CoverageKey);
    SameMembers(current, p.current);
    SameMembers(coverage, p.coverage);
    CoveredIsFound(s, current, coverage, x);
    if y :| y in current && y.Covers(x) {
      CurrentAnswers(p, q, y, h, x);
    } else {
      var c :| c in coverage && c.generation > s.generation && c.Covers(x);
      CatalogCoverageHolds(coverage, q, c);
      assert c in p.coverage && c.coverage in Finish(p, q).value.coverage;
    }
  }

  /** Whatever is held is answered for by every plan that is not refused for a gap. */
  lemma HeldIsAnswered(p: Planner, q: Request, h: Entry, x: int)
    requires Held(p, h, x, U64_MAX) && h.Covers(x) && Within(x, q.start, q.end) && Finish(p, q).Some?
    ensures Answers(Finish(p, q).value, p, h, x)
  {
    if y :| y in p.current && SameChunk(y, h) {
      CurrentAnswers(p, q, y, h, x);
    } else {
      var s :| s in p.superseded && s.generation == h.generation && Within(x, s.start, s.end);
      RecordedAnswers(p, q, s, h, x);
    }
  }

  /** No requested data is lost: in every successful plan each requested index of each
      listed chunk is answered for, by that chunk or one of equal content it repeats, or
      by something newer. */
  lemma NothingRequestedIsLost(inp: Input, q: Request, e: Entry, x: int)
    requires ValidInput(inp) && PlanStream(inp, q).Some?
    requires e in inp.entries && e.Covers(x) && Within(x, q.start, q.end)
    ensures exists h :: StandsFor(h, e, inp) && Answers(PlanStream(inp, q).value, Folded(inp, q).value, h, x)
  {
    var gens := Ascending(Generations(inp));
    assert e.generation in Generations(inp);
    var h := GenerationsHold(EMPTY_PLANNER, inp, gens, q, e, x);
    HeldIsAnswered(Folded(inp, q).value, q, h, x);
  }
}
