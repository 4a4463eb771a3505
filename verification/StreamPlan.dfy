/** Planning one artifact stream: generations in ascending order, then the plan. */
module StreamPlan {
  import opened Common
  import opened OrderedSets
  import opened Sorting
  import opened StreamModel

  datatype Boundary = Boundary(generation: U64, start: U64)

  /** The chunks, catalogs and catalog boundaries listed for one stream. */
  datatype Input = Input(entries: seq<Entry>, coverage: seq<CoverageEntry>, boundaries: seq<Boundary>)

  predicate ValidInput(inp: Input) {
    && (forall e :: e in inp.entries ==> ValidRange(e) && !e.final)
    && (forall c :: c in inp.coverage ==> ValidCoverage(c))
  }

  // ---- One generation ----

  function EntriesOf(es: seq<Entry>, g: U64): (r: seq<Entry>)
    ensures forall e :: e in r <==> e in es && e.generation == g
  {
    if es == [] then []
    else
      var n := |es| - 1;
      assert es == es[..n] + [es[n]];
      EntriesOf(es[..n], g) + (if es[n].generation == g then [es[n]] else [])
  }

  function CoverageOf(cs: seq<CoverageEntry>, g: U64): (r: seq<CoverageEntry>)
    ensures forall c :: c in r <==> c in cs && c.generation == g
  {
    if cs == [] then []
    else
      var n := |cs| - 1;
      assert cs == cs[..n] + [cs[n]];
      CoverageOf(cs[..n], g) + (if cs[n].generation == g then [cs[n]] else [])
  }

  /** Neighbours do not meet. */
  predicate AdjacentApart(es: seq<Entry>) {
    forall i :: 0 <= i < |es| - 1 ==> !es[i].Hits(es[i + 1].descriptor.start, es[i + 1].descriptor.end)
  }

  predicate AdjacentCoverageApart(cs: seq<CoverageEntry>) {
    forall i :: 0 <= i < |cs| - 1 ==> !cs[i].Hits(cs[i + 1].coverage.start, cs[i + 1].coverage.end)
  }

  predicate OvertakenByBoundary(e: Entry, g: U64, boundaries: seq<Boundary>) {
    exists b :: b in boundaries && b.generation == g && e.descriptor.end < b.start
  }

  /** The last chunk of a generation is final, unless a catalog of that generation starts
      after it. */
  function MarkFinal(es: seq<Entry>, g: U64, boundaries: seq<Boundary>): seq<Entry> {
    if es == [] || OvertakenByBoundary(es[|es| - 1], g, boundaries) then es
    else es[|es| - 1 := es[|es| - 1].(final := true)]
  }

  function ApplyEntries(p: Planner, es: seq<Entry>, q: Request): Option<Planner>
    decreases |es|
  {
    if es == [] then Some(p)
    else match AfterEntry(p, es[0], q)
         case None => None
         case Some(p') => ApplyEntries(p', es[1..], q)
  }

  function ApplyCoverages(p: Planner, cs: seq<CoverageEntry>, q: Request): Option<Planner>
    decreases |cs|
  {
    if cs == [] then Some(p)
    else match AfterCoverage(p, cs[0], q)
         case None => None
         case Some(p') => ApplyCoverages(p', cs[1..], q)
  }

  function SortedEntries(inp: Input, g: U64): seq<Entry> {
    SortBy(EntriesOf(inp.entries, g), EntryKey)
  }

  function SortedCoverage(inp: Input, g: U64): seq<CoverageEntry> {
    SortBy(CoverageOf(inp.coverage, g), CoverageKey)
  }

  function AfterGeneration(p: Planner, inp: Input, g: U64, q: Request): Option<Planner> {
    var es, cs := SortedEntries(inp, g), SortedCoverage(inp, g);
    if !AdjacentApart(es) || !AdjacentCoverageApart(cs) then None
    else match ApplyEntries(p, MarkFinal(es, g, inp.boundaries), q)
         case None => None
         case Some(p') => ApplyCoverages(p', cs, q)
  }

  // ---- All generations ----

  function Generations(inp: Input): set<U64> {
    (set e | e in inp.entries :: e.generation) + (set c | c in inp.coverage :: c.generation)
  }

  function AfterGenerations(p: Planner, inp: Input, gens: seq<U64>, q: Request): Option<Planner>
    decreases |gens|
  {
    if gens == [] then Some(p)
    else match AfterGeneration(p, inp, gens[0], q)
         case None => None
         case Some(p') => AfterGenerations(p', inp, gens[1..], q)
  }

  function Folded(inp: Input, q: Request): Option<Planner> {
    AfterGenerations(EMPTY_PLANNER, inp, Ascending(Generations(inp)), q)
  }

  // ---- The plan ----

  datatype Placement = CurrentStable | CurrentTransient | OptionalPriorTail

  datatype Planned = Planned(descriptor: Descriptor, placement: Placement)

  datatype Plan = Plan(chunks: seq<Planned>, coverage: seq<Coverage>, priorTails: seq<Planned>)

  function PlanKey(e: Entry): seq<int> {
    [e.descriptor.start, e.descriptor.end, e.generation] + TextKey(e.descriptor.content.cid)
  }

  function CoverageFrom(d: Descriptor): Coverage {
    Coverage(d.start, d.end, d.content.checkpointBlock, d.generation, d.partition, d.complete)
  }

  predicate IsRetainable(e: Entry, current: seq<Entry>) {
    || e.IsExplicitlyStable()
    || exists y :: y in current && y.generation > e.generation && e.descriptor.end < y.descriptor.start
  }

  function RequiredChunks(es: seq<Entry>, current: seq<Entry>, q: Request): seq<Planned> {
    if es == [] then []
    else
      var e := es[|es| - 1];
      RequiredChunks(es[..|es| - 1], current, q)
      + (if e.Hits(q.start, q.end)
         then [Planned(e.descriptor, if e.IsStable(current) then CurrentStable else CurrentTransient)]
         else [])
  }

  function ChunkCoverage(es: seq<Entry>, q: Request): seq<Coverage> {
    if es == [] then []
    else
      var e := es[|es| - 1];
      ChunkCoverage(es[..|es| - 1], q) + (if e.Hits(q.start, q.end) then [CoverageFrom(e.descriptor)] else [])
  }

  function PriorTails(es: seq<Entry>, current: seq<Entry>, q: Request): seq<Planned> {
    if es == [] then []
    else
      var e := es[|es| - 1];
      PriorTails(es[..|es| - 1], current, q)
      + (if !e.Hits(q.start, q.end) && e.descriptor.end < q.start && IsRetainable(e, current)
         then [Planned(e.descriptor, OptionalPriorTail)]
         else [])
  }

  function CatalogCoverage(cs: seq<CoverageEntry>, q: Request): seq<Coverage> {
    if cs == [] then []
    else
      var c := cs[|cs| - 1];
      CatalogCoverage(cs[..|cs| - 1], q) + (if c.Hits(q.start, q.end) then [c.coverage] else [])
  }

  predicate HasGap(p: Planner) {
    exists s :: s in p.superseded
      && !IsCovered(s, SortBy(p.current, PlanKey), SortBy(p.coverage, CoverageKey))
  }

  /** The plan, unless a requested superseded range is left uncovered. */
  function Finish(p: Planner, q: Request): Option<Plan> {
    if HasGap(p) then None
    else
      var current, coverage := SortBy(p.current, PlanKey), SortBy(p.coverage, CoverageKey);
      Some(Plan(RequiredChunks(current, current, q),
                ChunkCoverage(current, q) + CatalogCoverage(coverage, q),
                PriorTails(current, current, q)))
  }

  function PlanStream(inp: Input, q: Request): Option<Plan> {
    match Folded(inp, q)
    case None => None
    case Some(p) => Finish(p, q)
  }
}
