/** When a plan is refused for a gap, and a refusal without a gap. */
module StreamGap {
  import opened Common
  import opened OrderedSets
  import opened Sorting
  import opened StreamFold
  import opened StreamModel
  import opened StreamOrder
  import opened StreamPlan
  import opened StreamSafety

  // ---- When the plan is refused ----

  /** An index of the superseded range is in no current chunk and no newer coverage. */
  predicate LeavesHole(p: Planner, s: Superseded) {
    !AllFound(s, SortBy(p.current, PlanKey), SortBy(p.coverage, CoverageKey))
  }

  /** Before the range is finished, a candidate ends more than one below the next start. */
  predicate Breaks(p: Planner, s: Superseded) {
    !Unbroken(SortBy(Candidates(s, SortBy(p.current, PlanKey), SortBy(p.coverage, CoverageKey)), PairKey), s.end)
  }

  /** Once all generations are accepted there is no plan exactly when some superseded
      range has a hole or its candidates break off. */
  lemma RefusedExactly(inp: Input, q: Request)
    requires ValidInput(inp) && Folded(inp, q).Some?
    ensures var p := Folded(inp, q).value;
            PlanStream(inp, q).None? <==> exists s :: s in p.superseded && (LeavesHole(p, s) || Breaks(p, s))
  {
    FoldedIsSound(inp, q);
    var p := Folded(inp, q).value;
    forall s | s in p.superseded
      ensures IsCovered(s, SortBy(p.current, PlanKey), SortBy(p.coverage, CoverageKey)) <==> !LeavesHole(p, s) && !Breaks(p, s)
    {
      CoveredExactly(s, SortBy(p.current, PlanKey), SortBy(p.coverage, CoverageKey));
    }
  }

  // ---- Refusals without a hole ----

  function Final(e: Entry): Entry {
    e.(final := true)
  }

  /** Chunk `a` is listed over a whole range. Then catalog `k` takes over its first part
      with a chunk `b` strictly inside that part, and after it catalog `l` takes over the
      rest with a chunk `c`. The request asks for the whole range. */
  predicate Nested(a: Entry, b: Entry, c: Entry, j: CoverageEntry, k: CoverageEntry, l: CoverageEntry, q: Request) {
    && a.generation == j.generation < b.generation == k.generation < c.generation == l.generation
    && NoneComplete([a, b, c]) && !a.descriptor.sealed && !a.final && !b.final && !c.final
    && !j.coverage.complete && !k.coverage.complete && !l.coverage.complete && j.coverage.checkpoint.None?
    && a.descriptor.start == j.coverage.start == k.coverage.start < b.descriptor.start <= b.descriptor.end < k.coverage.end
    && k.coverage.end + 1 == l.coverage.start <= c.descriptor.start <= c.descriptor.end <= l.coverage.end
    && l.coverage.end == j.coverage.end == a.descriptor.end
    && q.start <= a.descriptor.start && a.descriptor.end <= q.end
  }

  function Gone(a: Entry): Superseded {
    Superseded(a.generation, a.descriptor.start, a.descriptor.end)
  }

  /** What is left after all three generations. */
  function LastView(a: Entry, b: Entry, c: Entry, k: CoverageEntry, l: CoverageEntry): Planner {
    Open([Final(b), Final(c)], [k, l], [Gone(a)])
  }

  // ---- Sorting short lists ----

  lemma SortedAlready<T>(s: seq<T>, key: T -> seq<int>)
    requires SortedBy(s, key) && KeysIdentify(s, key)
    ensures SortBy(s, key) == s
  {
    SortedUnique(s, SortBy(s, key), key);
  }

  lemma OneIsSorted<T>(x: T, key: T -> seq<int>)
    ensures SortBy([x], key) == [x]
  {
    SortedAlready([x], key);
  }

  lemma TwoAreSorted<T>(x: T, y: T, key: T -> seq<int>)
    requires key(x) != [] && key(y) != [] && key(x)[0] < key(y)[0]
    ensures SortBy([x, y], key) == [x, y]
  {
    SortedAlready([x, y], key);
  }

  lemma TwoAscend(a: U64, b: U64)
    requires a < b
    ensures Ascending({a, b}) == [a, b]
  {
    AscendingSnoc({}, a);
    AscendingSnoc({a}, b);
    assert {} + {a} == {a} && {a} + {b} == {a, b};
  }

  lemma ThreeAscend(a: U64, b: U64, c: U64)
    requires a < b < c
    ensures Ascending({a, b, c}) == [a, b, c]
  {
    TwoAscend(a, b);
    AscendingSnoc({a, b}, c);
    assert {a, b} + {c} == {a, b, c};
  }

  // ---- Steps of a planner without complete chunks ----

  function Open(current: seq<Entry>, coverage: seq<CoverageEntry>, superseded: seq<Superseded>): Planner {
    Planner(current, coverage, None, [], superseded)
  }

  predicate NoneComplete(es: seq<Entry>) {
    forall e :: e in es ==> !e.descriptor.complete
  }

  lemma {:induction false} AllRemain(xs: seq<Entry>, current: seq<Entry>, g: U64, start: U64, end: U64, q: Request)
    requires forall x :: x in xs ==> !GivesWay(x, current, g, start, end)
    ensures Remaining(xs, current, g, start, end) == xs && NewlySuperseded(xs, current, g, start, end, q) == []
    decreases |xs|
  {
    if xs != [] {
      AllRemain(xs[..|xs| - 1], current, g, start, end, q);
      assert xs == xs[..|xs| - 1] + [xs[|xs| - 1]];
    }
  }

  /** Nothing meets the entry. */
  lemma FreshEntry(current: seq<Entry>, coverage: seq<CoverageEntry>, gone: seq<Superseded>, e: Entry, q: Request)
    requires NoneComplete(current + [e]) && forall x :: x in current ==> !x.Hits(e.descriptor.start, e.descriptor.end)
    ensures AfterEntry(Open(current, coverage, gone), e, q) == Some(Open(current + [e], coverage, gone))
  {
    assert e in current + [e] && forall i :: 0 <= i < |current| ==> current[i] in current + [e];
    AllRemain(current, current, e.generation, e.descriptor.start, e.descriptor.end, q);
    assert gone + [] == gone;
  }

  /** The only chunk gives way. */
  lemma ReplacingEntry(x: Entry, coverage: seq<CoverageEntry>, e: Entry, q: Request)
    requires NoneComplete([x, e]) && GivesWay(x, [x], e.generation, e.descriptor.start, e.descriptor.end)
    ensures AfterEntry(Open([x], coverage, []), e, q) == Some(Open([e], coverage, RequestedOverlap(x, q)))
  {
    assert [x][..0] == [] && x in [x, e] && e in [x, e];
    assert Remaining([x], [x], e.generation, e.descriptor.start, e.descriptor.end) == [];
    assert NewlySuperseded([x], [x], e.generation, e.descriptor.start, e.descriptor.end, q) == RequestedOverlap(x, q);
    assert [] + [e] == [e] && [] + RequestedOverlap(x, q) == RequestedOverlap(x, q);
  }

  /** No chunk gives way to the coverage. */
  lemma QuietCoverage(current: seq<Entry>, coverage: seq<CoverageEntry>, gone: seq<Superseded>, c: CoverageEntry, q: Request)
    requires NoneComplete(current) && !c.coverage.complete && !Crowded(CutAround(coverage, c), c)
    requires forall x :: x in current ==> !GivesWay(x, current, c.generation, c.coverage.start, c.coverage.end)
    ensures AfterCoverage(Open(current, coverage, gone), c, q) == Some(Open(current, CutAround(coverage, c) + [c], gone))
  {
    AllRemain(current, current, c.generation, c.coverage.start, c.coverage.end, q);
    assert gone + [] == gone && forall i :: 0 <= i < |current| ==> current[i] in current;
  }

  lemma CutOne(x: CoverageEntry, c: CoverageEntry)
    ensures CutAround([x], c) == Cut(x, c)
  {
    assert [x][..0] == [];
  }

  // ---- Generations of one chunk and one catalog ----

  /** The listing has one chunk and one catalog in the generation, and no catalog of it
      starts after the chunk. */
  predicate ListsOne(inp: Input, g: U64, e: Entry, c: CoverageEntry) {
    && EntriesOf(inp.entries, g) == [e] && CoverageOf(inp.coverage, g) == [c]
    && !OvertakenByBoundary(e, g, inp.boundaries)
  }

  lemma SortedOne(inp: Input, g: U64, e: Entry, c: CoverageEntry)
    requires ListsOne(inp, g, e, c)
    ensures SortedEntries(inp, g) == [e] && SortedCoverage(inp, g) == [c]
  {
    OneIsSorted(e, EntryKey);
    OneIsSorted(c, CoverageKey);
  }

  lemma ApplyOne(p: Planner, p': Planner, p'': Planner, e: Entry, c: CoverageEntry, q: Request)
    requires AfterEntry(p, e, q) == Some(p') && AfterCoverage(p', c, q) == Some(p'')
    ensures ApplyEntries(p, [e], q) == Some(p') && ApplyCoverages(p', [c], q) == Some(p'')
  {
    assert [e][1..] == [] && [c][1..] == [];
  }

  lemma GenerationIs(p: Planner, p': Planner, p'': Planner, inp: Input, g: U64,
                     es: seq<Entry>, marked: seq<Entry>, cs: seq<CoverageEntry>, q: Request)
    requires SortedEntries(inp, g) == es && AdjacentApart(es) && MarkFinal(es, g, inp.boundaries) == marked
    requires SortedCoverage(inp, g) == cs && AdjacentCoverageApart(cs)
    requires ApplyEntries(p, marked, q) == Some(p') && ApplyCoverages(p', cs, q) == Some(p'')
    ensures AfterGeneration(p, inp, g, q) == Some(p'')
  {
  }

  lemma GenerationOfOne(p: Planner, p': Planner, p'': Planner, inp: Input, g: U64, e: Entry, c: CoverageEntry, q: Request)
    requires ListsOne(inp, g, e, c)
    requires AfterEntry(p, Final(e), q) == Some(p') && AfterCoverage(p', c, q) == Some(p'')
    ensures AfterGeneration(p, inp, g, q) == Some(p'')
  {
    SortedOne(inp, g, e, c);
    ApplyOne(p, p', p'', Final(e), c, q);
    GenerationIs(p, p', p'', inp, g, [e], [Final(e)], [c], q);
  }

  lemma ThreeGenerations(inp: Input, q: Request, f: U64, g: U64, h: U64, p: Planner, p': Planner, p'': Planner)
    requires Ascending(Generations(inp)) == [f, g, h]
    requires AfterGeneration(EMPTY_PLANNER, inp, f, q) == Some(p)
    requires AfterGeneration(p, inp, g, q) == Some(p') && AfterGeneration(p', inp, h, q) == Some(p'')
    ensures Folded(inp, q) == Some(p'')
  {
    LastGenerations(inp, q, g, h, p, p', p'');
    assert [f, g, h][1..] == [g, h];
  }

  lemma LastGenerations(inp: Input, q: Request, g: U64, h: U64, p: Planner, p': Planner, p'': Planner)
    requires AfterGeneration(p, inp, g, q) == Some(p') && AfterGeneration(p', inp, h, q) == Some(p'')
    ensures AfterGenerations(p, inp, [g, h], q) == Some(p'')
  {
    assert [g, h][1..] == [h] && [h][1..] == [];
    assert AfterGenerations(p', inp, [h], q) == Some(p'');
  }

  // ---- The three generations ----

  lemma FirstSteps(e: Entry, c: CoverageEntry, q: Request)
    requires NoneComplete([e]) && !c.coverage.complete && e.generation == c.generation
    ensures AfterEntry(EMPTY_PLANNER, e, q) == Some(Open([e], [], []))
    ensures AfterCoverage(Open([e], [], []), c, q) == Some(Open([e], [c], []))
  {
    FirstEntry(e, q);
    QuietCoverage([e], [], [], c, q);
    assert CutAround([], c) + [c] == [c];
  }

  lemma FirstEntry(e: Entry, q: Request)
    requires NoneComplete([e])
    ensures AfterEntry(EMPTY_PLANNER, e, q) == Some(Open([e], [], []))
  {
    assert [] + [e] == [e];
    FreshEntry([], [], [], e, q);
  }

  /** The nested chunk pushes out the long one, and its catalog cuts the old catalog. */
  lemma SecondSteps(a: Entry, b: Entry, j: CoverageEntry, k: CoverageEntry, rest: CoverageEntry, q: Request)
    requires NoneComplete([a, b]) && GivesWay(a, [a], b.generation, b.descriptor.start, b.descriptor.end)
    requires RequestedOverlap(a, q) == [Gone(a)] && Cut(j, k) == [rest]
    requires !k.coverage.complete && b.generation == k.generation > rest.generation
    ensures AfterEntry(Open([a], [j], []), b, q) == Some(Open([b], [j], [Gone(a)]))
    ensures AfterCoverage(Open([b], [j], [Gone(a)]), k, q) == Some(Open([b], [rest, k], [Gone(a)]))
  {
    ReplacingEntry(a, [j], b, q);
    CutOne(j, k);
    assert b in [a, b];
    QuietCoverage([b], [j], [Gone(a)], k, q);
    assert [rest] + [k] == [rest, k];
  }

  lemma ThirdEntry(b: Entry, c: Entry, coverage: seq<CoverageEntry>, gone: seq<Superseded>, q: Request)
    requires NoneComplete([b, c]) && b.descriptor.end < c.descriptor.start
    ensures AfterEntry(Open([b], coverage, gone), c, q) == Some(Open([b, c], coverage, gone))
  {
    assert [b] + [c] == [b, c];
    FreshEntry([b], coverage, gone, c, q);
  }

  lemma CutTwo(rest: CoverageEntry, k: CoverageEntry, l: CoverageEntry)
    requires Cut(rest, l) == [] && Cut(k, l) == [k]
    ensures CutAround([rest, k], l) == [k]
  {
    CutOne(rest, l);
    assert [rest, k][..1] == [rest];
  }

  lemma ThirdCoverage(b: Entry, c: Entry, rest: CoverageEntry, k: CoverageEntry, l: CoverageEntry, gone: seq<Superseded>, q: Request)
    requires NoneComplete([b, c]) && b.descriptor.end < l.coverage.start && c.generation == l.generation
    requires CutAround([rest, k], l) == [k] && k.generation != l.generation && !l.coverage.complete
    ensures AfterCoverage(Open([b, c], [rest, k], gone), l, q) == Some(Open([b, c], [k, l], gone))
  {
    assert [k] + [l] == [k, l];
    QuietCoverage([b, c], [rest, k], gone, l, q);
  }

  /** What is left of the first catalog for a while. */
  function RestOf(j: CoverageEntry, k: CoverageEntry): CoverageEntry
    requires k.coverage.end < U64_MAX
  {
    j.(coverage := j.coverage.(start := k.coverage.end + 1))
  }

  lemma RestIsCut(a: Entry, b: Entry, c: Entry, j: CoverageEntry, k: CoverageEntry, l: CoverageEntry, q: Request)
    requires Nested(a, b, c, j, k, l, q)
    ensures Cut(j, k) == [RestOf(j, k)] && Cut(RestOf(j, k), l) == [] && Cut(k, l) == [k]
    ensures RequestedOverlap(Final(a), q) == [Gone(a)]
    ensures GivesWay(Final(a), [Final(a)], b.generation, b.descriptor.start, b.descriptor.end)
    ensures NoneComplete([Final(a)]) && NoneComplete([Final(a), Final(b)]) && NoneComplete([Final(b), Final(c)])
  {
    assert a in [a, b, c] && b in [a, b, c] && c in [a, b, c];
  }

  lemma FoldsTo(inp: Input, a: Entry, b: Entry, c: Entry, j: CoverageEntry, k: CoverageEntry, l: CoverageEntry, q: Request)
    requires Nested(a, b, c, j, k, l, q) && Generations(inp) == {a.generation, b.generation, c.generation}
    requires ListsOne(inp, a.generation, a, j) && ListsOne(inp, b.generation, b, k) && ListsOne(inp, c.generation, c, l)
    ensures Folded(inp, q) == Some(LastView(a, b, c, k, l))
  {
    RestIsCut(a, b, c, j, k, l, q);
    var p1 := Open([Final(a)], [j], []);
    var p2 := Open([Final(b)], [RestOf(j, k), k], [Gone(a)]);
    FirstSteps(Final(a), j, q);
    GenerationOfOne(EMPTY_PLANNER, Open([Final(a)], [], []), p1, inp, a.generation, a, j, q);
    SecondSteps(Final(a), Final(b), j, k, RestOf(j, k), q);
    GenerationOfOne(p1, Open([Final(b)], [j], [Gone(a)]), p2, inp, b.generation, b, k, q);
    ThirdEntry(Final(b), Final(c), [RestOf(j, k), k], [Gone(a)], q);
    CutTwo(RestOf(j, k), k, l);
    ThirdCoverage(Final(b), Final(c), RestOf(j, k), k, l, [Gone(a)], q);
    GenerationOfOne(p2, Open([Final(b), Final(c)], [RestOf(j, k), k], [Gone(a)]), LastView(a, b, c, k, l), inp, c.generation, c, l, q);
    ThreeAscend(a.generation, b.generation, c.generation);
    ThreeGenerations(inp, q, a.generation, b.generation, c.generation, p1, p2, LastView(a, b, c, k, l));
  }

  // ---- The refusal ----

  /** The four candidates in order: the nested chunk comes second, and whichever is third
      starts after the end of the first. */
  function InOrder(b: (U64, U64), c: (U64, U64), k: (U64, U64), l: (U64, U64)): seq<(U64, U64)> {
    if LexLeq(PairKey(l), PairKey(c)) then [k, b, l, c] else [k, b, c, l]
  }

  lemma StartDecides(x: (U64, U64), y: (U64, U64))
    requires x.0 < y.0
    ensures LexLeq(PairKey(x), PairKey(y))
  {
    assert PairKey(x)[0] < PairKey(y)[0];
  }

  lemma FourAscend(w: (U64, U64), x: (U64, U64), y: (U64, U64), z: (U64, U64))
    requires w.0 < x.0 < y.0 && x.0 < z.0 && LexLeq(PairKey(y), PairKey(z))
    ensures SortedBy([w, x, y, z], PairKey)
  {
    StartDecides(w, x);
    StartDecides(w, y);
    StartDecides(w, z);
    StartDecides(x, y);
    StartDecides(x, z);
  }

  lemma OnlyOrder(ranges: seq<(U64, U64)>, sorted: seq<(U64, U64)>)
    requires multiset(sorted) == multiset(ranges) && SortedBy(sorted, PairKey)
    ensures SortBy(ranges, PairKey) == sorted
  {
    PairsIdentify(sorted);
    SortedUnique(sorted, SortBy(ranges, PairKey), PairKey);
  }

  lemma FourInAll<T>(w: T, x: T, y: T, z: T)
    ensures multiset([w, x, y, z]) == multiset{w} + multiset{x} + multiset{y} + multiset{z}
  {
    assert [w, x, y, z] == [w, x, y] + [z] && [w, x, y] == [w, x] + [y] && [w, x] == [w] + [x];
  }

  lemma SameFour<T>(b: T, c: T, k: T, l: T)
    ensures multiset([k, b, l, c]) == multiset([b, c, k, l]) && multiset([k, b, c, l]) == multiset([b, c, k, l])
  {
    FourInAll(k, b, l, c);
    FourInAll(k, b, c, l);
    FourInAll(b, c, k, l);
    Reordered(multiset{b}, multiset{c}, multiset{k}, multiset{l});
  }

  lemma Reordered<T>(b: multiset<T>, c: multiset<T>, k: multiset<T>, l: multiset<T>)
    ensures k + b + l + c == b + c + k + l && k + b + c + l == b + c + k + l
  {
  }

  lemma SortedInOrder(b: (U64, U64), c: (U64, U64), k: (U64, U64), l: (U64, U64))
    requires k.0 < b.0 < l.0 <= c.0
    ensures SortBy([b, c, k, l], PairKey) == InOrder(b, c, k, l)
  {
    SameFour(b, c, k, l);
    LexTotal(PairKey(l), PairKey(c));
    if LexLeq(PairKey(l), PairKey(c)) {
      FourAscend(k, b, l, c);
      OnlyOrder([b, c, k, l], [k, b, l, c]);
    } else {
      FourAscend(k, b, c, l);
      OnlyOrder([b, c, k, l], [k, b, c, l]);
    }
  }

  lemma PairsIdentify(ranges: seq<(U64, U64)>)
    ensures KeysIdentify(ranges, PairKey)
  {
    forall i, j | 0 <= i < |ranges| && 0 <= j < |ranges| && PairKey(ranges[i]) == PairKey(ranges[j])
      ensures ranges[i] == ranges[j]
    {
      assert PairKey(ranges[i])[0] == PairKey(ranges[j])[0] && PairKey(ranges[i])[1] == PairKey(ranges[j])[1];
    }
  }

  lemma OrderBreaks(b: (U64, U64), c: (U64, U64), k: (U64, U64), l: (U64, U64), end: U64)
    requires k.1 < end && b.1 < end && b.1 + 1 < l.0 <= c.0
    ensures !Unbroken(InOrder(b, c, k, l), end)
  {
    var ranges := InOrder(b, c, k, l);
    assert StillShort(ranges, 1 + 1, end) && ranges[1 + 1].0 > ranges[1].1 + 1;
  }

  lemma LastCandidates(s: Superseded, b: Entry, c: Entry, k: CoverageEntry, l: CoverageEntry)
    requires s.generation < k.generation && s.generation < l.generation
    requires b.descriptor.start <= s.end && s.start <= b.descriptor.end && c.descriptor.start <= s.end && s.start <= c.descriptor.end
    requires k.coverage.start <= s.end && s.start <= k.coverage.end && l.coverage.start <= s.end && s.start <= l.coverage.end
    ensures Candidates(s, [b, c], [k, l])
         == [Span(b), Span(c), (k.coverage.start, k.coverage.end), (l.coverage.start, l.coverage.end)]
  {
    assert [b, c][..1] == [b] && [b][..0] == [] && [k, l][..1] == [k] && [k][..0] == [];
    assert ChunkRanges(s, [b]) == [Span(b)];
    assert ChunkRanges(s, [b, c]) == [Span(b), Span(c)];
    assert NewerRanges(s, [k]) == [(k.coverage.start, k.coverage.end)];
    assert NewerRanges(s, [k, l]) == [(k.coverage.start, k.coverage.end), (l.coverage.start, l.coverage.end)];
  }

  function Span(e: Entry): (U64, U64) {
    (e.descriptor.start, e.descriptor.end)
  }

  lemma BrokenIsUncovered(s: Superseded, current: seq<Entry>, coverage: seq<CoverageEntry>, ranges: seq<(U64, U64)>)
    requires s.start <= s.end && SortBy(Candidates(s, current, coverage), PairKey) == ranges && !Unbroken(ranges, s.end)
    ensures !IsCovered(s, current, coverage)
  {
    CoveredExactly(s, current, coverage);
  }

  lemma LastViewBreaks(a: Entry, b: Entry, c: Entry, j: CoverageEntry, k: CoverageEntry, l: CoverageEntry, q: Request)
    requires Nested(a, b, c, j, k, l, q)
    ensures !IsCovered(Gone(a), [Final(b), Final(c)], [k, l])
  {
    var (kr, lr) := ((k.coverage.start, k.coverage.end), (l.coverage.start, l.coverage.end));
    LastCandidates(Gone(a), Final(b), Final(c), k, l);
    SortedInOrder(Span(b), Span(c), kr, lr);
    OrderBreaks(Span(b), Span(c), kr, lr, a.descriptor.end);
    BrokenIsUncovered(Gone(a), [Final(b), Final(c)], [k, l], InOrder(Span(b), Span(c), kr, lr));
  }

  lemma UncoveredIsRefused(inp: Input, q: Request, p: Planner, s: Superseded, current: seq<Entry>, coverage: seq<CoverageEntry>)
    requires Folded(inp, q) == Some(p) && s in p.superseded
    requires SortBy(p.current, PlanKey) == current && SortBy(p.coverage, CoverageKey) == coverage
    requires !IsCovered(s, current, coverage)
    ensures PlanStream(inp, q) == None
  {
  }

  lemma CatalogsCover(k: CoverageEntry, l: CoverageEntry, g: U64, x: int)
    requires k.generation > g && l.generation > g && k.coverage.start <= x <= l.coverage.end
    requires k.coverage.end + 1 == l.coverage.start
    ensures FoundNewer([], [k, l], g, x)
  {
    var cs := [k, l];
    assert cs[0].Covers(x) || cs[1].Covers(x);
  }

  /** Whenever chunks are relisted like this the nested chunk pulls the sweep back, and the
      plan is refused for a gap although newer catalogs alone cover the whole range. */
  lemma RefusedWithoutHole(inp: Input, a: Entry, b: Entry, c: Entry, j: CoverageEntry, k: CoverageEntry, l: CoverageEntry, q: Request)
    requires Nested(a, b, c, j, k, l, q) && Generations(inp) == {a.generation, b.generation, c.generation}
    requires ListsOne(inp, a.generation, a, j) && ListsOne(inp, b.generation, b, k) && ListsOne(inp, c.generation, c, l)
    ensures Folded(inp, q) == Some(LastView(a, b, c, k, l)) && LastView(a, b, c, k, l).superseded == [Gone(a)]
    ensures forall x :: a.descriptor.start <= x <= a.descriptor.end ==> FoundNewer([], [k, l], a.generation, x)
    ensures PlanStream(inp, q) == None
  {
    forall x | a.descriptor.start <= x <= a.descriptor.end ensures FoundNewer([], [k, l], a.generation, x) {
      CatalogsCover(k, l, a.generation, x);
    }
    FoldsTo(inp, a, b, c, j, k, l, q);
    TwoAreSorted(Final(b), Final(c), PlanKey);
    TwoAreSorted(k, l, CoverageKey);
    LastViewBreaks(a, b, c, j, k, l, q);
    UncoveredIsRefused(inp, q, LastView(a, b, c, k, l), Gone(a), [Final(b), Final(c)], [k, l]);
  }

  /** Every such family of chunks and catalogs can be listed. */
  lemma NestedIsListed(a: Entry, b: Entry, c: Entry, j: CoverageEntry, k: CoverageEntry, l: CoverageEntry, q: Request)
    requires Nested(a, b, c, j, k, l, q)
    ensures var inp := Input([a, b, c], [j, k, l], []);
            && Generations(inp) == {a.generation, b.generation, c.generation}
            && ListsOne(inp, a.generation, a, j) && ListsOne(inp, b.generation, b, k) && ListsOne(inp, c.generation, c, l)
  {
    OneEntryEach(a, b, c);
    OneCatalogEach(j, k, l);
    ThreeListed(a, b, c, j, k, l);
  }

  lemma ThreeListed(a: Entry, b: Entry, c: Entry, j: CoverageEntry, k: CoverageEntry, l: CoverageEntry)
    requires a.generation == j.generation && b.generation == k.generation && c.generation == l.generation
    ensures Generations(Input([a, b, c], [j, k, l], [])) == {a.generation, b.generation, c.generation}
  {
    var es := [a, b, c];
    assert es[0] == a && es[1] == b && es[2] == c;
  }

  lemma OneEntryEach(a: Entry, b: Entry, c: Entry)
    requires a.generation < b.generation < c.generation
    ensures EntriesOf([a, b, c], a.generation) == [a] && EntriesOf([a, b, c], b.generation) == [b]
    ensures EntriesOf([a, b, c], c.generation) == [c]
  {
    PickEntries(a, b, c, a.generation);
    PickEntries(a, b, c, b.generation);
    PickEntries(a, b, c, c.generation);
  }

  lemma OneCatalogEach(a: CoverageEntry, b: CoverageEntry, c: CoverageEntry)
    requires a.generation < b.generation < c.generation
    ensures CoverageOf([a, b, c], a.generation) == [a] && CoverageOf([a, b, c], b.generation) == [b]
    ensures CoverageOf([a, b, c], c.generation) == [c]
  {
    PickCoverage(a, b, c, a.generation);
    PickCoverage(a, b, c, b.generation);
    PickCoverage(a, b, c, c.generation);
  }

  lemma PickEntries(a: Entry, b: Entry, c: Entry, g: U64)
    ensures EntriesOf([a, b, c], g)
         == (if a.generation == g then [a] else []) + (if b.generation == g then [b] else [])
          + (if c.generation == g then [c] else [])
  {
    assert [a, b, c][..2] == [a, b] && [a, b][..1] == [a] && [a][..0] == [];
    assert EntriesOf([a], g) == if a.generation == g then [a] else [];
    assert EntriesOf([a, b], g) == EntriesOf([a], g) + if b.generation == g then [b] else [];
  }

  lemma PickCoverage(a: CoverageEntry, b: CoverageEntry, c: CoverageEntry, g: U64)
    ensures CoverageOf([a, b, c], g)
         == (if a.generation == g then [a] else []) + (if b.generation == g then [b] else [])
          + (if c.generation == g then [c] else [])
  {
    assert [a, b, c][..2] == [a, b] && [a, b][..1] == [a] && [a][..0] == [];
    assert CoverageOf([a], g) == if a.generation == g then [a] else [];
    assert CoverageOf([a, b], g) == CoverageOf([a], g) + if b.generation == g then [b] else [];
  }
}
