/** What a finished plan lists, and which chunk of a generation is final: exactly, over the
    ranges and flags of the chunks. */
module StreamListing {
  import opened Common
  import opened OrderedSets
  import opened Sorting
  import opened StreamComplete
  import opened StreamFold
  import opened StreamModel
  import opened StreamOrder
  import opened StreamPlan
  import opened StreamSafety
  import opened StreamShape

  // ---- One generation ----

  /** No two chunks of one generation meet, and none is listed twice. */
  lemma GenerationIsApart(p: Planner, inp: Input, q: Request, g: U64, i: nat, j: nat)
    requires ValidInput(inp) && AfterGeneration(p, inp, g, q).Some?
    requires i < j < |inp.entries| && inp.entries[i].generation == inp.entries[j].generation == g
    ensures !Meets(inp.entries[i].descriptor, inp.entries[j].descriptor)
  {
    var es := SortedEntries(inp, g);
    ValidSortedEntries(inp, g);
    AdjacentIsPairwise(es);
    DisjointAnyOrder(es, EntriesOf(inp.entries, g));
    var k, m := PlacesOf(inp.entries, g, i, j);
    var own := EntriesOf(inp.entries, g);
    assert !own[k].Hits(own[m].descriptor.start, own[m].descriptor.end);
    assert ValidRange(own[k]) && ValidRange(own[m]);
  }

  lemma {:induction false} PlacesOf(es: seq<Entry>, g: U64, i: nat, j: nat) returns (k: nat, m: nat)
    requires i < j < |es| && es[i].generation == es[j].generation == g
    ensures k < m < |EntriesOf(es, g)| && EntriesOf(es, g)[k] == es[i] && EntriesOf(es, g)[m] == es[j]
    decreases |es|
  {
    var n := |es| - 1;
    EntriesOfLonger(es[..n], es[n], g, es);
    if j < n {
      k, m := PlacesOf(es[..n], g, i, j);
    } else {
      k := PlaceOf(es[..n], g, i);
      m := |EntriesOf(es[..n], g)|;
    }
  }

  lemma EntriesOfLonger(init: seq<Entry>, e: Entry, g: U64, es: seq<Entry>)
    requires es == init + [e]
    ensures EntriesOf(es, g) == EntriesOf(init, g) + (if e.generation == g then [e] else [])
  {
    assert es[..|es| - 1] == init;
  }

  lemma {:induction false} PlaceOf(es: seq<Entry>, g: U64, i: nat) returns (k: nat)
    requires i < |es| && es[i].generation == g
    ensures k < |EntriesOf(es, g)| && EntriesOf(es, g)[k] == es[i]
    decreases |es|
  {
    var n := |es| - 1;
    if i < n { k := PlaceOf(es[..n], g, i); } else { k := |EntriesOf(es[..n], g)|; }
  }

  /** No chunk of the generation starts after the chunk. */
  predicate StartsLast(inp: Input, e: Entry) {
    forall x :: x in inp.entries && x.generation == e.generation ==> x.descriptor.start <= e.descriptor.start
  }

  lemma StartsLastExactly(inp: Input, g: U64, i: nat)
    requires ValidInput(inp) && AdjacentApart(SortedEntries(inp, g)) && i < |SortedEntries(inp, g)|
    ensures StartsLast(inp, SortedEntries(inp, g)[i]) <==> i == |SortedEntries(inp, g)| - 1
  {
    var es := SortedEntries(inp, g);
    var n := |es| - 1;
    ValidSortedEntries(inp, g);
    SortedStarts(es);
    if i < n {
      ApartUpTo(es, i, n);
      assert es[n] in inp.entries && es[n].descriptor.start > es[i].descriptor.start;
    } else {
      forall x | x in inp.entries && x.generation == g ensures x.descriptor.start <= es[n].descriptor.start {
        var k := SortedHoldsEntry(inp, g, x);
        if k < n { ApartUpTo(es, k, n); }
      }
    }
  }

  lemma MarkedExactly(es: seq<Entry>, g: U64, bs: seq<Boundary>, i: nat)
    requires i < |es| && !es[i].final
    ensures i < |MarkFinal(es, g, bs)|
    ensures MarkFinal(es, g, bs)[i].final <==>
      i == |es| - 1 && forall b :: b in bs && b.generation == g ==> b.start <= es[i].descriptor.end
  {
  }

  /** A chunk is final exactly when no chunk of its generation starts after it and no catalog
      of its generation starts after its end. */
  lemma FinalExactly(inp: Input, g: U64, i: nat)
    requires ValidInput(inp) && AdjacentApart(SortedEntries(inp, g)) && i < |SortedEntries(inp, g)|
    ensures i < |Marks(inp, g)|
    ensures var e := SortedEntries(inp, g)[i];
            Marks(inp, g)[i].final <==>
              StartsLast(inp, e) && forall b :: b in inp.boundaries && b.generation == g ==> b.start <= e.descriptor.end
  {
    ValidSortedEntries(inp, g);
    StartsLastExactly(inp, g, i);
    MarkedExactly(SortedEntries(inp, g), g, inp.boundaries, i);
  }

  // ---- What is recorded of a removed chunk ----

  /** Of a chunk that gives way, exactly the requested indexes have to be covered anew. */
  lemma OverlapExactly(x: Entry, q: Request, i: U64)
    requires ValidRange(x) && q.start <= q.end
    ensures (exists s :: s in RequestedOverlap(x, q) && s.start <= i <= s.end) <==>
      x.descriptor.start <= i <= x.descriptor.end && q.start <= i <= q.end
    ensures forall s :: s in RequestedOverlap(x, q) ==> s.generation == x.generation
  {
    if x.Hits(q.start, q.end) {
      assert RequestedOverlap(x, q)[0] in RequestedOverlap(x, q);
    }
  }

  // ---- What a plan lists ----

  predicate InRequest(start: U64, end: U64, q: Request) {
    start <= end && q.start <= q.end && start <= q.end && q.start <= end
  }

  /** The chunk is sealed or complete, was not the last of its generation, or something
      current lies after it. */
  predicate Settled(y: Entry, current: seq<Entry>) {
    !y.final || y.descriptor.sealed || y.descriptor.complete
    || exists z :: z in current && y.descriptor.end < z.descriptor.start
  }

  predicate PlannedFrom(d: Planned, y: Entry, current: seq<Entry>, q: Request) {
    && y in current && InRequest(y.descriptor.start, y.descriptor.end, q)
    && d == Planned(y.descriptor, if Settled(y, current) then CurrentStable else CurrentTransient)
  }

  /** A chunk before the request is kept when it is sealed, complete or not final, or when
      something newer lies after it. */
  predicate RetainedFrom(d: Planned, y: Entry, current: seq<Entry>, q: Request) {
    && y in current && y.descriptor.end < q.start && !InRequest(y.descriptor.start, y.descriptor.end, q)
    && d == Planned(y.descriptor, OptionalPriorTail)
    && (!y.final || y.descriptor.sealed || y.descriptor.complete
        || exists z :: z in current && z.generation > y.generation && y.descriptor.end < z.descriptor.start)
  }

  predicate CoveredFrom(c: Coverage, y: Entry, current: seq<Entry>, q: Request) {
    && y in current && InRequest(y.descriptor.start, y.descriptor.end, q)
    && c.start == y.descriptor.start && c.end == y.descriptor.end && c.complete == y.descriptor.complete
    && c.checkpoint == y.descriptor.content.checkpointBlock && c.catalogGeneration == y.descriptor.generation
    && c.partition == y.descriptor.partition
  }

  predicate CatalogFrom(c: Coverage, k: CoverageEntry, coverage: seq<CoverageEntry>, q: Request) {
    k in coverage && InRequest(k.coverage.start, k.coverage.end, q) && c == k.coverage
  }

  lemma SameSettled(y: Entry, current: seq<Entry>, sorted: seq<Entry>)
    requires forall z :: z in current <==> z in sorted
    ensures Settled(y, current) <==> y.IsStable(sorted)
  {
  }

  lemma {:induction false} RequiredExactly(es: seq<Entry>, current: seq<Entry>, q: Request, d: Planned)
    ensures d in RequiredChunks(es, current, q) <==>
      exists y :: y in es && y.Hits(q.start, q.end)
        && d == Planned(y.descriptor, if y.IsStable(current) then CurrentStable else CurrentTransient)
    decreases |es|
  {
    if es != [] {
      var n := |es| - 1;
      RequiredExactly(es[..n], current, q, d);
      assert es == es[..n] + [es[n]];
    }
  }

  lemma {:induction false} TailsExactly(es: seq<Entry>, current: seq<Entry>, q: Request, d: Planned)
    ensures d in PriorTails(es, current, q) <==>
      exists y :: y in es && !y.Hits(q.start, q.end) && y.descriptor.end < q.start && IsRetainable(y, current)
        && d == Planned(y.descriptor, OptionalPriorTail)
    decreases |es|
  {
    if es != [] {
      var n := |es| - 1;
      TailsExactly(es[..n], current, q, d);
      assert es == es[..n] + [es[n]];
    }
  }

  lemma {:induction false} ChunkCoverageExactly(es: seq<Entry>, q: Request, c: Coverage)
    ensures c in ChunkCoverage(es, q) <==> exists y :: y in es && y.Hits(q.start, q.end) && c == CoverageFrom(y.descriptor)
    decreases |es|
  {
    if es != [] {
      var n := |es| - 1;
      ChunkCoverageExactly(es[..n], q, c);
      assert es == es[..n] + [es[n]];
    }
  }

  lemma {:induction false} CatalogCoverageExactly(cs: seq<CoverageEntry>, q: Request, c: Coverage)
    ensures c in CatalogCoverage(cs, q) <==> exists k :: k in cs && k.Hits(q.start, q.end) && c == k.coverage
    decreases |cs|
  {
    if cs != [] {
      var n := |cs| - 1;
      CatalogCoverageExactly(cs[..n], q, c);
      assert cs == cs[..n] + [cs[n]];
    }
  }

  /** A plan requires exactly the current chunks that meet the request. */
  lemma ChunksExactly(p: Planner, q: Request, d: Planned)
    requires Finish(p, q).Some?
    ensures d in Finish(p, q).value.chunks <==> exists y :: PlannedFrom(d, y, p.current, q)
  {
    var sorted := SortBy(p.current, PlanKey);
    SameMembers(sorted, p.current);
    RequiredExactly(sorted, sorted, q, d);
    forall y ensures Settled(y, p.current) <==> y.IsStable(sorted) {
      SameSettled(y, p.current, sorted);
    }
    if d in RequiredChunks(sorted, sorted, q) {
      var y :| y in sorted && y.Hits(q.start, q.end)
        && d == Planned(y.descriptor, if y.IsStable(sorted) then CurrentStable else CurrentTransient);
      assert PlannedFrom(d, y, p.current, q);
    }
  }

  /** It keeps exactly the retainable chunks before the request. */
  lemma PriorTailsExactly(p: Planner, q: Request, d: Planned)
    requires Finish(p, q).Some?
    ensures d in Finish(p, q).value.priorTails <==> exists y :: RetainedFrom(d, y, p.current, q)
  {
    var sorted := SortBy(p.current, PlanKey);
    SameMembers(sorted, p.current);
    TailsExactly(sorted, sorted, q, d);
    if d in PriorTails(sorted, sorted, q) {
      var y :| y in sorted && !y.Hits(q.start, q.end) && y.descriptor.end < q.start && IsRetainable(y, sorted)
        && d == Planned(y.descriptor, OptionalPriorTail);
      assert RetainedFrom(d, y, p.current, q);
    }
    if exists y :: RetainedFrom(d, y, p.current, q) {
      var y :| RetainedFrom(d, y, p.current, q);
      assert y in sorted && IsRetainable(y, sorted);
    }
  }

  /** It states exactly the coverage of those chunks and of the catalogs that meet the
      request. */
  lemma CoverageListedExactly(p: Planner, q: Request, c: Coverage)
    requires Finish(p, q).Some?
    ensures c in Finish(p, q).value.coverage <==>
      (exists y :: CoveredFrom(c, y, p.current, q)) || (exists k :: CatalogFrom(c, k, p.coverage, q))
  {
    var sorted, catalogs := SortBy(p.current, PlanKey), SortBy(p.coverage, CoverageKey);
    SameMembers(sorted, p.current);
    SameMembers(catalogs, p.coverage);
    ChunkCoverageExactly(sorted, q, c);
    CatalogCoverageExactly(catalogs, q, c);
    if c in ChunkCoverage(sorted, q) {
      var y :| y in sorted && y.Hits(q.start, q.end) && c == CoverageFrom(y.descriptor);
      assert CoveredFrom(c, y, p.current, q);
    }
    if c in CatalogCoverage(catalogs, q) {
      var k :| k in catalogs && k.Hits(q.start, q.end) && c == k.coverage;
      assert CatalogFrom(c, k, p.coverage, q);
    }
    if exists y :: CoveredFrom(c, y, p.current, q) {
      var y :| CoveredFrom(c, y, p.current, q);
      assert y in sorted && y.Hits(q.start, q.end) && c == CoverageFrom(y.descriptor);
    }
    if exists k :: CatalogFrom(c, k, p.coverage, q) {
      var k :| CatalogFrom(c, k, p.coverage, q);
      assert k in catalogs && k.Hits(q.start, q.end) && c == k.coverage;
    }
  }
}
