/** A stream's plan depends on what is listed, never on the order it is listed in. */
module StreamOrder {
  import opened Common
  import opened OrderedSets
  import opened Sorting
  import opened StreamModel
  import opened StreamPlan

  /** The same chunks, catalogs and boundaries, in any order. */
  predicate SameListing(inp: Input, inp': Input) {
    && multiset(inp.entries) == multiset(inp'.entries)
    && multiset(inp.coverage) == multiset(inp'.coverage)
    && multiset(inp.boundaries) == multiset(inp'.boundaries)
  }

  lemma SameMembers<T>(a: seq<T>, b: seq<T>)
    requires multiset(a) == multiset(b)
    ensures forall x :: x in a <==> x in b
  {
    forall x ensures x in a <==> x in b {
      assert x in a <==> x in multiset(a);
      assert x in b <==> x in multiset(b);
    }
  }

  // ---- Neighbours apart means all apart ----

  lemma DescriptorKeyStart(d: Descriptor)
    ensures DescriptorKey(d) != [] && DescriptorKey(d)[0] == d.start
  {
  }

  /** Each chunk starts no later than the next. */
  predicate StartsAscend(es: seq<Entry>) {
    forall i :: 0 <= i < |es| - 1 ==> es[i].descriptor.start <= es[i + 1].descriptor.start
  }

  lemma SortedStarts(es: seq<Entry>)
    requires SortedBy(es, EntryKey)
    ensures StartsAscend(es)
  {
    forall i | 0 <= i < |es| - 1 ensures es[i].descriptor.start <= es[i + 1].descriptor.start {
      DescriptorKeyStart(es[i].descriptor);
      DescriptorKeyStart(es[i + 1].descriptor);
      assert LexLeq(EntryKey(es[i]), EntryKey(es[i + 1]));
    }
  }

  lemma {:induction false} ApartUpTo(es: seq<Entry>, i: nat, j: nat)
    requires StartsAscend(es) && AdjacentApart(es) && i < j < |es|
    requires forall k :: 0 <= k < |es| ==> ValidRange(es[k])
    ensures es[i].descriptor.end < es[j].descriptor.start
    decreases j
  {
    var k := j - 1;
    assert es[k].descriptor.start <= es[k + 1].descriptor.start;
    assert !es[k].Hits(es[k + 1].descriptor.start, es[k + 1].descriptor.end);
    if i < k {
      ApartUpTo(es, i, k);
    }
  }

  /** Checking neighbours of a sorted generation finds every overlap. */
  lemma AdjacentIsPairwise(es: seq<Entry>)
    requires SortedBy(es, EntryKey) && forall k :: 0 <= k < |es| ==> ValidRange(es[k])
    ensures AdjacentApart(es) <==> Disjoint(es)
  {
    if AdjacentApart(es) {
      SortedStarts(es);
      forall i, j | 0 <= i < j < |es| ensures !es[i].Hits(es[j].descriptor.start, es[j].descriptor.end) {
        ApartUpTo(es, i, j);
      }
    }
  }

  lemma {:induction false} CoverageApartUpTo(cs: seq<CoverageEntry>, i: nat, j: nat)
    requires SortedBy(cs, CoverageKey) && AdjacentCoverageApart(cs) && i < j < |cs|
    requires forall k :: 0 <= k < |cs| ==> ValidCoverage(cs[k])
    ensures cs[i].coverage.end < cs[j].coverage.start
    decreases j
  {
    assert LexLeq(CoverageKey(cs[j - 1]), CoverageKey(cs[j]));
    assert !cs[j - 1].Hits(cs[j].coverage.start, cs[j].coverage.end);
    if i < j - 1 {
      CoverageApartUpTo(cs, i, j - 1);
    }
  }

  lemma AdjacentCoverageIsPairwise(cs: seq<CoverageEntry>)
    requires SortedBy(cs, CoverageKey) && forall k :: 0 <= k < |cs| ==> ValidCoverage(cs[k])
    ensures AdjacentCoverageApart(cs) <==> DisjointCoverage(cs)
  {
    if AdjacentCoverageApart(cs) {
      forall i, j | 0 <= i < j < |cs| ensures !cs[i].Hits(cs[j].coverage.start, cs[j].coverage.end) {
        CoverageApartUpTo(cs, i, j);
      }
    }
  }

  // ---- One generation, two orders ----

  lemma {:induction false} EntriesOfBag(es: seq<Entry>, g: U64, e: Entry)
    ensures multiset(EntriesOf(es, g))[e] == if e.generation == g then multiset(es)[e] else 0
    decreases |es|
  {
    if es != [] {
      var n := |es| - 1;
      EntriesOfBag(es[..n], g, e);
      assert es == es[..n] + [es[n]];
    }
  }

  lemma {:induction false} CoverageOfBag(cs: seq<CoverageEntry>, g: U64, c: CoverageEntry)
    ensures multiset(CoverageOf(cs, g))[c] == if c.generation == g then multiset(cs)[c] else 0
    decreases |cs|
  {
    if cs != [] {
      var n := |cs| - 1;
      CoverageOfBag(cs[..n], g, c);
      assert cs == cs[..n] + [cs[n]];
    }
  }

  lemma DisjointKeysIdentify(es: seq<Entry>)
    requires Disjoint(es)
    ensures KeysIdentify(es, EntryKey)
  {
    forall i, j | 0 <= i < j < |es| ensures EntryKey(es[i]) != EntryKey(es[j]) {
      DescriptorKeyStart(es[i].descriptor);
      DescriptorKeyStart(es[j].descriptor);
      assert !es[i].Hits(es[j].descriptor.start, es[j].descriptor.end);
    }
  }

  lemma DisjointCoverageKeysIdentify(cs: seq<CoverageEntry>)
    requires DisjointCoverage(cs)
    ensures KeysIdentify(cs, CoverageKey)
  {
    forall i, j | 0 <= i < j < |cs| ensures CoverageKey(cs[i]) != CoverageKey(cs[j]) {
      assert CoverageKey(cs[i])[0] == cs[i].coverage.start && CoverageKey(cs[j])[0] == cs[j].coverage.start;
      assert !cs[i].Hits(cs[j].coverage.start, cs[j].coverage.end);
    }
  }

  /** Sorting keeps every element. */
  lemma SortedHas<T>(s: seq<T>, key: T -> seq<int>, x: T)
    ensures x in SortBy(s, key) <==> x in s
  {
    assert x in s <==> x in multiset(s);
    assert x in SortBy(s, key) <==> x in multiset(SortBy(s, key));
  }

  lemma ValidSortedEntries(inp: Input, g: U64)
    requires ValidInput(inp)
    ensures forall k :: 0 <= k < |SortedEntries(inp, g)| ==>
              ValidRange(SortedEntries(inp, g)[k]) && SortedEntries(inp, g)[k] in inp.entries
              && SortedEntries(inp, g)[k].generation == g
  {
    var es := SortedEntries(inp, g);
    forall k | 0 <= k < |es| ensures ValidRange(es[k]) && es[k] in inp.entries && es[k].generation == g {
      SortedHas(EntriesOf(inp.entries, g), EntryKey, es[k]);
    }
  }

  lemma ValidSortedCoverage(inp: Input, g: U64)
    requires ValidInput(inp)
    ensures forall k :: 0 <= k < |SortedCoverage(inp, g)| ==>
              ValidCoverage(SortedCoverage(inp, g)[k]) && SortedCoverage(inp, g)[k] in inp.coverage
              && SortedCoverage(inp, g)[k].generation == g
  {
    var cs := SortedCoverage(inp, g);
    forall k | 0 <= k < |cs| ensures ValidCoverage(cs[k]) && cs[k] in inp.coverage && cs[k].generation == g {
      SortedHas(CoverageOf(inp.coverage, g), CoverageKey, cs[k]);
    }
  }

  /** A generation that passes validation in one order is listed the same in both. */
  lemma SameSortedEntries(inp: Input, inp': Input, g: U64)
    requires ValidInput(inp) && SameListing(inp, inp') && AdjacentApart(SortedEntries(inp, g))
    ensures SortedEntries(inp, g) == SortedEntries(inp', g)
  {
    var a, b := SortedEntries(inp, g), SortedEntries(inp', g);
    forall e ensures multiset(a)[e] == multiset(b)[e] {
      EntriesOfBag(inp.entries, g, e);
      EntriesOfBag(inp'.entries, g, e);
    }
    assert multiset(a) == multiset(b);
    ValidSortedEntries(inp, g);
    AdjacentIsPairwise(a);
    DisjointKeysIdentify(a);
    SortedUnique(a, b, EntryKey);
  }

  lemma SameSortedCoverage(inp: Input, inp': Input, g: U64)
    requires ValidInput(inp) && SameListing(inp, inp') && AdjacentCoverageApart(SortedCoverage(inp, g))
    ensures SortedCoverage(inp, g) == SortedCoverage(inp', g)
  {
    var a, b := SortedCoverage(inp, g), SortedCoverage(inp', g);
    forall c ensures multiset(a)[c] == multiset(b)[c] {
      CoverageOfBag(inp.coverage, g, c);
      CoverageOfBag(inp'.coverage, g, c);
    }
    assert multiset(a) == multiset(b);
    ValidSortedCoverage(inp, g);
    AdjacentCoverageIsPairwise(a);
    DisjointCoverageKeysIdentify(a);
    SortedUnique(a, b, CoverageKey);
  }

  lemma ListingIsSymmetric(inp: Input, inp': Input)
    requires ValidInput(inp) && SameListing(inp, inp')
    ensures ValidInput(inp') && SameListing(inp', inp)
  {
    SameMembers(inp.entries, inp'.entries);
    SameMembers(inp.coverage, inp'.coverage);
  }

  lemma SameMarkFinal(es: seq<Entry>, g: U64, bs: seq<Boundary>, bs': seq<Boundary>)
    requires multiset(bs) == multiset(bs')
    ensures MarkFinal(es, g, bs) == MarkFinal(es, g, bs')
  {
    SameMembers(bs, bs');
  }

  lemma SameGeneration(p: Planner, inp: Input, inp': Input, g: U64, q: Request)
    requires ValidInput(inp) && SameListing(inp, inp')
    ensures AfterGeneration(p, inp, g, q) == AfterGeneration(p, inp', g, q)
  {
    ListingIsSymmetric(inp, inp');
    if AdjacentApart(SortedEntries(inp, g)) { SameSortedEntries(inp, inp', g); }
    else if AdjacentApart(SortedEntries(inp', g)) { SameSortedEntries(inp', inp, g); }
    if AdjacentCoverageApart(SortedCoverage(inp, g)) { SameSortedCoverage(inp, inp', g); }
    else if AdjacentCoverageApart(SortedCoverage(inp', g)) { SameSortedCoverage(inp', inp, g); }
    SameMarkFinal(SortedEntries(inp, g), g, inp.boundaries, inp'.boundaries);
  }

  // ---- Whole plans ----

  lemma {:induction false} SameGenerations(p: Planner, inp: Input, inp': Input, gens: seq<U64>, q: Request)
    requires ValidInput(inp) && SameListing(inp, inp')
    ensures AfterGenerations(p, inp, gens, q) == AfterGenerations(p, inp', gens, q)
    decreases |gens|
  {
    if gens != [] {
      SameGeneration(p, inp, inp', gens[0], q);
      var next := AfterGeneration(p, inp, gens[0], q);
      if next.Some? { SameGenerations(next.value, inp, inp', gens[1..], q); }
    }
  }

  /** Rearranging a stream's chunks, catalogs and boundaries never changes its plan or
      whether there is one. */
  lemma PlanIgnoresOrder(inp: Input, inp': Input, q: Request)
    requires ValidInput(inp) && SameListing(inp, inp')
    ensures PlanStream(inp, q) == PlanStream(inp', q)
  {
    SameMembers(inp.entries, inp'.entries);
    SameMembers(inp.coverage, inp'.coverage);
    assert Generations(inp) == Generations(inp');
    SameGenerations(EMPTY_PLANNER, inp, inp', Ascending(Generations(inp)), q);
  }
}
