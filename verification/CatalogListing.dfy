/** What each stream is made of and what the merged plan holds: exactly, over the listed
    catalogs, chunks and context descriptors. */
module CatalogListing {
  import opened ArtifactKinds
  import opened Common
  import opened Sorting
  import opened StreamCatalogs
  import opened StreamModel
  import opened StreamOrder
  import opened StreamPlan

  // ---- Which stream a listing takes part in ----

  /** The partition that tells streams apart; wallet scans by block have none. */
  predicate HasStream(l: Listing, key: Option<string>) {
    if l.target.dataset == WalletScan && l.target.kind == Block then key == None else key == l.descriptor.partition
  }

  /** The listing is about what is asked for, in a partition the request accepts. */
  predicate TakesPart(l: Listing, r: PlanRequest, key: Option<string>) {
    && l.target.dataset == r.target.dataset && l.target.chainId == r.target.chainId
    && l.target.contract == r.target.contract && l.target.kind == r.target.kind
    && HasStream(l, key)
    && (r.policy == Ignore || r.policy == (if key.Some? then Exact(key.value) else Unpartitioned))
  }

  lemma TakesPartExactly(l: Listing, r: PlanRequest, key: Option<string>)
    ensures TakesPart(l, r, key) <==> Wanted(l, r) && StreamOf(l) == key
  {
  }

  predicate SameTarget(l: Listing, r: PlanRequest) {
    && l.target.dataset == r.target.dataset && l.target.chainId == r.target.chainId
    && l.target.contract == r.target.contract && l.target.kind == r.target.kind
  }

  /** A generation that is not stated counts as zero. */
  predicate InGeneration(l: Listing, g: U64) {
    match l.descriptor.generation case Some(n) => g == n case None => g == 0
  }

  // ---- What a stream is made of ----

  /** A chunk is read under the generation of its catalog. */
  predicate ReadFrom(e: Entry, c: Catalog, l: Listing, r: PlanRequest, key: Option<string>) {
    && SameTarget(c.listing, r) && l in c.chunks && TakesPart(l, r, key)
    && e.descriptor == l.descriptor.(generation := c.listing.descriptor.generation)
    && InGeneration(c.listing, e.generation) && !e.final
  }

  lemma ReadFromExactly(e: Entry, c: Catalog, l: Listing, r: PlanRequest, key: Option<string>)
    requires l in c.chunks
    ensures ReadFrom(e, c, l, r, key) <==> c.listing.target == r.target && e in ChunkEntry(c.listing, r, key)(l)
  {
    TakesPartExactly(l, r, key);
  }

  lemma EntriesExactly(catalogs: seq<Catalog>, contexts: seq<Listing>, r: PlanRequest, key: Option<string>, e: Entry)
    ensures e in StreamInput(catalogs, contexts, r, key).entries <==> exists c, l :: c in catalogs && ReadFrom(e, c, l, r, key)
  {
    if e in StreamInput(catalogs, contexts, r, key).entries {
      var c, l := EntryComesFrom(catalogs, r, key, e);
      ReadFromExactly(e, c, l, r, key);
    }
    if exists c, l :: c in catalogs && ReadFrom(e, c, l, r, key) {
      var c, l :| c in catalogs && ReadFrom(e, c, l, r, key);
      ReadFromExactly(e, c, l, r, key);
      GatherHas(c.chunks, ChunkEntry(c.listing, r, key), e);
      GatherHas(catalogs, CatalogEntries(r, key), e);
    }
  }

  /** A catalog covers its range, and says whether it lists any chunks. */
  predicate CoversAs(v: CoverageEntry, c: Catalog, r: PlanRequest, key: Option<string>) {
    && TakesPart(c.listing, r, key) && InGeneration(c.listing, v.generation)
    && (v.emptyCatalog <==> |c.chunks| == 0)
    && var d := c.listing.descriptor;
    v.coverage == Coverage(d.start, d.end, d.content.checkpointBlock, d.generation, d.partition, d.complete)
  }

  lemma CoversExactly(catalogs: seq<Catalog>, contexts: seq<Listing>, r: PlanRequest, key: Option<string>, v: CoverageEntry)
    ensures v in StreamInput(catalogs, contexts, r, key).coverage <==> exists c :: c in catalogs && CoversAs(v, c, r, key)
  {
    GatherHas(catalogs, CatalogCovers(r, key), v);
    forall c ensures v in CatalogCovers(r, key)(c) <==> CoversAs(v, c, r, key) {
      TakesPartExactly(c.listing, r, key);
    }
  }

  predicate BoundedBy(b: Boundary, l: Listing, r: PlanRequest, key: Option<string>) {
    TakesPart(l, r, key) && InGeneration(l, b.generation) && b.start == l.descriptor.start
  }

  lemma BoundariesExactly(catalogs: seq<Catalog>, contexts: seq<Listing>, r: PlanRequest, key: Option<string>, b: Boundary)
    ensures b in StreamInput(catalogs, contexts, r, key).boundaries <==> exists l :: l in contexts && BoundedBy(b, l, r, key)
  {
    GatherHas(contexts, ContextBoundaries(r, key), b);
    forall l ensures b in ContextBoundaries(r, key)(l) <==> BoundedBy(b, l, r, key) {
      TakesPartExactly(l, r, key);
    }
  }

  // ---- Which streams there are ----

  /** A stream exists when a catalog, a chunk or a context descriptor takes part in it. */
  predicate IsStream(catalogs: seq<Catalog>, contexts: seq<Listing>, r: PlanRequest, key: Option<string>) {
    || (exists c :: c in catalogs && SomethingTakesPart(c, r, key))
    || (exists l :: l in contexts && TakesPart(l, r, key))
  }

  predicate SomethingTakesPart(c: Catalog, r: PlanRequest, key: Option<string>) {
    SameTarget(c.listing, r) && (TakesPart(c.listing, r, key) || exists l :: l in c.chunks && TakesPart(l, r, key))
  }

  lemma CatalogKeysExactly(c: Catalog, r: PlanRequest, key: Option<string>)
    ensures key in CatalogKeys(r)(c) <==> SomethingTakesPart(c, r, key)
  {
    TakesPartExactly(c.listing, r, key);
    GatherHas(c.chunks, ChunkKey(r), key);
    forall l ensures key in ChunkKey(r)(l) <==> TakesPart(l, r, key) {
      TakesPartExactly(l, r, key);
    }
  }

  lemma StreamsExactly(catalogs: seq<Catalog>, contexts: seq<Listing>, r: PlanRequest, key: Option<string>)
    ensures key in StreamKeys(catalogs, contexts, r) <==> IsStream(catalogs, contexts, r, key)
  {
    GatherHas(catalogs, CatalogKeys(r), key);
    GatherHas(contexts, ContextKeys(r), key);
    forall c ensures key in CatalogKeys(r)(c) <==> SomethingTakesPart(c, r, key) {
      CatalogKeysExactly(c, r, key);
    }
    forall l ensures key in ContextKeys(r)(l) <==> TakesPart(l, r, key) {
      TakesPartExactly(l, r, key);
    }
  }

  // ---- The merged plan ----

  /** A catalog about what is asked for, or a chunk or context descriptor that takes part,
      runs backwards. */
  ghost predicate RunsBackwards(catalogs: seq<Catalog>, contexts: seq<Listing>, r: PlanRequest) {
    || (exists c :: c in catalogs && SameTarget(c.listing, r) && c.listing.descriptor.end < c.listing.descriptor.start)
    || (exists c, l, key :: c in catalogs && SameTarget(c.listing, r) && l in c.chunks && TakesPart(l, r, key)
          && l.descriptor.end < l.descriptor.start)
    || (exists l, key :: l in contexts && TakesPart(l, r, key) && l.descriptor.end < l.descriptor.start)
  }

  lemma BackwardsExactly(catalogs: seq<Catalog>, contexts: seq<Listing>, r: PlanRequest)
    ensures HasBadRange(catalogs, contexts, r) <==> RunsBackwards(catalogs, contexts, r)
  {
    forall l, key ensures TakesPart(l, r, key) <==> Wanted(l, r) && StreamOf(l) == key {
      TakesPartExactly(l, r, key);
    }
    if HasBadRange(catalogs, contexts, r) {
      if exists c :: c in catalogs && BadCatalog(c, r) {
        var c :| c in catalogs && BadCatalog(c, r);
        if !BadRange(c.listing) {
          var l :| l in c.chunks && Wanted(l, r) && BadRange(l);
          assert TakesPart(l, r, StreamOf(l));
        }
      } else {
        var l :| l in contexts && Wanted(l, r) && BadRange(l);
        assert TakesPart(l, r, StreamOf(l));
      }
    }
    if RunsBackwards(catalogs, contexts, r) {
      if exists c :: c in catalogs && SameTarget(c.listing, r) && c.listing.descriptor.end < c.listing.descriptor.start {
        var c :| c in catalogs && SameTarget(c.listing, r) && c.listing.descriptor.end < c.listing.descriptor.start;
        assert BadCatalog(c, r);
      } else if exists c, l, key :: c in catalogs && SameTarget(c.listing, r) && l in c.chunks && TakesPart(l, r, key)
                   && l.descriptor.end < l.descriptor.start {
        var c, l, key :| c in catalogs && SameTarget(c.listing, r) && l in c.chunks && TakesPart(l, r, key)
          && l.descriptor.end < l.descriptor.start;
        assert BadCatalog(c, r);
      }
    }
  }

  /** The plan of each stream. */
  function PlansOf(catalogs: seq<Catalog>, contexts: seq<Listing>, r: PlanRequest): Option<string> -> Option<Plan> {
    (key: Option<string>) => PlanStream(StreamInput(catalogs, contexts, r, key), r.range)
  }

  lemma {:induction false} JoinAllExactly(parts: seq<Option<Plan>>, d: Planned, v: Coverage, t: Planned)
    ensures JoinAll(parts).Some? <==> forall i :: 0 <= i < |parts| ==> parts[i].Some?
    ensures JoinAll(parts).Some? ==>
      && (d in JoinAll(parts).value.chunks <==> exists i :: 0 <= i < |parts| && parts[i].Some? && d in parts[i].value.chunks)
      && (v in JoinAll(parts).value.coverage <==> exists i :: 0 <= i < |parts| && parts[i].Some? && v in parts[i].value.coverage)
      && (t in JoinAll(parts).value.priorTails <==> exists i :: 0 <= i < |parts| && parts[i].Some? && t in parts[i].value.priorTails)
    decreases |parts|
  {
    if parts != [] {
      var n := |parts| - 1;
      JoinAllExactly(parts[..n], d, v, t);
      assert parts == parts[..n] + [parts[n]];
    }
  }

  predicate Holds(plan: Option<Plan>, d: Planned) {
    plan.Some? && d in plan.value.chunks
  }

  predicate Covers(plan: Option<Plan>, v: Coverage) {
    plan.Some? && v in plan.value.coverage
  }

  predicate Retains(plan: Option<Plan>, t: Planned) {
    plan.Some? && t in plan.value.priorTails
  }

  /** The merged plan holds what the plan of some stream holds. */
  predicate FromStreams(plan: Plan, keys: set<Option<string>>, plans: Option<string> -> Option<Plan>, d: Planned, v: Coverage, t: Planned) {
    && (d in plan.chunks <==> exists key :: key in keys && Holds(plans(key), d))
    && (v in plan.coverage <==> exists key :: key in keys && Covers(plans(key), v))
    && (t in plan.priorTails <==> exists key :: key in keys && Retains(plans(key), t))
  }

  lemma JoinedExactly(keys: set<Option<string>>, listed: seq<Option<string>>, plans: Option<string> -> Option<Plan>, parts: seq<Option<Plan>>,
                      d: Planned, v: Coverage, t: Planned)
    requires |parts| == |listed| && forall i :: 0 <= i < |parts| ==> parts[i] == plans(listed[i])
    requires forall key :: key in listed <==> key in keys
    ensures JoinAll(parts).Some? <==> forall key :: key in keys ==> plans(key).Some?
    ensures JoinAll(parts).Some? ==> FromStreams(JoinAll(parts).value, keys, plans, d, v, t)
  {
    JoinAllExactly(parts, d, v, t);
    forall key | key in keys ensures exists i :: 0 <= i < |parts| && listed[i] == key && parts[i] == plans(key) {
      var i :| 0 <= i < |listed| && listed[i] == key;
      assert parts[i] == plans(key);
    }
    forall i | 0 <= i < |parts| ensures listed[i] in keys && parts[i] == plans(listed[i]) {
      assert listed[i] in listed;
    }
  }

  lemma ArrangedFromStreams(p: Plan, keys: set<Option<string>>, plans: Option<string> -> Option<Plan>, d: Planned, v: Coverage, t: Planned)
    requires FromStreams(p, keys, plans, d, v, t)
    ensures FromStreams(Arranged(p), keys, plans, d, v, t)
  {
    SameMembers(p.chunks, Arranged(p).chunks);
    SameMembers(p.coverage, Arranged(p).coverage);
    SameMembers(p.priorTails, Arranged(p).priorTails);
  }

  lemma OrderedKeysList(keys: set<Option<string>>)
    ensures forall key :: key in OrderedKeys(keys) <==> key in keys
  {
    forall key ensures key in OrderedKeys(keys) <==> key in keys {
      SortedHas(AnyOrder(keys), PartitionKey, key);
    }
  }

  /** All streams have a plan, and the merged one holds what they hold. */
  ghost predicate MergesAs(merged: Option<Plan>, keys: set<Option<string>>, plans: Option<string> -> Option<Plan>, d: Planned, v: Coverage, t: Planned) {
    && (merged.Some? <==> forall key :: key in keys ==> plans(key).Some?)
    && (merged.Some? ==> FromStreams(merged.value, keys, plans, d, v, t))
  }

  lemma MergedExactly(catalogs: seq<Catalog>, contexts: seq<Listing>, r: PlanRequest, keys: set<Option<string>>, d: Planned, v: Coverage, t: Planned)
    ensures MergesAs(Merged(OrderedKeys(keys), catalogs, contexts, r), keys, PlansOf(catalogs, contexts, r), d, v, t)
  {
    var listed := OrderedKeys(keys);
    OrderedKeysList(keys);
    JoinedExactly(keys, listed, PlansOf(catalogs, contexts, r), StreamPlans(listed, catalogs, contexts, r), d, v, t);
  }

  lemma ArrangedMergesAs(merged: Option<Plan>, keys: set<Option<string>>, plans: Option<string> -> Option<Plan>, d: Planned, v: Coverage, t: Planned)
    requires MergesAs(merged, keys, plans, d, v, t)
    ensures MergesAs(if merged.Some? then Some(Arranged(merged.value)) else None, keys, plans, d, v, t)
  {
    if merged.Some? { ArrangedFromStreams(merged.value, keys, plans, d, v, t); }
  }

  /** There is a plan exactly when the request and everything that takes part run forward and
      every stream has one; it then holds exactly what those plans hold. */
  lemma PlanExactly(catalogs: seq<Catalog>, contexts: seq<Listing>, r: PlanRequest, d: Planned, v: Coverage, t: Planned)
    ensures r.range.start > r.range.end || RunsBackwards(catalogs, contexts, r) ==> PlanAll(catalogs, contexts, r) == None
    ensures r.range.start <= r.range.end && !RunsBackwards(catalogs, contexts, r) ==>
      MergesAs(PlanAll(catalogs, contexts, r), StreamKeys(catalogs, contexts, r), PlansOf(catalogs, contexts, r), d, v, t)
  {
    BackwardsExactly(catalogs, contexts, r);
    var keys := StreamKeys(catalogs, contexts, r);
    MergedExactly(catalogs, contexts, r, keys, d, v, t);
    ArrangedMergesAs(Merged(OrderedKeys(keys), catalogs, contexts, r), keys, PlansOf(catalogs, contexts, r), d, v, t);
  }
}
