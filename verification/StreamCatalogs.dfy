/** Planning over whole catalogs: listings are grouped into streams, each stream is
    planned, and the results are merged. */
module StreamCatalogs {
  import opened ArtifactKinds
  import opened Common
  import opened Sorting
  import opened StreamCoverage
  import opened StreamFold
  import opened StreamModel
  import opened StreamOrder
  import opened StreamOverlay
  import opened StreamPlan
  import opened StreamSafety

  /** What a listing is about: dataset, chain scope and range kind. */
  datatype Target = Target(dataset: Dataset, chainId: U64, contract: Word, kind: RangeKind)

  datatype Listing = Listing(target: Target, descriptor: Descriptor)

  datatype Catalog = Catalog(listing: Listing, chunks: seq<Listing>)

  datatype Policy = Ignore | Exact(partition: string) | Unpartitioned

  datatype PlanRequest = PlanRequest(target: Target, range: Request, policy: Policy)

  /** Wallet scans by block form one stream whatever their partition. */
  function StreamOf(l: Listing): Option<string> {
    if l.target.dataset.WalletScan? && l.target.kind.Block? then None else l.descriptor.partition
  }

  predicate Accepts(policy: Policy, partition: Option<string>) {
    match policy
    case Ignore => true
    case Exact(expected) => partition == Some(expected)
    case Unpartitioned => partition.None?
  }

  predicate Wanted(l: Listing, r: PlanRequest) {
    l.target == r.target && Accepts(r.policy, StreamOf(l))
  }

  predicate BadRange(l: Listing) {
    l.descriptor.start > l.descriptor.end
  }

  function Number(generation: Option<U64>): U64 {
    if generation.Some? then generation.value else 0
  }

  function GenerationOf(l: Listing): U64 {
    Number(l.descriptor.generation)
  }

  /** The chunk as its catalog publishes it. */
  function Published(catalog: Listing, chunk: Listing): Descriptor {
    chunk.descriptor.(generation := catalog.descriptor.generation)
  }

  // ---- Gathering ----

  function Gather<A, B>(s: seq<A>, f: A -> seq<B>): seq<B> {
    if s == [] then [] else Gather(s[..|s| - 1], f) + f(s[|s| - 1])
  }

  function ChunkKey(r: PlanRequest): Listing -> seq<Option<string>> {
    (chunk: Listing) => if Wanted(chunk, r) then [StreamOf(chunk)] else []
  }

  function ChunkEntry(catalog: Listing, r: PlanRequest, key: Option<string>): Listing -> seq<Entry> {
    (chunk: Listing) => if Wanted(chunk, r) && StreamOf(chunk) == key
             then [Entry(Published(catalog, chunk), GenerationOf(catalog), false)]
             else []
  }

  function CatalogKeys(r: PlanRequest): Catalog -> seq<Option<string>> {
    (c: Catalog) => if c.listing.target != r.target then []
         else (if Wanted(c.listing, r) then [StreamOf(c.listing)] else []) + Gather(c.chunks, ChunkKey(r))
  }

  function CatalogEntries(r: PlanRequest, key: Option<string>): Catalog -> seq<Entry> {
    (c: Catalog) => if c.listing.target != r.target then [] else Gather(c.chunks, ChunkEntry(c.listing, r, key))
  }

  function CatalogCovers(r: PlanRequest, key: Option<string>): Catalog -> seq<CoverageEntry> {
    (c: Catalog) => if Wanted(c.listing, r) && StreamOf(c.listing) == key
         then [CoverageEntry(CoverageFrom(c.listing.descriptor), GenerationOf(c.listing), c.chunks == [])]
         else []
  }

  function ContextKeys(r: PlanRequest): Listing -> seq<Option<string>> {
    (l: Listing) => if Wanted(l, r) then [StreamOf(l)] else []
  }

  function ContextBoundaries(r: PlanRequest, key: Option<string>): Listing -> seq<Boundary> {
    (l: Listing) => if Wanted(l, r) && StreamOf(l) == key then [Boundary(GenerationOf(l), l.descriptor.start)] else []
  }

  function StreamInput(catalogs: seq<Catalog>, contexts: seq<Listing>, r: PlanRequest, key: Option<string>): Input {
    Input(Gather(catalogs, CatalogEntries(r, key)), Gather(catalogs, CatalogCovers(r, key)),
          Gather(contexts, ContextBoundaries(r, key)))
  }

  function StreamKeys(catalogs: seq<Catalog>, contexts: seq<Listing>, r: PlanRequest): set<Option<string>> {
    Members(Gather(catalogs, CatalogKeys(r)) + Gather(contexts, ContextKeys(r)))
  }

  function Members<T(==, !new)>(s: seq<T>): (r: set<T>)
    ensures forall x :: x in r <==> x in s
  {
    set x | x in s
  }

  /** A listing that takes part has an impossible range. */
  predicate HasBadRange(catalogs: seq<Catalog>, contexts: seq<Listing>, r: PlanRequest) {
    || (exists c :: c in catalogs && BadCatalog(c, r))
    || (exists l :: l in contexts && Wanted(l, r) && BadRange(l))
  }

  predicate BadCatalog(c: Catalog, r: PlanRequest) {
    && c.listing.target == r.target
    && (BadRange(c.listing) || exists l :: l in c.chunks && Wanted(l, r) && BadRange(l))
  }

  // ---- The merged plan ----

  /** Some listing of a finite set; the order is settled by the sort that follows. */
  ghost function AnyOrder(keys: set<Option<string>>): (listed: seq<Option<string>>)
    ensures forall k :: k in listed <==> k in keys
  {
    if keys == {} then []
    else
      var k :| k in keys;
      AnyOrder(keys - {k}) + [k]
  }

  function PartitionKey(k: Option<string>): seq<int> {
    if k.None? then [0] else [1] + TextKey(k.value)
  }

  ghost function OrderedKeys(keys: set<Option<string>>): seq<Option<string>> {
    SortBy(AnyOrder(keys), PartitionKey)
  }

  function Joined(a: Plan, b: Plan): Plan {
    Plan(a.chunks + b.chunks, a.coverage + b.coverage, a.priorTails + b.priorTails)
  }

  /** All plans side by side, unless one is missing. */
  function JoinAll(parts: seq<Option<Plan>>): Option<Plan> {
    if parts == [] then Some(Plan([], [], []))
    else
      var rest, last := JoinAll(parts[..|parts| - 1]), parts[|parts| - 1];
      if rest.None? || last.None? then None else Some(Joined(rest.value, last.value))
  }

  function StreamPlans(keys: seq<Option<string>>, catalogs: seq<Catalog>, contexts: seq<Listing>, r: PlanRequest): seq<Option<Plan>> {
    seq(|keys|, i requires 0 <= i < |keys| => PlanStream(StreamInput(catalogs, contexts, r, keys[i]), r.range))
  }

  function Merged(keys: seq<Option<string>>, catalogs: seq<Catalog>, contexts: seq<Listing>, r: PlanRequest): Option<Plan> {
    JoinAll(StreamPlans(keys, catalogs, contexts, r))
  }

  function PlannedKey(p: Planned): seq<int> {
    DescriptorKey(p.descriptor)
  }

  function StreamCoverageKey(c: Coverage): seq<int> {
    [c.start, c.end] + OptKey(c.catalogGeneration) + PartitionKey(c.partition) + [BoolKey(c.complete)] + OptKey(c.checkpoint)
  }

  function Arranged(p: Plan): Plan {
    Plan(SortBy(p.chunks, PlannedKey), SortBy(p.coverage, StreamCoverageKey), SortBy(p.priorTails, PlannedKey))
  }

  ghost function PlanAll(catalogs: seq<Catalog>, contexts: seq<Listing>, r: PlanRequest): Option<Plan> {
    if r.range.start > r.range.end || HasBadRange(catalogs, contexts, r) then None
    else match Merged(OrderedKeys(StreamKeys(catalogs, contexts, r)), catalogs, contexts, r)
         case None => None
         case Some(p) => Some(Arranged(p))
  }

  // ---- Rearranging ----

  /** A catalog up to the order of its chunks. */
  function Shape(c: Catalog): (Listing, multiset<Listing>) {
    (c.listing, multiset(c.chunks))
  }

  function Shapes<A, S>(s: seq<A>, shape: A -> S): seq<S> {
    seq(|s|, i requires 0 <= i < |s| => shape(s[i]))
  }

  /** Equal shapes contribute the same things, in some order. */
  ghost predicate Respects<A(!new), S, B>(shape: A -> S, f: A -> seq<B>) {
    forall x, y :: shape(x) == shape(y) ==> multiset(f(x)) == multiset(f(y))
  }

  lemma GatherSnoc<A, B>(s: seq<A>, x: A, f: A -> seq<B>)
    ensures multiset(Gather(s + [x], f)) == multiset(Gather(s, f)) + multiset(f(x))
  {
    assert (s + [x])[..|s|] == s;
  }

  lemma {:induction false} GatherWithout<A, B>(s: seq<A>, j: nat, f: A -> seq<B>)
    requires j < |s|
    ensures multiset(Gather(s, f)) == multiset(Gather(s[..j] + s[j + 1..], f)) + multiset(f(s[j]))
    decreases |s|
  {
    var n := |s| - 1;
    var init := s[..n];
    assert s == init + [s[n]];
    GatherSnoc(init, s[n], f);
    if j == n {
      assert s[..j] + s[j + 1..] == init;
    } else {
      var less := init[..j] + init[j + 1..];
      GatherWithout(init, j, f);
      GatherSnoc(less, s[n], f);
      assert s[..j] + s[j + 1..] == less + [s[n]];
    }
  }

  lemma ShapesWithout<A, S>(s: seq<A>, j: nat, shape: A -> S)
    requires j < |s|
    ensures multiset(Shapes(s[..j] + s[j + 1..], shape)) == multiset(Shapes(s, shape)) - multiset{shape(s[j])}
  {
    var all := Shapes(s, shape);
    assert Shapes(s[..j] + s[j + 1..], shape) == all[..j] + all[j + 1..];
    assert all == all[..j] + ([all[j]] + all[j + 1..]);
  }

  /** Listing the same shapes in another order gathers the same things. */
  lemma {:induction false} GatherRearranged<A(!new), S, B>(a: seq<A>, b: seq<A>, shape: A -> S, f: A -> seq<B>)
    requires Respects(shape, f) && multiset(Shapes(a, shape)) == multiset(Shapes(b, shape))
    ensures multiset(Gather(a, f)) == multiset(Gather(b, f))
    decreases |a|
  {
    SameLength(Shapes(a, shape), Shapes(b, shape));
    if a != [] {
      var n := |a| - 1;
      var j := SameShapeIn(a, n, b, shape);
      var a', b' := a[..n], b[..j] + b[j + 1..];
      assert a[..n] + a[n + 1..] == a';
      ShapesWithout(a, n, shape);
      ShapesWithout(b, j, shape);
      GatherRearranged(a', b', shape, f);
      GatherWithout(b, j, f);
      assert multiset(f(a[n])) == multiset(f(b[j]));
    }
  }

  lemma SameShapeIn<A, S>(a: seq<A>, i: nat, b: seq<A>, shape: A -> S) returns (j: nat)
    requires i < |a| && multiset(Shapes(a, shape)) == multiset(Shapes(b, shape))
    ensures j < |b| && shape(b[j]) == shape(a[i])
  {
    var x := Shapes(a, shape)[i];
    assert x in multiset(Shapes(a, shape));
    assert x in Shapes(b, shape);
    j :| 0 <= j < |b| && Shapes(b, shape)[j] == x;
  }

  function Itself(l: Listing): Listing {
    l
  }

  lemma ListingShapes(a: seq<Listing>, b: seq<Listing>)
    requires multiset(a) == multiset(b)
    ensures multiset(Shapes(a, Itself)) == multiset(Shapes(b, Itself))
  {
    assert Shapes(a, Itself) == a && Shapes(b, Itself) == b;
  }

  lemma GatherListings<B>(a: seq<Listing>, b: seq<Listing>, f: Listing -> seq<B>)
    requires multiset(a) == multiset(b)
    ensures multiset(Gather(a, f)) == multiset(Gather(b, f))
  {
    ListingShapes(a, b);
    assert Respects(Itself, f);
    GatherRearranged(a, b, Itself, f);
  }

  /** The same catalogs in any order, each with its chunks in any order. */
  predicate Rearranged(a: seq<Catalog>, b: seq<Catalog>) {
    multiset(Shapes(a, Shape)) == multiset(Shapes(b, Shape))
  }

  lemma EntriesRespectShape(r: PlanRequest, key: Option<string>)
    ensures Respects(Shape, CatalogEntries(r, key))
  {
    forall x: Catalog, y: Catalog | Shape(x) == Shape(y)
      ensures multiset(CatalogEntries(r, key)(x)) == multiset(CatalogEntries(r, key)(y))
    {
      GatherListings(x.chunks, y.chunks, ChunkEntry(x.listing, r, key));
    }
  }

  lemma KeysRespectShape(r: PlanRequest)
    ensures Respects(Shape, CatalogKeys(r))
  {
    forall x: Catalog, y: Catalog | Shape(x) == Shape(y)
      ensures multiset(CatalogKeys(r)(x)) == multiset(CatalogKeys(r)(y))
    {
      GatherListings(x.chunks, y.chunks, ChunkKey(r));
    }
  }

  lemma CoversRespectShape(r: PlanRequest, key: Option<string>)
    ensures Respects(Shape, CatalogCovers(r, key))
  {
    forall x: Catalog, y: Catalog | Shape(x) == Shape(y)
      ensures multiset(CatalogCovers(r, key)(x)) == multiset(CatalogCovers(r, key)(y))
    {
      SameLength(x.chunks, y.chunks);
    }
  }

  lemma SameInput(a: seq<Catalog>, b: seq<Catalog>, contexts: seq<Listing>, contexts': seq<Listing>,
                  r: PlanRequest, key: Option<string>)
    requires Rearranged(a, b) && multiset(contexts) == multiset(contexts')
    ensures SameListing(StreamInput(a, contexts, r, key), StreamInput(b, contexts', r, key))
  {
    EntriesRespectShape(r, key);
    GatherRearranged(a, b, Shape, CatalogEntries(r, key));
    CoversRespectShape(r, key);
    GatherRearranged(a, b, Shape, CatalogCovers(r, key));
    GatherListings(contexts, contexts', ContextBoundaries(r, key));
  }

  lemma SameKeys(a: seq<Catalog>, b: seq<Catalog>, contexts: seq<Listing>, contexts': seq<Listing>, r: PlanRequest)
    requires Rearranged(a, b) && multiset(contexts) == multiset(contexts')
    ensures StreamKeys(a, contexts, r) == StreamKeys(b, contexts', r)
  {
    KeysRespectShape(r);
    GatherRearranged(a, b, Shape, CatalogKeys(r));
    GatherListings(contexts, contexts', ContextKeys(r));
    var listed, listed' := Gather(a, CatalogKeys(r)) + Gather(contexts, ContextKeys(r)),
                           Gather(b, CatalogKeys(r)) + Gather(contexts', ContextKeys(r));
    assert multiset(listed) == multiset(listed');
    SameMembers(listed, listed');
    assert Members(listed) == Members(listed');
  }

  lemma BadCatalogMoves(a: seq<Catalog>, b: seq<Catalog>, r: PlanRequest, c: Catalog)
    requires Rearranged(a, b) && c in a && BadCatalog(c, r)
    ensures exists c' :: c' in b && BadCatalog(c', r)
  {
    var i :| 0 <= i < |a| && a[i] == c;
    var j := SameShapeIn(a, i, b, Shape);
    SameMembers(c.chunks, b[j].chunks);
    assert b[j] in b && BadCatalog(b[j], r);
  }

  lemma SameBadRange(a: seq<Catalog>, b: seq<Catalog>, contexts: seq<Listing>, contexts': seq<Listing>, r: PlanRequest)
    requires Rearranged(a, b) && multiset(contexts) == multiset(contexts') && HasBadRange(a, contexts, r)
    ensures HasBadRange(b, contexts', r)
  {
    SameMembers(contexts, contexts');
    if c :| c in a && BadCatalog(c, r) {
      BadCatalogMoves(a, b, r, c);
    }
  }

  // ---- What the input of each stream holds ----

  lemma {:induction false} GatherHas<A, B>(s: seq<A>, f: A -> seq<B>, y: B)
    ensures y in Gather(s, f) <==> exists x :: x in s && y in f(x)
    decreases |s|
  {
    if s != [] {
      var n := |s| - 1;
      GatherHas(s[..n], f, y);
      assert s == s[..n] + [s[n]];
    }
  }

  lemma EntryComesFrom(catalogs: seq<Catalog>, r: PlanRequest, key: Option<string>, e: Entry) returns (c: Catalog, l: Listing)
    requires e in Gather(catalogs, CatalogEntries(r, key))
    ensures c in catalogs && c.listing.target == r.target && l in c.chunks && e in ChunkEntry(c.listing, r, key)(l)
  {
    GatherHas(catalogs, CatalogEntries(r, key), e);
    c :| c in catalogs && e in CatalogEntries(r, key)(c);
    GatherHas(c.chunks, ChunkEntry(c.listing, r, key), e);
    l :| l in c.chunks && e in ChunkEntry(c.listing, r, key)(l);
  }

  lemma InputsAreValid(catalogs: seq<Catalog>, contexts: seq<Listing>, r: PlanRequest, key: Option<string>)
    requires !HasBadRange(catalogs, contexts, r)
    ensures ValidInput(StreamInput(catalogs, contexts, r, key))
  {
    var inp := StreamInput(catalogs, contexts, r, key);
    forall e | e in inp.entries ensures ValidRange(e) && !e.final {
      var c, l := EntryComesFrom(catalogs, r, key, e);
      assert !BadCatalog(c, r) && !BadRange(l);
    }
    forall e | e in inp.coverage ensures ValidCoverage(e) {
      GatherHas(catalogs, CatalogCovers(r, key), e);
      var c :| c in catalogs && e in CatalogCovers(r, key)(c);
      assert !BadCatalog(c, r);
    }
  }

  // ---- Order independence ----

  lemma SameMerged(keys: seq<Option<string>>, a: seq<Catalog>, b: seq<Catalog>,
                   contexts: seq<Listing>, contexts': seq<Listing>, r: PlanRequest)
    requires Rearranged(a, b) && multiset(contexts) == multiset(contexts') && !HasBadRange(a, contexts, r)
    ensures Merged(keys, a, contexts, r) == Merged(keys, b, contexts', r)
  {
    var plans, plans' := StreamPlans(keys, a, contexts, r), StreamPlans(keys, b, contexts', r);
    forall i | 0 <= i < |keys| ensures plans[i] == plans'[i] {
      InputsAreValid(a, contexts, r, keys[i]);
      SameInput(a, b, contexts, contexts', r, keys[i]);
      PlanIgnoresOrder(StreamInput(a, contexts, r, keys[i]), StreamInput(b, contexts', r, keys[i]), r.range);
    }
    assert plans == plans';
  }

  /** Reordering catalogs, the chunks inside them, or the context descriptors changes
      neither the plan nor whether there is one. */
  lemma PlansIgnoreListingOrder(a: seq<Catalog>, b: seq<Catalog>, contexts: seq<Listing>, contexts': seq<Listing>, r: PlanRequest)
    requires Rearranged(a, b) && multiset(contexts) == multiset(contexts')
    ensures PlanAll(a, contexts, r) == PlanAll(b, contexts', r)
  {
    if HasBadRange(a, contexts, r) {
      SameBadRange(a, b, contexts, contexts', r);
    } else {
      if HasBadRange(b, contexts', r) { SameBadRange(b, a, contexts', contexts, r); }
      SameKeys(a, b, contexts, contexts', r);
      SameMerged(OrderedKeys(StreamKeys(a, contexts, r)), a, b, contexts, contexts', r);
    }
  }

  // ---- Nothing requested is lost ----

  predicate Includes(whole: Plan, part: Plan) {
    && (forall c :: c in part.chunks ==> c in whole.chunks)
    && (forall c :: c in part.coverage ==> c in whole.coverage)
  }

  lemma JoinedIncludes(a: Plan, b: Plan)
    ensures Includes(Joined(a, b), a) && Includes(Joined(a, b), b)
  {
  }

  lemma {:induction false} JoinAllIncludes(parts: seq<Option<Plan>>, i: nat)
    requires JoinAll(parts).Some? && i < |parts|
    ensures parts[i].Some? && Includes(JoinAll(parts).value, parts[i].value)
    decreases |parts|
  {
    var n := |parts| - 1;
    JoinedIncludes(JoinAll(parts[..n]).value, parts[n].value);
    if i < n {
      JoinAllIncludes(parts[..n], i);
    }
  }

  lemma MergedHolds(keys: seq<Option<string>>, catalogs: seq<Catalog>, contexts: seq<Listing>, r: PlanRequest, key: Option<string>)
    requires Merged(keys, catalogs, contexts, r).Some? && key in keys
    ensures PlanStream(StreamInput(catalogs, contexts, r, key), r.range).Some?
    ensures Includes(Merged(keys, catalogs, contexts, r).value, PlanStream(StreamInput(catalogs, contexts, r, key), r.range).value)
  {
    var i :| 0 <= i < |keys| && keys[i] == key;
    JoinAllIncludes(StreamPlans(keys, catalogs, contexts, r), i);
  }

  lemma EntryOfChunk(catalogs: seq<Catalog>, contexts: seq<Listing>, r: PlanRequest, c: Catalog, l: Listing)
    requires c in catalogs && l in c.chunks && c.listing.target == r.target && Wanted(l, r)
    ensures Entry(Published(c.listing, l), GenerationOf(c.listing), false)
              in StreamInput(catalogs, contexts, r, StreamOf(l)).entries
    ensures StreamOf(l) in StreamKeys(catalogs, contexts, r)
  {
    var key := StreamOf(l);
    var e := ChunkEntry(c.listing, r, key)(l)[0];
    GatherHas(c.chunks, ChunkEntry(c.listing, r, key), e);
    GatherHas(catalogs, CatalogEntries(r, key), e);
    GatherHas(c.chunks, ChunkKey(r), key);
    GatherHas(catalogs, CatalogKeys(r), key);
  }

  /** A listed chunk of a stream. */
  predicate Lists(catalogs: seq<Catalog>, r: PlanRequest, key: Option<string>, c: Catalog, l: Listing) {
    c in catalogs && l in c.chunks && c.listing.target == r.target && Wanted(l, r) && StreamOf(l) == key
  }

  /** A chunk listed in `catalog` speaks for another: itself, or one of equal content. */
  predicate Represents(catalog: Catalog, chunk: Listing, c: Catalog, l: Listing) {
    (catalog, chunk) == (c, l) || SameContent(chunk.descriptor, l.descriptor)
  }

  /** A required chunk of the stream holds the index and is the listed chunk or newer. */
  predicate ByChunk(plan: Plan, r: PlanRequest, key: Option<string>, c: Catalog, l: Listing, x: int) {
    exists p :: p in plan.chunks && Within(x, p.descriptor.start, p.descriptor.end)
      && StreamOf(Listing(r.target, p.descriptor)) == key
      && (p.descriptor == Published(c.listing, l) || Number(p.descriptor.generation) > GenerationOf(c.listing))
  }

  /** Required coverage of the same stream speaks for the index: it is part of a catalog
      of a newer generation than the chunk's. */
  predicate ByNewerCatalog(plan: Plan, catalogs: seq<Catalog>, r: PlanRequest, key: Option<string>, c: Catalog, x: int) {
    exists v, n :: v in plan.coverage && n in catalogs && IsPartOf(v, n.listing, x)
      && Wanted(n.listing, r) && StreamOf(n.listing) == key && GenerationOf(n.listing) > GenerationOf(c.listing)
  }

  predicate IsPartOf(v: Coverage, l: Listing, x: int) {
    && Within(x, v.start, v.end) && l.descriptor.start <= v.start && v.end <= l.descriptor.end
    && v.catalogGeneration == l.descriptor.generation && v.partition == l.descriptor.partition
  }

  predicate AnsweredFor(plan: Plan, catalogs: seq<Catalog>, r: PlanRequest, key: Option<string>, c: Catalog, l: Listing, x: int) {
    ByChunk(plan, r, key, c, l, x) || ByNewerCatalog(plan, catalogs, r, key, c, x)
  }

  lemma CoverComesFrom(catalogs: seq<Catalog>, r: PlanRequest, key: Option<string>, y: CoverageEntry) returns (n: Catalog)
    requires y in Gather(catalogs, CatalogCovers(r, key))
    ensures n in catalogs && Wanted(n.listing, r) && StreamOf(n.listing) == key
    ensures y.coverage == CoverageFrom(n.listing.descriptor) && y.generation == GenerationOf(n.listing)
  {
    GatherHas(catalogs, CatalogCovers(r, key), y);
    n :| n in catalogs && y in CatalogCovers(r, key)(n);
  }

  /** The chunk that stands for a listed one is itself listed. */
  lemma StandInIsListed(catalogs: seq<Catalog>, contexts: seq<Listing>, r: PlanRequest, c: Catalog, l: Listing, h: Entry)
    returns (c': Catalog, l': Listing)
    requires c in catalogs && l in c.chunks && c.listing.target == r.target && Wanted(l, r)
    requires StandsFor(h, Entry(Published(c.listing, l), GenerationOf(c.listing), false),
                       StreamInput(catalogs, contexts, r, StreamOf(l)))
    ensures Lists(catalogs, r, StreamOf(l), c', l') && Represents(c', l', c, l)
    ensures h.descriptor == Published(c'.listing, l') && h.generation == GenerationOf(c'.listing)
  {
    c', l' := c, l;
    if h != Entry(Published(c.listing, l), GenerationOf(c.listing), false) {
      c', l' := EntryComesFrom(catalogs, r, StreamOf(l), h);
    }
  }

  /** Current chunks carry the generation of the catalog that lists them. */
  lemma CurrentGeneration(catalogs: seq<Catalog>, contexts: seq<Listing>, r: PlanRequest, key: Option<string>, y: Entry)
    requires !HasBadRange(catalogs, contexts, r)
    requires var inp := StreamInput(catalogs, contexts, r, key);
             Folded(inp, r.range).Some? && y in Folded(inp, r.range).value.current
    ensures y.generation == Number(y.descriptor.generation) && StreamOf(Listing(r.target, y.descriptor)) == key
  {
    InputsAreValid(catalogs, contexts, r, key);
    var e := CurrentIsListed(StreamInput(catalogs, contexts, r, key), r.range, y);
    ListedGeneration(catalogs, r, key, e);
  }

  lemma ListedGeneration(catalogs: seq<Catalog>, r: PlanRequest, key: Option<string>, e: Entry)
    requires e in Gather(catalogs, CatalogEntries(r, key))
    ensures e.generation == Number(e.descriptor.generation) && StreamOf(Listing(r.target, e.descriptor)) == key
  {
    var c, l := EntryComesFrom(catalogs, r, key, e);
  }

  lemma CoverageAnswers(catalogs: seq<Catalog>, contexts: seq<Listing>, r: PlanRequest, key: Option<string>,
                        plan: Plan, c: Catalog, v: CoverageEntry, x: int)
    requires !HasBadRange(catalogs, contexts, r)
    requires var inp := StreamInput(catalogs, contexts, r, key);
             Folded(inp, r.range).Some? && v in Folded(inp, r.range).value.coverage
    requires v.coverage in plan.coverage && v.Covers(x) && v.generation > GenerationOf(c.listing)
    ensures ByNewerCatalog(plan, catalogs, r, key, c, x)
  {
    InputsAreValid(catalogs, contexts, r, key);
    var y := PlannedCoverageIsListed(StreamInput(catalogs, contexts, r, key), r.range, v);
    var n := CoverComesFrom(catalogs, r, key, y);
    assert IsPartOf(v.coverage, n.listing, x);
  }

  lemma ChunkAnswers(catalogs: seq<Catalog>, contexts: seq<Listing>, r: PlanRequest, key: Option<string>,
                     plan: Plan, c: Catalog, l: Listing, h: Entry, y: Entry, d: Planned, x: int)
    requires !HasBadRange(catalogs, contexts, r)
    requires var inp := StreamInput(catalogs, contexts, r, key);
             Folded(inp, r.range).Some? && y in Folded(inp, r.range).value.current
    requires d in plan.chunks && d.descriptor == y.descriptor && y.Covers(x)
    requires h.descriptor == Published(c.listing, l) && h.generation == GenerationOf(c.listing)
    requires SameChunk(y, h) || y.generation > h.generation
    ensures ByChunk(plan, r, key, c, l, x)
  {
    CurrentGeneration(catalogs, contexts, r, key, y);
  }

  /** An answer in the plan of a stream is an answer in every plan that holds it. */
  lemma StreamAnswers(catalogs: seq<Catalog>, contexts: seq<Listing>, r: PlanRequest, key: Option<string>,
                      part: Plan, p: Planner, plan: Plan, c: Catalog, l: Listing, h: Entry, x: int)
    requires !HasBadRange(catalogs, contexts, r) && Folded(StreamInput(catalogs, contexts, r, key), r.range) == Some(p)
    requires Answers(part, p, h, x) && Includes(plan, part)
    requires h.descriptor == Published(c.listing, l) && h.generation == GenerationOf(c.listing)
    ensures ByChunk(plan, r, key, c, l, x) || ByNewerCatalog(plan, catalogs, r, key, c, x)
  {
    if AnswersByChunk(part, p, h, x) {
      var y, d :| AnswersWith(part, p, h, x, y, d);
      ChunkAnswers(catalogs, contexts, r, key, plan, c, l, h, y, d, x);
    } else {
      var v :| v in p.coverage && v.coverage in part.coverage && v.Covers(x) && v.generation > h.generation;
      CoverageAnswers(catalogs, contexts, r, key, plan, c, v, x);
    }
  }

  lemma ArrangedIncludes(whole: Plan, part: Plan)
    requires Includes(whole, part)
    ensures Includes(Arranged(whole), part)
  {
    SameMembers(whole.chunks, Arranged(whole).chunks);
    SameMembers(whole.coverage, Arranged(whole).coverage);
  }

  /** In every successful plan each requested index of each listed chunk is answered for:
      that chunk, or a listed one of equal content, is required or has given way to a
      newer required chunk or to required coverage of a newer catalog of its stream. */
  lemma NoRequestedIndexIsLost(catalogs: seq<Catalog>, contexts: seq<Listing>, r: PlanRequest, c: Catalog, l: Listing, x: int)
    requires PlanAll(catalogs, contexts, r).Some?
    requires c in catalogs && l in c.chunks && c.listing.target == r.target && Wanted(l, r)
    requires Within(x, l.descriptor.start, l.descriptor.end) && Within(x, r.range.start, r.range.end)
    ensures exists c', l' :: Lists(catalogs, r, StreamOf(l), c', l') && Represents(c', l', c, l)
              && AnsweredFor(PlanAll(catalogs, contexts, r).value, catalogs, r, StreamOf(l), c', l', x)
  {
    var key := StreamOf(l);
    var inp := StreamInput(catalogs, contexts, r, key);
    var e := Entry(Published(c.listing, l), GenerationOf(c.listing), false);
    EntryOfChunk(catalogs, contexts, r, c, l);
    InputsAreValid(catalogs, contexts, r, key);
    var keys := OrderedKeys(StreamKeys(catalogs, contexts, r));
    SortedHas(AnyOrder(StreamKeys(catalogs, contexts, r)), PartitionKey, key);
    MergedHolds(keys, catalogs, contexts, r, key);
    NothingRequestedIsLost(inp, r.range, e, x);
    var h :| StandsFor(h, e, inp) && Answers(PlanStream(inp, r.range).value, Folded(inp, r.range).value, h, x);
    var c', l' := StandInIsListed(catalogs, contexts, r, c, l, h);
    var whole, part := Merged(keys, catalogs, contexts, r).value, PlanStream(inp, r.range).value;
    ArrangedIncludes(whole, part);
    StreamAnswers(catalogs, contexts, r, key, part, Folded(inp, r.range).value, Arranged(whole), c', l', h, x);
  }
}
