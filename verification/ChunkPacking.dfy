/** Packing listed items into chunks by size: greedy, in order, one range kind a chunk. */
module ChunkPacking {
  import opened ArtifactKinds
  import opened Common

  datatype Config = Config(target: U64, softMin: U64, softMax: U64, hardMax: U64)

  predicate ValidConfig(c: Config) {
    c.softMin <= c.target <= c.softMax <= c.hardMax
  }

  datatype Item = Item(kind: RangeKind, start: U64, end: U64, rows: U64, bytes: U64)

  datatype Chunk = Chunk(kind: RangeKind, start: U64, end: U64, rows: U64, bytes: U64, count: nat)

  predicate ValidItem(x: Item, c: Config) {
    x.start <= x.end && x.bytes <= c.hardMax
  }

  // ---- What a group of items comes to ----

  function Rows(g: seq<Item>): nat {
    if g == [] then 0 else Rows(g[..|g| - 1]) + g[|g| - 1].rows
  }

  function Size(g: seq<Item>): nat {
    if g == [] then 0 else Size(g[..|g| - 1]) + g[|g| - 1].bytes
  }

  function End(g: seq<Item>): U64
    requires g != []
  {
    if |g| == 1 then g[0].end
    else
      var before, last := End(g[..|g| - 1]), g[|g| - 1].end;
      if before < last then last else before
  }

  /** The chunk record stands for exactly this group. */
  predicate Summarises(k: Chunk, g: seq<Item>) {
    && g != []
    && k.kind == g[0].kind && k.start == g[0].start && k.end == End(g)
    && k.rows == Rows(g) && k.bytes == Size(g) && k.count == |g|
  }

  function Flat(groups: seq<seq<Item>>): seq<Item> {
    if groups == [] then [] else Flat(groups[..|groups| - 1]) + groups[|groups| - 1]
  }

  /** An item joins a group of its kind, unless the group would pass the soft or hard
      maximum, or has reached the target and would pass it. */
  predicate Joins(g: seq<Item>, x: Item, c: Config)
    requires g != []
  {
    && g[0].kind == x.kind
    && Size(g) + x.bytes <= c.hardMax && Size(g) + x.bytes <= c.softMax
    && !(Size(g) >= c.target && Size(g) + x.bytes > c.target)
  }

  /** Each item joined the group it is in. */
  predicate GrownGroup(g: seq<Item>, c: Config) {
    g != [] && forall i {:trigger g[..i]} :: 0 < i < |g| ==> Joins(g[..i], g[i], c)
  }

  /** The next group starts with an item that could not join this one. */
  predicate SplitAfter(groups: seq<seq<Item>>, i: nat, c: Config)
    requires i + 1 < |groups|
  {
    groups[i] != [] && groups[i + 1] != [] && !Joins(groups[i], groups[i + 1][0], c)
  }

  /** Items in order, split exactly where an item could not join. */
  predicate IsPacking(groups: seq<seq<Item>>, items: seq<Item>, c: Config) {
    && Flat(groups) == items
    && (forall i :: 0 <= i < |groups| ==> GrownGroup(groups[i], c))
    && (forall i :: 0 <= i < |groups| - 1 ==> SplitAfter(groups, i, c))
  }

  // ---- There is at most one packing ----

  lemma {:induction false} FlatFront(groups: seq<seq<Item>>)
    requires groups != []
    ensures Flat(groups) == groups[0] + Flat(groups[1..])
    decreases |groups|
  {
    var n := |groups| - 1;
    if n == 0 {
      assert groups == [groups[0]] && groups[1..] == [];
    } else {
      FlatFront(groups[..n]);
      var middle := groups[1..n];
      assert groups[1..][..n - 1] == middle && groups[..n][1..] == middle;
      assert Flat(groups[1..]) == Flat(middle) + groups[n];
      assert (groups[0] + Flat(middle)) + groups[n] == groups[0] + (Flat(middle) + groups[n]);
    }
  }

  /** The first group ends where the next item could not join. */
  lemma FirstGroupEnds(a: seq<seq<Item>>, items: seq<Item>, c: Config)
    requires IsPacking(a, items, c) && a != []
    ensures a[0] <= items && a[0] != []
    ensures |a[0]| < |items| ==> !Joins(a[0], items[|a[0]|], c)
  {
    FlatFront(a);
    assert GrownGroup(a[0], c);
    if |a[0]| < |items| {
      assert a[1..] != [];
      FlatFront(a[1..]);
      assert SplitAfter(a, 0, c);
    }
  }

  /** Inside the first group every next item joined. */
  lemma FirstGroupGrows(b: seq<seq<Item>>, items: seq<Item>, c: Config, n: nat)
    requires IsPacking(b, items, c) && b != [] && 0 < n < |b[0]|
    ensures n < |items| && Joins(items[..n], items[n], c)
  {
    FlatFront(b);
    assert GrownGroup(b[0], c);
    assert b[0][..n] == items[..n];
  }

  lemma FirstGroupNotShorter(a: seq<seq<Item>>, b: seq<seq<Item>>, items: seq<Item>, c: Config)
    requires IsPacking(a, items, c) && IsPacking(b, items, c) && a != [] && b != []
    ensures |a[0]| >= |b[0]|
  {
    FirstGroupEnds(a, items, c);
    assert a[0] == items[..|a[0]|];
    if |a[0]| < |b[0]| { FirstGroupGrows(b, items, c, |a[0]|); }
  }

  lemma PackingTail(groups: seq<seq<Item>>, items: seq<Item>, c: Config)
    requires IsPacking(groups, items, c) && groups != []
    ensures groups[0] <= items && IsPacking(groups[1..], items[|groups[0]|..], c)
  {
    FlatFront(groups);
    var rest := groups[1..];
    assert forall i :: 0 <= i < |rest| ==> rest[i] == groups[i + 1];
    forall i | 0 <= i < |rest| - 1 ensures SplitAfter(rest, i, c) {
      assert SplitAfter(groups, i + 1, c);
    }
  }

  lemma EmptyPacking(groups: seq<seq<Item>>, items: seq<Item>, c: Config)
    requires IsPacking(groups, items, c)
    ensures groups == [] <==> items == []
  {
    if groups != [] { FlatFront(groups); }
  }

  /** The packing of a list of items is unique. */
  lemma {:induction false} PackingIsUnique(a: seq<seq<Item>>, b: seq<seq<Item>>, items: seq<Item>, c: Config)
    requires IsPacking(a, items, c) && IsPacking(b, items, c)
    ensures a == b
    decreases |a|
  {
    EmptyPacking(a, items, c);
    EmptyPacking(b, items, c);
    if a != [] {
      FirstGroupNotShorter(a, b, items, c);
      FirstGroupNotShorter(b, a, items, c);
      PackingTail(a, items, c);
      PackingTail(b, items, c);
      assert a[0] == items[..|a[0]|] && b[0] == items[..|b[0]|];
      PackingIsUnique(a[1..], b[1..], items[|a[0]|..], c);
      assert a == [a[0]] + a[1..] && b == [b[0]] + b[1..];
    }
  }

  // ---- Bounds every packing keeps ----

  /** A chunk of several items is within the soft maximum; every chunk of admissible
      items is within the hard maximum. */
  lemma PackedSizes(groups: seq<seq<Item>>, items: seq<Item>, c: Config, i: nat)
    requires ValidConfig(c) && IsPacking(groups, items, c) && i < |groups|
    requires forall x :: x in items ==> ValidItem(x, c)
    ensures |groups[i]| > 1 ==> Size(groups[i]) <= c.softMax
    ensures Size(groups[i]) <= c.hardMax
  {
    var g := groups[i];
    assert GrownGroup(g, c);
    var n := |g| - 1;
    if n > 0 {
      assert Joins(g[..n], g[n], c);
    } else {
      FlatHas(groups, i, 0);
      assert g[..n] == [];
    }
  }

  /** Every item of a chunk after the first is of its kind, keeps it within the soft maximum,
      and found it below the target or leaves it there. */
  lemma GroupRules(groups: seq<seq<Item>>, items: seq<Item>, c: Config, i: nat, n: nat)
    requires IsPacking(groups, items, c) && i < |groups| && 0 < n < |groups[i]|
    ensures var g := groups[i];
            && g[n].kind == g[0].kind && Size(g[..n + 1]) <= c.softMax && Size(g[..n + 1]) <= c.hardMax
            && (Size(g[..n]) < c.target || Size(g[..n + 1]) <= c.target)
  {
    var g := groups[i];
    assert GrownGroup(g, c);
    assert Joins(g[..n], g[n], c);
    assert g[..n + 1][..n] == g[..n];
  }

  /** A chunk ends only before an item of another kind, one that would take it past the soft
      maximum, or one that would take it further past a target it has reached. */
  lemma SplitReasons(groups: seq<seq<Item>>, items: seq<Item>, c: Config, i: nat)
    requires ValidConfig(c) && IsPacking(groups, items, c) && i + 1 < |groups|
    ensures groups[i] != [] && groups[i + 1] != []
    ensures var (g, x) := (groups[i], groups[i + 1][0]);
            || x.kind != g[0].kind || Size(g) + x.bytes > c.softMax
            || (Size(g) >= c.target && Size(g) + x.bytes > c.target)
  {
    assert SplitAfter(groups, i, c);
  }

  /** The end of a group is the last index of any of its items. */
  lemma {:induction false} EndIsGreatest(g: seq<Item>) returns (k: nat)
    requires g != []
    ensures k < |g| && g[k].end == End(g) && forall i :: 0 <= i < |g| ==> g[i].end <= End(g)
    decreases |g|
  {
    k := |g| - 1;
    if |g| > 1 {
      var j := EndIsGreatest(g[..|g| - 1]);
      if g[k].end < g[j].end { k := j; }
    }
  }

  lemma {:induction false} FlatHas(groups: seq<seq<Item>>, i: nat, j: nat)
    requires i < |groups| && j < |groups[i]|
    ensures groups[i][j] in Flat(groups)
    decreases |groups|
  {
    var n := |groups| - 1;
    if i < n { FlatHas(groups[..n], i, j); }
  }

  // ---- Totals ----

  lemma {:induction false} RowsJoin(a: seq<Item>, b: seq<Item>)
    ensures Rows(a + b) == Rows(a) + Rows(b) && Size(a + b) == Size(a) + Size(b)
    decreases |b|
  {
    if b == [] {
      assert a + b == a;
    } else {
      var n := |b| - 1;
      RowsJoin(a, b[..n]);
      assert (a + b)[..|a| + n] == a + b[..n];
    }
  }

  predicate AllSummarise(chunks: seq<Chunk>, groups: seq<seq<Item>>) {
    |chunks| == |groups| && forall i :: 0 <= i < |chunks| ==> Summarises(chunks[i], groups[i])
  }

  function TotalRows(chunks: seq<Chunk>): nat {
    if chunks == [] then 0 else TotalRows(chunks[..|chunks| - 1]) + chunks[|chunks| - 1].rows
  }

  function TotalBytes(chunks: seq<Chunk>): nat {
    if chunks == [] then 0 else TotalBytes(chunks[..|chunks| - 1]) + chunks[|chunks| - 1].bytes
  }

  function TotalCount(chunks: seq<Chunk>): nat {
    if chunks == [] then 0 else TotalCount(chunks[..|chunks| - 1]) + chunks[|chunks| - 1].count
  }

  /** Rows, bytes and items are conserved. */
  lemma {:induction false} PackingConserves(chunks: seq<Chunk>, groups: seq<seq<Item>>)
    requires AllSummarise(chunks, groups)
    ensures TotalRows(chunks) == Rows(Flat(groups))
    ensures TotalBytes(chunks) == Size(Flat(groups))
    ensures TotalCount(chunks) == |Flat(groups)|
    decreases |chunks|
  {
    if chunks != [] {
      var n := |chunks| - 1;
      PackingConserves(chunks[..n], groups[..n]);
      RowsJoin(Flat(groups[..n]), groups[n]);
    }
  }

  // ---- The planner ----

  class ChunkPlanner {
    const config: Config
    var current: Option<Chunk>
    var planned: seq<Chunk>
    /** The items behind the planned chunks, and behind the current one. */
    ghost var groups: seq<seq<Item>>
    ghost var open: seq<Item>

    ghost function Groups(): seq<seq<Item>>
      reads this
    {
      if open == [] then groups else groups + [open]
    }

    ghost predicate Valid(items: seq<Item>)
      reads this
    {
      && AllSummarise(planned, groups)
      && (current.None? <==> open == [])
      && (current.Some? ==> Summarises(current.value, open))
      && (current.None? ==> groups == [])
      && IsPacking(Groups(), items, config)
    }

    constructor (config: Config)
      ensures this.config == config && current == None && planned == [] && Valid([])
    {
      this.config := config;
      current, planned, groups, open := None, [], [], [];
    }

    /** Whether the item must start a new chunk; none when the sum does not fit. */
    method ShouldFlushBefore(x: Item) returns (r: Option<bool>)
      requires current.Some? ==> Summarises(current.value, open)
      ensures current.None? ==> r == Some(false)
      ensures current.Some? && open[0].kind != x.kind ==> r == Some(true)
      ensures current.Some? && open[0].kind == x.kind ==>
                r == if Size(open) + x.bytes > U64_MAX then None else Some(!Joins(open, x, config))
    {
      if current.None? { return Some(false); }
      var k := current.value;
      if k.kind != x.kind { return Some(true); }
      var next := k.bytes + x.bytes;
      if next > U64_MAX { return None; }
      r := Some(next > config.hardMax || next > config.softMax || (k.bytes >= config.target && next > config.target));
    }

    method FlushCurrent()
      requires current.Some? ==> Summarises(current.value, open)
      requires AllSummarise(planned, groups) && (current.None? <==> open == [])
      modifies this
      ensures current == None && open == [] && AllSummarise(planned, groups)
      ensures groups == old(Groups())
    {
      if current.Some? {
        planned := planned + [current.value];
        groups := groups + [open];
        current, open := None, [];
      }
    }

    /** The item opens a new chunk behind the planned ones. */
    method Open(x: Item, ghost items: seq<Item>)
      requires current.None? && open == [] && AllSummarise(planned, groups)
      requires IsPacking(groups + [[x]], items + [x], config)
      modifies this
      ensures Valid(items + [x])
    {
      SingleSummary(x);
      current, open := Some(Chunk(x.kind, x.start, x.end, x.rows, x.bytes, 1)), [x];
    }

    /** The item joins the current chunk, unless its rows overflow. */
    method Extend(x: Item, ghost items: seq<Item>) returns (ok: bool)
      requires Valid(items) && current.Some? && Joins(open, x, config) && Size(open) + x.bytes <= U64_MAX
      modifies this
      ensures ok == (old(Rows(open)) + x.rows <= U64_MAX)
      ensures ok ==> Valid(items + [x])
    {
      var k := current.value;
      if k.rows + x.rows > U64_MAX { return false; }
      LongerGroup(groups, open, items, x, config);
      LongerSummary(open, x);
      current := Some(Chunk(k.kind, k.start, if k.end < x.end then x.end else k.end, k.rows + x.rows, k.bytes + x.bytes, k.count + 1));
      open := open + [x];
      ok := true;
    }

    /** Adds one item; refuses bad ranges, oversized items and sums that do not fit. */
    method Push(x: Item, ghost items: seq<Item>) returns (ok: bool)
      requires Valid(items)
      modifies this
      ensures ok ==> Valid(items + [x])
      ensures ok == !Refused(old(open), x, config)
    {
      if x.start > x.end || x.bytes > config.hardMax { return false; }
      var flush := ShouldFlushBefore(x);
      if flush.None? { return false; }
      if flush.value {
        NewGroup(Groups(), items, x, config);
        FlushCurrent();
        Open(x, items);
        return true;
      }
      if current.None? {
        NewGroup([], items, x, config);
        Open(x, items);
        return true;
      }
      ok := Extend(x, items);
    }

    /** The next item of a list: refused exactly where the list stops the planner. */
    method PushNext(items: seq<Item>, n: nat) returns (ok: bool)
      requires n < |items| && Valid(items[..n])
      modifies this
      ensures ok == !StopsAt(items, n, config)
      ensures ok ==> Valid(items[..n + 1])
    {
      StopsExactly(items, n, Groups(), config);
      assert items[..n + 1] == items[..n] + [items[n]];
      ok := Push(items[n], items[..n]);
    }

    method Finish(ghost items: seq<Item>) returns (chunks: seq<Chunk>)
      requires Valid(items)
      modifies this
      ensures Packs(chunks, items, config)
    {
      assert IsPacking(Groups(), items, config);
      FlushCurrent();
      chunks := planned;
    }
  }

  /** An item the planner refuses when `open` is the group in progress. */
  predicate Refused(open: seq<Item>, x: Item, c: Config) {
    || !ValidItem(x, c)
    || (open != [] && open[0].kind == x.kind
        && (Size(open) + x.bytes > U64_MAX || (Joins(open, x, c) && Rows(open) + x.rows > U64_MAX)))
  }

  lemma FlatSnoc(groups: seq<seq<Item>>, g: seq<Item>)
    ensures Flat(groups + [g]) == Flat(groups) + g
  {
    assert (groups + [g])[..|groups|] == groups;
  }

  lemma SingleSummary(x: Item)
    ensures Rows([x]) == x.rows && Size([x]) == x.bytes && End([x]) == x.end
  {
    assert [x][..0] == [];
  }

  lemma LongerSummary(g: seq<Item>, x: Item)
    requires g != []
    ensures Rows(g + [x]) == Rows(g) + x.rows && Size(g + [x]) == Size(g) + x.bytes
    ensures End(g + [x]) == if End(g) < x.end then x.end else End(g)
  {
    assert (g + [x])[..|g|] == g;
  }

  /** An item that cannot join starts the next group. */
  lemma NewGroup(groups: seq<seq<Item>>, items: seq<Item>, x: Item, c: Config)
    requires IsPacking(groups, items, c)
    requires groups != [] ==> groups[|groups| - 1] != [] && !Joins(groups[|groups| - 1], x, c)
    ensures IsPacking(groups + [[x]], items + [x], c)
  {
    FlatSnoc(groups, [x]);
    var longer := groups + [[x]];
    forall i | 0 <= i < |longer| - 1 ensures SplitAfter(longer, i, c) {
      if i < |groups| - 1 { assert SplitAfter(groups, i, c); }
    }
  }

  /** An item that can join extends the last group. */
  lemma LongerGroup(groups: seq<seq<Item>>, open: seq<Item>, items: seq<Item>, x: Item, c: Config)
    requires open != [] && IsPacking(groups + [open], items, c) && Joins(open, x, c)
    ensures IsPacking(groups + [open + [x]], items + [x], c)
  {
    var before, after := groups + [open], groups + [open + [x]];
    FlatSnoc(groups, open);
    FlatSnoc(groups, open + [x]);
    assert GrownGroup(before[|groups|], c);
    GrownLonger(open, x, c);
    forall i | 0 <= i < |after| ensures GrownGroup(after[i], c) {
      if i < |groups| { assert after[i] == before[i]; }
    }
    forall i | 0 <= i < |after| - 1 ensures SplitAfter(after, i, c) {
      assert SplitAfter(before, i, c);
    }
  }

  lemma GrownLonger(g: seq<Item>, x: Item, c: Config)
    requires GrownGroup(g, c) && Joins(g, x, c)
    ensures GrownGroup(g + [x], c)
  {
    var longer := g + [x];
    forall i {:trigger longer[..i]} | 0 < i < |longer| ensures Joins(longer[..i], longer[i], c) {
      if i < |g| { assert longer[..i] == g[..i]; } else { assert longer[..i] == g; }
    }
  }

  /** The chunks are summaries of the one packing of the items. */
  ghost predicate Packs(chunks: seq<Chunk>, items: seq<Item>, c: Config) {
    exists groups :: IsPacking(groups, items, c) && AllSummarise(chunks, groups)
  }

  /** The first `n` items have a packing after which the next item is refused. */
  ghost predicate StopsAt(items: seq<Item>, n: nat, c: Config)
    requires n < |items|
  {
    exists g :: IsPacking(g, items[..n], c) && Refused(LastGroup(g), items[n], c)
  }

  function LastGroup(g: seq<seq<Item>>): seq<Item> {
    if g == [] then [] else g[|g| - 1]
  }

  lemma StopsExactly(items: seq<Item>, n: nat, g: seq<seq<Item>>, c: Config)
    requires n < |items| && IsPacking(g, items[..n], c)
    ensures StopsAt(items, n, c) <==> Refused(LastGroup(g), items[n], c)
  {
    forall h | IsPacking(h, items[..n], c) ensures h == g {
      PackingIsUnique(h, g, items[..n], c);
    }
  }

  /** Some item is refused after the packing of those before it. */
  ghost predicate Stops(items: seq<Item>, c: Config) {
    exists n :: 0 <= n < |items| && StopsAt(items, n, c)
  }

  /** Pushes every item, or stops at the first that is refused. */
  method PushAll(planner: ChunkPlanner, items: seq<Item>) returns (ok: bool)
    requires planner.Valid([])
    modifies planner
    ensures ok == !Stops(items, planner.config)
    ensures ok ==> planner.Valid(items)
  {
    ghost var c := planner.config;
    for n := 0 to |items|
      invariant planner.Valid(items[..n])
      invariant forall i :: 0 <= i < n ==> !StopsAt(items, i, c)
    {
      ok := planner.PushNext(items, n);
      if !ok { return; }
    }
    assert items[..|items|] == items;
    ok := true;
  }

  /** Plans chunks, or fails: exactly when the configuration is out of order or some item
      is refused after the packing of those before it. */
  method PlanChunks(items: seq<Item>, c: Config) returns (r: Option<seq<Chunk>>)
    ensures r.None? <==> c.softMin > c.target || c.target > c.softMax || c.softMax > c.hardMax || Stops(items, c)
    ensures r.Some? ==> Packs(r.value, items, c)
  {
    if !(c.softMin <= c.target && c.target <= c.softMax && c.softMax <= c.hardMax) { return None; }
    var planner := new ChunkPlanner(c);
    var ok := PushAll(planner, items);
    if !ok { return None; }
    var chunks := planner.Finish(items);
    r := Some(chunks);
  }

  lemma RowsUpTo(items: seq<Item>, n: nat)
    requires n < |items|
    ensures Rows(items[..n]) + items[n].rows <= Rows(items)
  {
    var rest := items[n + 1..];
    assert items == (items[..n] + [items[n]]) + rest;
    RowsJoin(items[..n] + [items[n]], rest);
    RowsJoin(items[..n], [items[n]]);
    SingleSummary(items[n]);
  }

  lemma LastGroupRows(g: seq<seq<Item>>)
    requires g != []
    ensures Rows(LastGroup(g)) <= Rows(Flat(g))
  {
    RowsJoin(Flat(g[..|g| - 1]), g[|g| - 1]);
  }

  /** With room for two hard maxima and for all rows, only a bad item stops the planner. */
  lemma OnlyBadItemsStop(items: seq<Item>, n: nat, g: seq<seq<Item>>, c: Config)
    requires n < |items| && ValidConfig(c) && 2 * c.hardMax <= U64_MAX && Rows(items) <= U64_MAX
    requires forall x :: x in items[..n] ==> ValidItem(x, c)
    requires IsPacking(g, items[..n], c)
    ensures StopsAt(items, n, c) <==> items[n].start > items[n].end || items[n].bytes > c.hardMax
  {
    StopsExactly(items, n, g, c);
    if g != [] && ValidItem(items[n], c) { LastGroupHasRoom(items, n, g, c); }
  }

  /** The last group and the next item fit the sums. */
  lemma LastGroupHasRoom(items: seq<Item>, n: nat, g: seq<seq<Item>>, c: Config)
    requires n < |items| && ValidConfig(c) && 2 * c.hardMax <= U64_MAX && Rows(items) <= U64_MAX
    requires (forall x :: x in items[..n] ==> ValidItem(x, c)) && ValidItem(items[n], c)
    requires IsPacking(g, items[..n], c) && g != []
    ensures Size(LastGroup(g)) + items[n].bytes <= U64_MAX && Rows(LastGroup(g)) + items[n].rows <= U64_MAX
  {
    PackedSizes(g, items[..n], c, |g| - 1);
    LastGroupRows(g);
    RowsUpTo(items, n);
  }
}
