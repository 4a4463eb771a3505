/** The planner as it runs: one object folding entries and coverage in place. */
module StreamPlanner {
  import opened Common
  import opened OrderedSets
  import opened Sorting
  import opened StreamFold
  import opened StreamModel
  import opened StreamPlan
  import opened StreamSafety

  // ---- Removal by index ----

  lemma {:induction false} RemainingJoin(a: seq<Entry>, b: seq<Entry>, current: seq<Entry>, g: U64, start: U64, end: U64)
    ensures Remaining(a + b, current, g, start, end)
         == Remaining(a, current, g, start, end) + Remaining(b, current, g, start, end)
    decreases |b|
  {
    if b == [] {
      assert a + b == a;
    } else {
      var n := |b| - 1;
      RemainingJoin(a, b[..n], current, g, start, end);
      assert (a + b)[..|a| + n] == a + b[..n];
    }
  }

  lemma {:induction false} RemainingKeepsAll(xs: seq<Entry>, current: seq<Entry>, g: U64, start: U64, end: U64)
    requires forall i :: 0 <= i < |xs| ==> !GivesWay(xs[i], current, g, start, end)
    ensures Remaining(xs, current, g, start, end) == xs
    decreases |xs|
  {
    if xs != [] {
      var n := |xs| - 1;
      RemainingKeepsAll(xs[..n], current, g, start, end);
      assert xs == xs[..n] + [xs[n]];
    }
  }

  /** The indexes a scan of the first `n` chunks marks. */
  function Marked(xs: seq<Entry>, n: nat, g: U64, start: U64, end: U64): seq<nat>
    requires n <= |xs|
  {
    if n == 0 then []
    else Marked(xs, n - 1, g, start, end) + (if GivesWay(xs[n - 1], xs, g, start, end) then [n - 1] else [])
  }

  /** The last mark is the last chunk that gives way; before it the marks are those of a
      shorter scan. */
  lemma {:induction false} LastMarked(xs: seq<Entry>, n: nat, g: U64, start: U64, end: U64)
    requires n <= |xs|
    ensures var m := Marked(xs, n, g, start, end);
            if m == [] then forall k :: 0 <= k < n ==> !GivesWay(xs[k], xs, g, start, end)
            else
              var i := m[|m| - 1];
              && i < n && GivesWay(xs[i], xs, g, start, end) && m[..|m| - 1] == Marked(xs, i, g, start, end)
              && forall k :: i < k < n ==> !GivesWay(xs[k], xs, g, start, end)
  {
    if n > 0 && !GivesWay(xs[n - 1], xs, g, start, end) {
      LastMarked(xs, n - 1, g, start, end);
    }
  }

  lemma {:induction false} NobodyMarked(xs: seq<Entry>, n: nat, g: U64, start: U64, end: U64)
    requires n <= |xs| && forall i :: 0 <= i < n ==> !GivesWay(xs[i], xs, g, start, end)
    ensures Marked(xs, n, g, start, end) == []
  {
    if n > 0 { NobodyMarked(xs, n - 1, g, start, end); }
  }

  /** One removal: everything from the marked index on is now filtered. */
  lemma RemovalStep(xs: seq<Entry>, i: nat, b: nat, g: U64, start: U64, end: U64)
    requires i < b <= |xs| && GivesWay(xs[i], xs, g, start, end)
    requires forall k :: i < k < b ==> !GivesWay(xs[k], xs, g, start, end)
    ensures Remaining(xs[i..], xs, g, start, end) == xs[i + 1..b] + Remaining(xs[b..], xs, g, start, end)
  {
    assert xs[i..] == [xs[i]] + (xs[i + 1..b] + xs[b..]);
    RemainingJoin([xs[i]], xs[i + 1..b] + xs[b..], xs, g, start, end);
    RemainingJoin(xs[i + 1..b], xs[b..], xs, g, start, end);
    RemainingKeepsAll(xs[i + 1..b], xs, g, start, end);
    assert [xs[i]][..0] == [];
    assert Remaining([xs[i]], xs, g, start, end) == [];
  }

  lemma RemovalAt(xs: seq<Entry>, kept: seq<Entry>, i: nat, b: nat, g: U64, start: U64, end: U64)
    requires i < b <= |xs| && GivesWay(xs[i], xs, g, start, end)
    requires forall k :: i < k < b ==> !GivesWay(xs[k], xs, g, start, end)
    requires kept == xs[..b] + Remaining(xs[b..], xs, g, start, end)
    ensures kept[..i] + kept[i + 1..] == xs[..i] + Remaining(xs[i..], xs, g, start, end)
  {
    RemovalStep(xs, i, b, g, start, end);
    var tail := Remaining(xs[b..], xs, g, start, end);
    assert kept[..i] == xs[..i];
    assert kept[i + 1..] == xs[i + 1..b] + tail;
  }

  lemma RemovalDone(xs: seq<Entry>, b: nat, g: U64, start: U64, end: U64)
    requires b <= |xs| && forall k :: 0 <= k < b ==> !GivesWay(xs[k], xs, g, start, end)
    ensures Remaining(xs, xs, g, start, end) == xs[..b] + Remaining(xs[b..], xs, g, start, end)
  {
    RemainingJoin(xs[..b], xs[b..], xs, g, start, end);
    RemainingKeepsAll(xs[..b], xs, g, start, end);
    assert xs == xs[..b] + xs[b..];
  }

  /** Removing the marked indexes from the back leaves exactly the chunks that stay. */
  method RemoveMarked(xs: seq<Entry>, indexes: seq<nat>, g: U64, start: U64, end: U64) returns (kept: seq<Entry>)
    requires indexes == Marked(xs, |xs|, g, start, end)
    ensures kept == Remaining(xs, xs, g, start, end)
  {
    kept := xs;
    var j := |indexes|;
    ghost var b := |xs|;
    assert kept == xs[..b] + Remaining(xs[b..], xs, g, start, end);
    while j > 0
      invariant 0 <= j <= |indexes| && 0 <= b <= |xs|
      invariant indexes[..j] == Marked(xs, b, g, start, end)
      invariant kept == xs[..b] + Remaining(xs[b..], xs, g, start, end)
    {
      j := j - 1;
      var i := indexes[j];
      LastMarked(xs, b, g, start, end);
      assert indexes[..j + 1][..j] == indexes[..j];
      RemovalAt(xs, kept, i, b, g, start, end);
      kept := kept[..i] + kept[i + 1..];
      b := i;
    }
    LastMarked(xs, b, g, start, end);
    RemovalDone(xs, b, g, start, end);
  }

  // ---- The sweep as a loop ----

  method CollectChunks(s: Superseded, current: seq<Entry>) returns (ranges: seq<(U64, U64)>)
    ensures ranges == ChunkRanges(s, current)
  {
    ranges := [];
    for n := 0 to |current|
      invariant ranges == ChunkRanges(s, current[..n])
    {
      var d := current[n].descriptor;
      assert current[..n + 1][..n] == current[..n];
      if d.start <= s.end && s.start <= d.end { ranges := ranges + [(d.start, d.end)]; }
    }
    assert current[..|current|] == current;
  }

  method CollectNewer(s: Superseded, coverage: seq<CoverageEntry>) returns (ranges: seq<(U64, U64)>)
    ensures ranges == NewerRanges(s, coverage)
  {
    ranges := [];
    for n := 0 to |coverage|
      invariant ranges == NewerRanges(s, coverage[..n])
    {
      var c := coverage[n].coverage;
      assert coverage[..n + 1][..n] == coverage[..n];
      if coverage[n].generation > s.generation && c.start <= s.end && s.start <= c.end {
        ranges := ranges + [(c.start, c.end)];
      }
    }
    assert coverage[..|coverage|] == coverage;
  }

  /** Whether current chunks and newer coverage cover a superseded range. */
  method IsCoveredBy(s: Superseded, current: seq<Entry>, coverage: seq<CoverageEntry>) returns (covered: bool)
    ensures covered == IsCovered(s, current, coverage)
  {
    var chunks := CollectChunks(s, current);
    var newer := CollectNewer(s, coverage);
    covered := SweepRanges(SortBy(chunks + newer, PairKey), s.start, s.end);
  }

  /** Walks the sorted ranges, moving the cursor past each. */
  method SweepRanges(ranges: seq<(U64, U64)>, start: U64, end: U64) returns (covered: bool)
    ensures covered == Sweep(ranges, start, end)
  {
    var cursor: int := start;
    for n := 0 to |ranges|
      invariant Sweep(ranges[n..], cursor, end) == Sweep(ranges, start, end)
    {
      assert ranges[n..][1..] == ranges[n + 1..];
      if ranges[n].0 > cursor {
        return false;
      }
      if ranges[n].1 >= end {
        return true;
      }
      cursor := SaturatingSucc(ranges[n].1);
    }
    return false;
  }

  /** The test a superseded range has to pass. */
  function CoverTest(current: seq<Entry>, coverage: seq<CoverageEntry>): Superseded -> bool {
    s => IsCovered(s, current, coverage)
  }

  /** Whether some range fails the test. */
  predicate AnyFails(ss: seq<Superseded>, test: Superseded -> bool) {
    exists s :: s in ss && !test(s)
  }

  method FindGap(ss: seq<Superseded>, current: seq<Entry>, coverage: seq<CoverageEntry>) returns (gap: bool)
    ensures gap == AnyFails(ss, CoverTest(current, coverage))
  {
    ghost var test := CoverTest(current, coverage);
    for n := 0 to |ss|
      invariant !AnyFails(ss[..n], test)
    {
      var covered := IsCoveredBy(ss[n], current, coverage);
      NextFails(ss, n, test);
      if !covered {
        return true;
      }
    }
    assert ss[..|ss|] == ss;
    return false;
  }

  lemma NextFails(ss: seq<Superseded>, n: nat, test: Superseded -> bool)
    requires n < |ss|
    ensures AnyFails(ss[..n + 1], test) <==> AnyFails(ss[..n], test) || !test(ss[n])
    ensures AnyFails(ss[..n + 1], test) ==> AnyFails(ss, test)
  {
    assert ss[..n + 1] == ss[..n] + [ss[n]];
  }

  /** Sorts the current chunks into required ones, their coverage, and retainable prior
      tails. */
  method ListChunks(current: seq<Entry>, q: Request)
    returns (chunks: seq<Planned>, covers: seq<Coverage>, tails: seq<Planned>)
    ensures chunks == RequiredChunks(current, current, q)
    ensures covers == ChunkCoverage(current, q)
    ensures tails == PriorTails(current, current, q)
  {
    chunks, covers, tails := [], [], [];
    for n := 0 to |current|
      invariant chunks == RequiredChunks(current[..n], current, q)
      invariant covers == ChunkCoverage(current[..n], q)
      invariant tails == PriorTails(current[..n], current, q)
    {
      var e := current[n];
      assert current[..n + 1][..n] == current[..n];
      if e.Hits(q.start, q.end) {
        chunks := chunks + [Planned(e.descriptor, if e.IsStable(current) then CurrentStable else CurrentTransient)];
        covers := covers + [CoverageFrom(e.descriptor)];
      } else if e.descriptor.end < q.start && IsRetainable(e, current) {
        tails := tails + [Planned(e.descriptor, OptionalPriorTail)];
      }
    }
    assert current[..|current|] == current;
  }

  method RequestedCoverage(cs: seq<CoverageEntry>, q: Request) returns (requested: seq<Coverage>)
    ensures requested == CatalogCoverage(cs, q)
  {
    requested := [];
    for n := 0 to |cs|
      invariant requested == CatalogCoverage(cs[..n], q)
    {
      assert cs[..n + 1][..n] == cs[..n];
      if cs[n].Hits(q.start, q.end) { requested := requested + [cs[n].coverage]; }
    }
    assert cs[..|cs|] == cs;
  }

  // ---- Grouping by generation ----

  /** The group of a generation; generations without one have none. */
  function GroupAt<T>(groups: map<U64, seq<T>>, g: U64): seq<T> {
    if g in groups then groups[g] else []
  }

  /** Groups are kept only where something was listed. */
  predicate NoEmptyGroups<T>(groups: map<U64, seq<T>>) {
    forall g :: g in groups ==> |groups[g]| > 0
  }

  /** One group per generation, in listing order. */
  method GroupEntries(es: seq<Entry>) returns (groups: map<U64, seq<Entry>>)
    ensures NoEmptyGroups(groups)
    ensures GroupedEntries(groups, es)
  {
    groups := map[];
    for n := 0 to |es|
      invariant NoEmptyGroups(groups)
      invariant GroupedEntries(groups, es[..n])
    {
      GroupEntriesNext(groups, es, n);
      var group: seq<Entry> := GroupAt(groups, es[n].generation) + [es[n]];
      groups := groups[es[n].generation := group];
    }
    assert es[..|es|] == es;
  }

  predicate GroupedEntries(groups: map<U64, seq<Entry>>, es: seq<Entry>) {
    forall g: U64 :: GroupAt(groups, g) == EntriesOf(es, g)
  }

  lemma GroupEntriesNext(groups: map<U64, seq<Entry>>, es: seq<Entry>, n: nat)
    requires n < |es| && GroupedEntries(groups, es[..n])
    ensures GroupedEntries(groups[es[n].generation := GroupAt(groups, es[n].generation) + [es[n]]], es[..n + 1])
  {
    var g0 := es[n].generation;
    var after := groups[g0 := GroupAt(groups, g0) + [es[n]]];
    forall g: U64 ensures GroupAt(after, g) == EntriesOf(es[..n + 1], g) {
      EntriesOfNext(es, n, g);
      assert GroupAt(groups, g) == EntriesOf(es[..n], g);
    }
  }

  lemma EntriesOfNext(es: seq<Entry>, n: nat, g: U64)
    requires n < |es|
    ensures es[n].generation == g ==> EntriesOf(es[..n + 1], g) == EntriesOf(es[..n], g) + [es[n]]
    ensures es[n].generation != g ==> EntriesOf(es[..n + 1], g) == EntriesOf(es[..n], g)
  {
    assert es[..n + 1][..n] == es[..n];
  }

  method GroupCoverage(cs: seq<CoverageEntry>) returns (groups: map<U64, seq<CoverageEntry>>)
    ensures NoEmptyGroups(groups)
    ensures GroupedCoverage(groups, cs)
  {
    groups := map[];
    for n := 0 to |cs|
      invariant NoEmptyGroups(groups)
      invariant GroupedCoverage(groups, cs[..n])
    {
      GroupCoverageNext(groups, cs, n);
      var group: seq<CoverageEntry> := GroupAt(groups, cs[n].generation) + [cs[n]];
      groups := groups[cs[n].generation := group];
    }
    assert cs[..|cs|] == cs;
  }

  predicate GroupedCoverage(groups: map<U64, seq<CoverageEntry>>, cs: seq<CoverageEntry>) {
    forall g: U64 :: GroupAt(groups, g) == CoverageOf(cs, g)
  }

  lemma GroupCoverageNext(groups: map<U64, seq<CoverageEntry>>, cs: seq<CoverageEntry>, n: nat)
    requires n < |cs| && GroupedCoverage(groups, cs[..n])
    ensures GroupedCoverage(groups[cs[n].generation := GroupAt(groups, cs[n].generation) + [cs[n]]], cs[..n + 1])
  {
    var g0 := cs[n].generation;
    var after := groups[g0 := GroupAt(groups, g0) + [cs[n]]];
    forall g: U64 ensures GroupAt(after, g) == CoverageOf(cs[..n + 1], g) {
      CoverageOfNext(cs, n, g);
      assert GroupAt(groups, g) == CoverageOf(cs[..n], g);
    }
  }

  lemma CoverageOfNext(cs: seq<CoverageEntry>, n: nat, g: U64)
    requires n < |cs|
    ensures cs[n].generation == g ==> CoverageOf(cs[..n + 1], g) == CoverageOf(cs[..n], g) + [cs[n]]
    ensures cs[n].generation != g ==> CoverageOf(cs[..n + 1], g) == CoverageOf(cs[..n], g)
  {
    assert cs[..n + 1][..n] == cs[..n];
  }

  /** The generations with a group are the generations listed. */
  lemma GroupedGenerations(inp: Input, entryGroups: map<U64, seq<Entry>>, coverageGroups: map<U64, seq<CoverageEntry>>)
    requires NoEmptyGroups(entryGroups) && NoEmptyGroups(coverageGroups)
    requires forall g: U64 :: GroupAt(entryGroups, g) == EntriesOf(inp.entries, g)
    requires forall g: U64 :: GroupAt(coverageGroups, g) == CoverageOf(inp.coverage, g)
    ensures entryGroups.Keys + coverageGroups.Keys == Generations(inp)
  {
    forall g: U64 ensures g in entryGroups.Keys + coverageGroups.Keys <==> g in Generations(inp) {
      GroupExists(inp, entryGroups, coverageGroups, g);
    }
  }

  lemma GroupExists(
    inp: Input, entryGroups: map<U64, seq<Entry>>, coverageGroups: map<U64, seq<CoverageEntry>>, g: U64)
    requires NoEmptyGroups(entryGroups) && NoEmptyGroups(coverageGroups)
    requires GroupAt(entryGroups, g) == EntriesOf(inp.entries, g)
    requires GroupAt(coverageGroups, g) == CoverageOf(inp.coverage, g)
    ensures g in entryGroups || g in coverageGroups <==> g in Generations(inp)
  {
    if g in entryGroups {
      var e := EntriesOf(inp.entries, g)[0];
      assert e in EntriesOf(inp.entries, g);
    } else if g in coverageGroups {
      var c := CoverageOf(inp.coverage, g)[0];
      assert c in CoverageOf(inp.coverage, g);
    } else {
      assert EntriesOf(inp.entries, g) == [] && CoverageOf(inp.coverage, g) == [];
      assert forall e :: e in inp.entries && e.generation == g ==> e in EntriesOf(inp.entries, g);
      assert forall c :: c in inp.coverage && c.generation == g ==> c in CoverageOf(inp.coverage, g);
    }
  }

  /** A current chunk meets the entry, stays, and is not the entry again. */
  predicate Conflicts(current: seq<Entry>, e: Entry) {
    exists x :: x in current && x.Hits(e.descriptor.start, e.descriptor.end)
      && !GivesWay(x, current, e.generation, e.descriptor.start, e.descriptor.end)
      && !Repeats(x, current, e)
  }

  /** The chunk meets the entry and does not give way to it. */
  predicate IsObstacle(x: Entry, current: seq<Entry>, e: Entry) {
    x.Hits(e.descriptor.start, e.descriptor.end)
      && !GivesWay(x, current, e.generation, e.descriptor.start, e.descriptor.end)
  }

  predicate AllGiveWay(current: seq<Entry>, n: nat, e: Entry)
    requires n <= |current|
  {
    forall j :: 0 <= j < n ==> !IsObstacle(current[j], current, e)
  }

  // ---- The planner ----

  class ArtifactStreamPlanner {
    const request: Request
    var current: seq<Entry>
    var coverage: seq<CoverageEntry>
    var completeTail: Option<U64>
    var completeRanges: seq<(U64, U64)>
    var superseded: seq<Superseded>

    function View(): Planner
      reads this
    {
      Planner(current, coverage, completeTail, completeRanges, superseded)
    }

    constructor (request: Request)
      ensures this.request == request && View() == EMPTY_PLANNER
    {
      this.request := request;
      current, coverage, completeTail, completeRanges, superseded := [], [], None, [], [];
    }

    method ExtendsCompleteTail(end: U64) returns (beyond: bool)
      ensures beyond == ExtendsComplete(View(), end)
    {
      if completeTail.Some? && end > completeTail.value { return true; }
      var n := 0;
      while n < |current| && !current[n].IsCompleteTail()
        invariant 0 <= n <= |current|
        invariant forall j :: 0 <= j < n ==> !current[j].IsCompleteTail()
      {
        n := n + 1;
      }
      beyond := n < |current| && end > current[n].descriptor.end;
    }

    method MeetsCompleteCoverage(start: U64, end: U64) returns (meets: bool)
      ensures meets == HitsCompleteRange(View(), start, end)
    {
      for n := 0 to |completeRanges|
        invariant forall j :: 0 <= j < n ==> !(completeRanges[j].0 <= end && start <= completeRanges[j].1)
      {
        if completeRanges[n].0 <= end && start <= completeRanges[n].1 { return true; }
      }
      meets := false;
    }

    /** Records the requested part of a chunk that gives way. */
    method Record(x: Entry)
      modifies this`superseded
      ensures superseded == old(superseded) + RequestedOverlap(x, request)
    {
      if x.Hits(request.start, request.end) {
        var from := if x.descriptor.start < request.start then request.start else x.descriptor.start;
        var to := if x.descriptor.end < request.end then x.descriptor.end else request.end;
        superseded := superseded + [Superseded(x.generation, from, to)];
      }
    }

    method MarkCompleteTail(end: U64)
      modifies this`completeTail
      ensures completeTail == LowerTail(old(completeTail), end)
    {
      completeTail := Some(if completeTail.None? || end < completeTail.value then end else completeTail.value);
    }

    /** Marks and records the chunks that give way to the entry, up to the first that
        meets it and does not. */
    method ScanToObstacle(e: Entry) returns (n: nat, indexes: seq<nat>)
      modifies this`superseded
      ensures n <= |current| && AllGiveWay(current, n, e)
      ensures n < |current| ==> IsObstacle(current[n], current, e)
      ensures indexes == Marked(current, n, e.generation, e.descriptor.start, e.descriptor.end)
      ensures superseded == old(superseded) + NewlySuperseded(
                current[..n], current, e.generation, e.descriptor.start, e.descriptor.end, request)
    {
      var g, start, end := e.generation, e.descriptor.start, e.descriptor.end;
      n, indexes := 0, [];
      while n < |current|
        invariant n <= |current| && AllGiveWay(current, n, e)
        invariant indexes == Marked(current, n, g, start, end)
        invariant superseded == old(superseded) + NewlySuperseded(current[..n], current, g, start, end, request)
      {
        var x := current[n];
        ScanNext(current, n, g, start, end, request);
        if x.Hits(start, end) {
          if !x.IsReplaceable(current) || g <= x.generation {
            return;
          }
          Record(x);
          indexes := indexes + [n];
        }
        n := n + 1;
      }
    }

    /** Scans the current chunks for one entry: marks those that give way, stops at a
        repeat, and fails at a conflict. */
    method ScanForEntry(e: Entry) returns (ok: bool, skip: bool, indexes: seq<nat>)
      requires Disjoint(current) && ValidRange(e)
      modifies this`superseded
      ensures ok == !Conflicts(current, e)
      ensures ok ==> skip == EntryRepeats(View(), e)
      ensures ok ==> indexes == Marked(current, |current|, e.generation, e.descriptor.start, e.descriptor.end)
      ensures ok ==> superseded == old(superseded) + NewlySuperseded(
                current, current, e.generation, e.descriptor.start, e.descriptor.end, request)
    {
      var n;
      n, indexes := ScanToObstacle(e);
      if n == |current| {
        assert current[..|current|] == current;
        NothingLeft(current, e);
        ok, skip := true, false;
      } else if current[n].IsStable(current) && SameContent(current[n].descriptor, e.descriptor) {
        RepeatSettles(current, e, n, request);
        ok, skip := true, true;
      } else {
        ConflictFound(current, e, n);
        ok, skip := false, false;
      }
    }

    method ApplyEntry(e: Entry) returns (ok: bool)
      requires Disjoint(current) && ValidRange(e)
      modifies this
      ensures ok == AfterEntry(old(View()), e, request).Some?
      ensures ok ==> View() == AfterEntry(old(View()), e, request).value
    {
      var (start, end) := (e.descriptor.start, e.descriptor.end);
      var beyond := ExtendsCompleteTail(end);
      var meets := MeetsCompleteCoverage(start, end);
      if beyond || meets { return false; }
      var clear, skip, indexes := ScanForEntry(e);
      if !clear { return false; }
      current := RemoveMarked(current, indexes, e.generation, start, end);
      if !skip {
        if e.descriptor.complete { MarkCompleteTail(end); }
        current := current + [e];
      }
      ok := true;
    }

    /** Marks and records the chunks that give way to newer coverage. */
    method ScanForCoverage(c: CoverageEntry) returns (indexes: seq<nat>)
      modifies this`superseded
      ensures indexes == Marked(current, |current|, c.generation, c.coverage.start, c.coverage.end)
      ensures superseded == old(superseded) + NewlySuperseded(
                current, current, c.generation, c.coverage.start, c.coverage.end, request)
    {
      var g, start, end := c.generation, c.coverage.start, c.coverage.end;
      indexes := [];
      for n := 0 to |current|
        invariant indexes == Marked(current, n, g, start, end)
        invariant superseded == old(superseded) + NewlySuperseded(current[..n], current, g, start, end, request)
      {
        var x := current[n];
        assert current[..n + 1][..n] == current[..n];
        if x.Hits(start, end) && x.IsReplaceable(current) && g > x.generation {
          Record(x);
          indexes := indexes + [n];
        }
      }
      assert current[..|current|] == current;
    }

    /** Cuts the range out of older coverage and keeps the rest. */
    method RetainCoverage(c: CoverageEntry)
      modifies this`coverage
      ensures coverage == CutAround(old(coverage), c)
    {
      var retained := [];
      for n := 0 to |coverage|
        invariant coverage == old(coverage)
        invariant retained == CutAround(coverage[..n], c)
      {
        assert coverage[..n + 1][..n] == coverage[..n];
        retained := retained + Cut(coverage[n], c);
      }
      assert coverage[..|coverage|] == coverage;
      coverage := retained;
    }

    method ApplyCoverage(c: CoverageEntry) returns (ok: bool)
      modifies this
      ensures ok == AfterCoverage(old(View()), c, request).Some?
      ensures ok ==> View() == AfterCoverage(old(View()), c, request).value
    {
      var (start, end) := (c.coverage.start, c.coverage.end);
      var beyond := ExtendsCompleteTail(end);
      if beyond { return false; }
      var indexes := ScanForCoverage(c);
      current := RemoveMarked(current, indexes, c.generation, start, end);
      RetainCoverage(c);
      if !Crowded(coverage, c) {
        if c.emptyCatalog && c.coverage.complete {
          MarkCompleteTail(end);
          completeRanges := completeRanges + [(start, end)];
        }
        coverage := coverage + [c];
      }
      ok := true;
    }

    /** One generation: validated, marked, then applied entry by entry. */
    method ApplyGeneration(inp: Input, g: U64, es: seq<Entry>, cs: seq<CoverageEntry>) returns (ok: bool)
      requires ValidInput(inp) && Sound(View(), inp)
      requires es == EntriesOf(inp.entries, g) && cs == CoverageOf(inp.coverage, g)
      modifies this
      ensures ok == AfterGeneration(old(View()), inp, g, request).Some?
      ensures ok ==> View() == AfterGeneration(old(View()), inp, g, request).value && Sound(View(), inp)
    {
      var entries, covers := SortBy(es, EntryKey), SortBy(cs, CoverageKey);
      if !AdjacentApart(entries) || !AdjacentCoverageApart(covers) { return false; }
      var marked := MarkFinal(entries, g, inp.boundaries);
      MarkedAreListed(inp, g);
      ghost var before := View();
      ok := ApplyMarked(inp, marked);
      if !ok { return; }
      ok := ApplyCovers(covers);
      if ok { GenerationKeepsSound(before, inp, g, request); }
    }

    method ApplyMarked(ghost inp: Input, es: seq<Entry>) returns (ok: bool)
      requires Sound(View(), inp) && AllListed(es, inp)
      modifies this
      ensures ok == ApplyEntries(old(View()), es, request).Some?
      ensures ok ==> View() == ApplyEntries(old(View()), es, request).value
    {
      for n := 0 to |es|
        invariant Sound(View(), inp)
        invariant ApplyEntries(old(View()), es, request) == ApplyEntries(View(), es[n..], request)
      {
        ghost var before := View();
        assert es[n..][1..] == es[n + 1..];
        var applied := ApplyEntry(es[n]);
        if !applied { return false; }
        EntryKeepsSound(before, inp, es[n], request);
      }
      ok := true;
    }

    method ApplyCovers(cs: seq<CoverageEntry>) returns (ok: bool)
      modifies this
      ensures ok == ApplyCoverages(old(View()), cs, request).Some?
      ensures ok ==> View() == ApplyCoverages(old(View()), cs, request).value
    {
      for n := 0 to |cs|
        invariant ApplyCoverages(old(View()), cs, request) == ApplyCoverages(View(), cs[n..], request)
      {
        assert cs[n..][1..] == cs[n + 1..];
        var applied := ApplyCoverage(cs[n]);
        if !applied { return false; }
      }
      ok := true;
    }

    /** All generations, oldest first. */
    method ApplyGenerations(inp: Input, gens: seq<U64>,
                            entryGroups: map<U64, seq<Entry>>, coverageGroups: map<U64, seq<CoverageEntry>>)
      returns (ok: bool)
      requires ValidInput(inp) && Sound(View(), inp)
      requires forall g: U64 :: GroupAt(entryGroups, g) == EntriesOf(inp.entries, g)
      requires forall g: U64 :: GroupAt(coverageGroups, g) == CoverageOf(inp.coverage, g)
      modifies this
      ensures ok == AfterGenerations(old(View()), inp, gens, request).Some?
      ensures ok ==> View() == AfterGenerations(old(View()), inp, gens, request).value
    {
      for n := 0 to |gens|
        invariant Sound(View(), inp)
        invariant AfterGenerations(old(View()), inp, gens, request) == AfterGenerations(View(), inp, gens[n..], request)
      {
        assert gens[n..][1..] == gens[n + 1..];
        var applied := ApplyGeneration(inp, gens[n], GroupAt(entryGroups, gens[n]), GroupAt(coverageGroups, gens[n]));
        if !applied { return false; }
      }
      ok := true;
    }

    /** Sorts the view, checks every superseded range, and lists the plan. */
    method Finish() returns (plan: Option<Plan>)
      modifies this`current, this`coverage
      ensures plan == StreamPlan.Finish(old(View()), request)
    {
      current := SortBy(current, PlanKey);
      coverage := SortBy(coverage, CoverageKey);
      var gap := FindGap(superseded, current, coverage);
      if gap { return None; }
      var chunks, chunkCoverage, tails := ListChunks(current, request);
      var catalogs := RequestedCoverage(coverage, request);
      plan := Some(Plan(chunks, chunkCoverage + catalogs, tails));
    }
  }

  /** One more chunk of the scan. */
  lemma ScanNext(xs: seq<Entry>, n: nat, g: U64, start: U64, end: U64, q: Request)
    requires n < |xs|
    ensures Marked(xs, n + 1, g, start, end)
         == Marked(xs, n, g, start, end) + if GivesWay(xs[n], xs, g, start, end) then [n] else []
    ensures NewlySuperseded(xs[..n + 1], xs, g, start, end, q)
         == NewlySuperseded(xs[..n], xs, g, start, end, q) + if GivesWay(xs[n], xs, g, start, end) then RequestedOverlap(xs[n], q) else []
  {
    assert xs[..n + 1][..n] == xs[..n];
  }

  /** Nothing but the repeated chunk meets the entry. */
  lemma RepeatIsAlone(current: seq<Entry>, e: Entry, n: nat)
    requires Disjoint(current) && ValidRange(e) && n < |current| && SameContent(current[n].descriptor, e.descriptor)
    ensures forall j :: 0 <= j < |current| && j != n ==> !current[j].Hits(e.descriptor.start, e.descriptor.end)
  {
    forall j | 0 <= j < |current| && j != n ensures !current[j].Hits(e.descriptor.start, e.descriptor.end) {
      if j < n {
        assert !current[j].Hits(current[n].descriptor.start, current[n].descriptor.end);
      } else {
        assert !current[n].Hits(current[j].descriptor.start, current[j].descriptor.end);
      }
    }
  }

  lemma {:induction false} NobodyRecorded(xs: seq<Entry>, current: seq<Entry>, g: U64, start: U64, end: U64, q: Request)
    requires forall i :: 0 <= i < |xs| ==> !GivesWay(xs[i], current, g, start, end)
    ensures NewlySuperseded(xs, current, g, start, end, q) == []
    decreases |xs|
  {
    if xs != [] {
      NobodyRecorded(xs[..|xs| - 1], current, g, start, end, q);
    }
  }

  lemma ConflictFound(current: seq<Entry>, e: Entry, n: nat)
    requires n < |current| && IsObstacle(current[n], current, e)
    requires !Repeats(current[n], current, e)
    ensures Conflicts(current, e)
  {
    assert current[n] in current;
  }

  /** When whatever meets the entry gives way, nothing conflicts and nothing repeats. */
  lemma NothingLeft(current: seq<Entry>, e: Entry)
    requires AllGiveWay(current, |current|, e)
    ensures !Conflicts(current, e) && !exists x :: x in current && Repeats(x, current, e)
  {
  }

  /** A repeated chunk settles the scan: nothing conflicts and nothing gives way. */
  lemma RepeatSettles(current: seq<Entry>, e: Entry, n: nat, q: Request)
    requires Disjoint(current) && ValidRange(e) && n < |current| && Repeats(current[n], current, e)
    ensures !Conflicts(current, e) && exists x :: x in current && Repeats(x, current, e)
    ensures Marked(current, n, e.generation, e.descriptor.start, e.descriptor.end) == []
    ensures Marked(current, |current|, e.generation, e.descriptor.start, e.descriptor.end) == []
    ensures NewlySuperseded(current, current, e.generation, e.descriptor.start, e.descriptor.end, q) == []
    ensures NewlySuperseded(current[..n], current, e.generation, e.descriptor.start, e.descriptor.end, q) == []
  {
    var g, start, end := e.generation, e.descriptor.start, e.descriptor.end;
    assert current[n] in current;
    RepeatIsAlone(current, e, n);
    assert !GivesWay(current[n], current, g, start, end);
    NobodyRecorded(current, current, g, start, end, q);
    NobodyRecorded(current[..n], current, g, start, end, q);
    NobodyMarked(current, n, g, start, end);
    NobodyMarked(current, |current|, g, start, end);
  }

  /** Plans one stream. */
  method PlanOneStream(inp: Input, q: Request) returns (plan: Option<Plan>)
    requires ValidInput(inp)
    ensures plan == PlanStream(inp, q)
  {
    var entryGroups := GroupEntries(inp.entries);
    var coverageGroups := GroupCoverage(inp.coverage);
    var gens := Ascending(entryGroups.Keys + coverageGroups.Keys);
    GroupedGenerations(inp, entryGroups, coverageGroups);
    var planner := new ArtifactStreamPlanner(q);
    var applied := planner.ApplyGenerations(inp, gens, entryGroups, coverageGroups);
    if !applied { return None; }
    plan := planner.Finish();
  }
}
