/** The catalog coverage a plan ends with is the point overlay of all listed catalogs. */
module StreamCoverage {
  import opened Common
  import opened OrderedSets
  import opened Sorting
  import opened StreamModel
  import opened StreamOrder
  import opened StreamOverlay
  import opened StreamPlan

  /** The coverage entries in the order the generations apply them. */
  function CoverageLog(inp: Input, gens: seq<U64>): seq<CoverageEntry> {
    if gens == [] then [] else SortedCoverage(inp, gens[0]) + CoverageLog(inp, gens[1..])
  }

  lemma {:induction false} EntriesLeaveCoverage(p: Planner, es: seq<Entry>, q: Request)
    requires ApplyEntries(p, es, q).Some?
    ensures ApplyEntries(p, es, q).value.coverage == p.coverage
    decreases |es|
  {
    if es != [] {
      EntriesLeaveCoverage(AfterEntry(p, es[0], q).value, es[1..], q);
    }
  }

  lemma CoverageStep(p: Planner, c: CoverageEntry, q: Request, log: seq<CoverageEntry>)
    requires p.coverage == Overlay(log) && AfterCoverage(p, c, q).Some?
    ensures AfterCoverage(p, c, q).value.coverage == Overlay(log + [c])
  {
    assert (log + [c])[..|log|] == log;
  }

  lemma Regroup(log: seq<CoverageEntry>, head: seq<CoverageEntry>, tail: seq<CoverageEntry>, full: seq<CoverageEntry>)
    requires full == log + (head + tail)
    ensures full == (log + head) + tail
  {
  }

  lemma {:induction false} CoveragesOverlay(
    p: Planner, cs: seq<CoverageEntry>, q: Request, log: seq<CoverageEntry>, full: seq<CoverageEntry>)
    requires p.coverage == Overlay(log) && ApplyCoverages(p, cs, q).Some? && full == log + cs
    ensures ApplyCoverages(p, cs, q).value.coverage == Overlay(full)
    decreases |cs|
  {
    if cs == [] {
      assert log == full;
    } else {
      CoverageStep(p, cs[0], q, log);
      assert cs == [cs[0]] + cs[1..];
      Regroup(log, [cs[0]], cs[1..], full);
      CoveragesOverlay(AfterCoverage(p, cs[0], q).value, cs[1..], q, log + [cs[0]], full);
    }
  }

  lemma GenerationOverlay(p: Planner, inp: Input, g: U64, q: Request, log: seq<CoverageEntry>)
    requires p.coverage == Overlay(log) && AfterGeneration(p, inp, g, q).Some?
    ensures AfterGeneration(p, inp, g, q).value.coverage == Overlay(log + SortedCoverage(inp, g))
  {
    var marked := MarkFinal(SortedEntries(inp, g), g, inp.boundaries);
    EntriesLeaveCoverage(p, marked, q);
    var cs := SortedCoverage(inp, g);
    CoveragesOverlay(ApplyEntries(p, marked, q).value, cs, q, log, log + cs);
  }

  lemma {:induction false} GenerationsOverlay(
    p: Planner, inp: Input, gens: seq<U64>, q: Request, log: seq<CoverageEntry>, full: seq<CoverageEntry>)
    requires p.coverage == Overlay(log) && AfterGenerations(p, inp, gens, q).Some?
    requires full == log + CoverageLog(inp, gens)
    ensures AfterGenerations(p, inp, gens, q).value.coverage == Overlay(full)
    decreases |gens|
  {
    if gens == [] {
      assert log == full;
    } else {
      var cs := SortedCoverage(inp, gens[0]);
      GenerationOverlay(p, inp, gens[0], q, log);
      Regroup(log, cs, CoverageLog(inp, gens[1..]), full);
      GenerationsOverlay(AfterGeneration(p, inp, gens[0], q).value, inp, gens[1..], q, log + cs, full);
    }
  }

  // ---- The log is layered and holds exactly the listed catalogs ----

  lemma {:induction false} LogHolds(inp: Input, gens: seq<U64>, c: CoverageEntry)
    ensures c in CoverageLog(inp, gens) <==> c in inp.coverage && c.generation in gens
    decreases |gens|
  {
    if gens != [] {
      LogHolds(inp, gens[1..], c);
      SortedHas(CoverageOf(inp.coverage, gens[0]), CoverageKey, c);
      assert gens == [gens[0]] + gens[1..];
    }
  }

  lemma LayeredJoin(a: seq<CoverageEntry>, b: seq<CoverageEntry>)
    requires Layered(a) && Layered(b)
    requires forall i, j :: 0 <= i < |a| && 0 <= j < |b| ==> a[i].generation < b[j].generation
    ensures Layered(a + b)
  {
    var all := a + b;
    forall i, j | 0 <= i < j < |all|
      ensures all[i].generation <= all[j].generation
        && (all[i].generation == all[j].generation ==> Apart(all[i], all[j]))
    {
      if i < |a| <= j {
        assert all[i] == a[i] && all[j] == b[j - |a|];
      } else if |a| <= i {
        assert all[i] == b[i - |a|] && all[j] == b[j - |a|];
      }
    }
  }

  lemma GenerationIsLayered(p: Planner, inp: Input, g: U64, q: Request)
    requires ValidInput(inp) && AfterGeneration(p, inp, g, q).Some?
    ensures Layered(SortedCoverage(inp, g))
  {
    ValidSortedCoverage(inp, g);
    AdjacentCoverageIsPairwise(SortedCoverage(inp, g));
  }

  lemma {:induction false} LogIsLayered(p: Planner, inp: Input, gens: seq<U64>, q: Request)
    requires ValidInput(inp) && StrictlyAscending(gens) && AfterGenerations(p, inp, gens, q).Some?
    ensures Layered(CoverageLog(inp, gens))
    decreases |gens|
  {
    if gens != [] {
      var g, rest := gens[0], gens[1..];
      var head, tail := SortedCoverage(inp, g), CoverageLog(inp, rest);
      GenerationIsLayered(p, inp, g, q);
      LogIsLayered(AfterGeneration(p, inp, g, q).value, inp, rest, q);
      ValidSortedCoverage(inp, g);
      forall j | 0 <= j < |tail| ensures g < tail[j].generation {
        LogHolds(inp, rest, tail[j]);
        var k :| 0 <= k < |rest| && rest[k] == tail[j].generation;
        assert gens[k + 1] == rest[k];
      }
      LayeredJoin(head, tail);
    }
  }

  ghost predicate SameContents(a: seq<CoverageEntry>, b: seq<CoverageEntry>) {
    forall c :: c in a <==> c in b
  }

  lemma SameContentsSamePoint(a: seq<CoverageEntry>, b: seq<CoverageEntry>, x: int, g: U64)
    requires SameContents(a, b) && NewestKept(a, x, g)
    ensures NewestKept(b, x, g)
  {
    var i :| 0 <= i < |a| && a[i].Covers(x) && a[i].generation == g && KeptAt(a, a[i], x);
    assert a[i] in b;
    var k :| 0 <= k < |b| && b[k] == a[i];
    assert b[k].Covers(x);
    forall j | 0 <= j < |b| ensures KeptPast(b[j], b[k], x) && (b[j].Covers(x) ==> b[j].generation <= g) {
      assert b[j] in a;
      var m :| 0 <= m < |a| && a[m] == b[j];
      assert KeptPast(a[m], a[i], x);
    }
  }

  /** In every successful fold the stored coverage is disjoint and says at each index
      what the newest listed catalog covering it said, exactly where the checkpoint of
      that catalog reaches past every newer one that meets it before the index. */
  lemma PlannedCoverageIsNewest(inp: Input, q: Request, x: int, g: U64)
    requires ValidInput(inp) && Folded(inp, q).Some?
    ensures DisjointCoverage(Folded(inp, q).value.coverage)
    ensures CoveredAt(Folded(inp, q).value.coverage, x, g) <==> NewestKept(inp.coverage, x, g)
  {
    var gens := Ascending(Generations(inp));
    var log := CoverageLog(inp, gens);
    GenerationsOverlay(EMPTY_PLANNER, inp, gens, q, [], log);
    LogIsLayered(EMPTY_PLANNER, inp, gens, q);
    LogIsListing(inp);
    OverlayIsDisjoint(log);
    OverlayIsExact(log, x, g);
    if NewestKept(log, x, g) { SameContentsSamePoint(log, inp.coverage, x, g); }
    if NewestKept(inp.coverage, x, g) { SameContentsSamePoint(inp.coverage, log, x, g); }
  }

  /** All stored coverage is part of a listed catalog. */
  lemma PlannedCoverageIsListed(inp: Input, q: Request, c: CoverageEntry) returns (y: CoverageEntry)
    requires ValidInput(inp) && Folded(inp, q).Some? && c in Folded(inp, q).value.coverage
    ensures y in inp.coverage && PieceOf(c, y)
  {
    var gens := Ascending(Generations(inp));
    var log := CoverageLog(inp, gens);
    GenerationsOverlay(EMPTY_PLANNER, inp, gens, q, [], log);
    LogIsLayered(EMPTY_PLANNER, inp, gens, q);
    LogIsListing(inp);
    var k := OverlayComesFrom(log, c);
    y := log[k];
  }

  lemma LogIsListing(inp: Input)
    ensures SameContents(CoverageLog(inp, Ascending(Generations(inp))), inp.coverage)
  {
    var gens := Ascending(Generations(inp));
    forall c ensures c in CoverageLog(inp, gens) <==> c in inp.coverage {
      LogHolds(inp, gens, c);
      assert c in inp.coverage ==> c.generation in Generations(inp);
    }
  }
}
