/** What every step of the planner keeps. */
module StreamFold {
  import opened Common
  import opened Sorting
  import opened StreamModel

  // ---- Stability ----

  /** A chunk is stable exactly when it is not replaceable. */
  lemma StableIsNotReplaceable(x: Entry, current: seq<Entry>)
    ensures x.IsStable(current) <==> !x.IsReplaceable(current)
  {
  }

  /** Among disjoint chunks only the one with the greatest range can be replaceable. */
  lemma ReplaceableIsGreatest(current: seq<Entry>, i: nat, j: nat)
    requires Disjoint(current) && i < |current| && j < |current| && i != j
    requires current[i].IsReplaceable(current)
    ensures current[j].descriptor.end < current[i].descriptor.start
    ensures !current[j].IsReplaceable(current) && current[j].IsStable(current)
  {
    StableIsNotReplaceable(current[j], current);
    var x, y := current[i], current[j];
    assert y in current && x in current;
    assert !(x.descriptor.end < y.descriptor.start);
    if i < j {
      assert !x.Hits(y.descriptor.start, y.descriptor.end);
    } else {
      assert !y.Hits(x.descriptor.start, x.descriptor.end);
    }
  }

  // ---- Filtering the current chunks ----

  /** Exactly the chunks that do not give way remain, in order. */
  lemma {:induction false} RemainingIsFilter(xs: seq<Entry>, current: seq<Entry>, g: U64, start: U64, end: U64)
    ensures var r := Remaining(xs, current, g, start, end);
            forall x :: x in r <==> x in xs && !GivesWay(x, current, g, start, end)
    decreases |xs|
  {
    if xs != [] {
      var n := |xs| - 1;
      RemainingIsFilter(xs[..n], current, g, start, end);
      assert xs == xs[..n] + [xs[n]];
    }
  }

  lemma {:induction false} RemainingDisjoint(xs: seq<Entry>, current: seq<Entry>, g: U64, start: U64, end: U64)
    requires Disjoint(xs)
    ensures Disjoint(Remaining(xs, current, g, start, end))
    decreases |xs|
  {
    if xs != [] {
      var n := |xs| - 1;
      var rest := Remaining(xs[..n], current, g, start, end);
      RemainingDisjoint(xs[..n], current, g, start, end);
      RemainingIsFilter(xs[..n], current, g, start, end);
      if !GivesWay(xs[n], current, g, start, end) {
        forall i | 0 <= i < |rest| ensures !rest[i].Hits(xs[n].descriptor.start, xs[n].descriptor.end) {
          assert rest[i] in rest;
          var k :| 0 <= k < n && xs[k] == rest[i];
        }
      }
    }
  }

  /** The chunks that gave way are the ones recorded, clipped to the request. */
  lemma {:induction false} SupersededRecordsGivers(
    xs: seq<Entry>, current: seq<Entry>, g: U64, start: U64, end: U64, q: Request, x: Entry)
    requires x in xs && GivesWay(x, current, g, start, end) && x.Hits(q.start, q.end)
    ensures exists s :: s in NewlySuperseded(xs, current, g, start, end, q) && RequestedOverlap(x, q) == [s]
    decreases |xs|
  {
    var n := |xs| - 1;
    var s := RequestedOverlap(x, q)[0];
    if xs[n] == x {
      assert s in NewlySuperseded(xs, current, g, start, end, q);
    } else {
      assert x in xs[..n];
      SupersededRecordsGivers(xs[..n], current, g, start, end, q, x);
    }
  }

  // ---- Current chunks stay disjoint ----

  /** Without a refusal, whatever met the entry either gave way or is the entry again. */
  lemma AcceptedEntryClearsRange(p: Planner, e: Entry)
    requires Disjoint(p.current) && !EntryRefused(p, e) && !EntryRepeats(p, e)
    ensures var (start, end) := (e.descriptor.start, e.descriptor.end);
            forall x :: x in Remaining(p.current, p.current, e.generation, start, end) ==> !x.Hits(start, end)
  {
    RemainingIsFilter(p.current, p.current, e.generation, e.descriptor.start, e.descriptor.end);
  }

  lemma EntryKeepsDisjoint(p: Planner, e: Entry, q: Request)
    requires Disjoint(p.current) && ValidRange(e) && AfterEntry(p, e, q).Some?
    ensures Disjoint(AfterEntry(p, e, q).value.current)
  {
    var (start, end) := (e.descriptor.start, e.descriptor.end);
    var kept := Remaining(p.current, p.current, e.generation, start, end);
    RemainingDisjoint(p.current, p.current, e.generation, start, end);
    if !EntryRepeats(p, e) {
      AcceptedEntryClearsRange(p, e);
      forall i | 0 <= i < |kept| ensures !kept[i].Hits(start, end) {
        assert kept[i] in kept;
      }
    }
  }

  /** Skipping a repeated chunk never also removes one. */
  lemma RepeatRemovesNothing(p: Planner, e: Entry, x: Entry)
    requires Disjoint(p.current) && ValidRange(e) && EntryRepeats(p, e) && x in p.current
    ensures !GivesWay(x, p.current, e.generation, e.descriptor.start, e.descriptor.end)
  {
    var y :| y in p.current && Repeats(y, p.current, e);
    var i :| 0 <= i < |p.current| && p.current[i] == x;
    var j :| 0 <= j < |p.current| && p.current[j] == y;
    if i < j {
      assert !x.Hits(y.descriptor.start, y.descriptor.end);
    } else if j < i {
      assert !y.Hits(x.descriptor.start, x.descriptor.end);
    }
  }

  /** Sealed, complete or non-final chunks are never removed by an entry. */
  lemma StableSurvivesEntry(p: Planner, e: Entry, q: Request, x: Entry)
    requires AfterEntry(p, e, q).Some? && x in p.current && x.IsExplicitlyStable()
    ensures x in AfterEntry(p, e, q).value.current
  {
    RemainingIsFilter(p.current, p.current, e.generation, e.descriptor.start, e.descriptor.end);
  }

  lemma StableSurvivesCoverage(p: Planner, c: CoverageEntry, q: Request, x: Entry)
    requires AfterCoverage(p, c, q).Some? && x in p.current && x.IsExplicitlyStable()
    ensures x in AfterCoverage(p, c, q).value.current
  {
    RemainingIsFilter(p.current, p.current, c.generation, c.coverage.start, c.coverage.end);
  }

  // ---- What becomes of one chunk at one index ----

  /** The same chunk, apart from the final mark. */
  predicate SameChunk(y: Entry, h: Entry) {
    y.descriptor == h.descriptor && y.generation == h.generation
  }

  predicate IsCurrent(p: Planner, h: Entry) {
    exists y :: y in p.current && SameChunk(y, h)
  }

  predicate Recorded(p: Planner, h: Entry, x: int) {
    exists s :: s in p.superseded && s.generation == h.generation && Within(x, s.start, s.end)
  }

  predicate OnlyNewerAt(current: seq<Entry>, g: U64, x: int) {
    forall y :: y in current && y.Covers(x) ==> y.generation > g
  }

  /** The chunk is current, or its loss of the index is recorded and only newer chunks
      have the index, now and when generations from `floor` on are applied. */
  predicate Held(p: Planner, h: Entry, x: int, floor: U64) {
    IsCurrent(p, h) || (h.generation < floor && Recorded(p, h, x) && OnlyNewerAt(p.current, h.generation, x))
  }

  /** Among disjoint chunks at most one has the index. */
  lemma OneCovers(current: seq<Entry>, y: Entry, z: Entry, x: int)
    requires Disjoint(current) && y in current && z in current && y.Covers(x) && z.Covers(x)
    ensures y == z
  {
    var i :| 0 <= i < |current| && current[i] == y;
    var j :| 0 <= j < |current| && current[j] == z;
    assert y.Hits(z.descriptor.start, z.descriptor.end) && z.Hits(y.descriptor.start, y.descriptor.end);
    assert i == j;
  }

  /** What removing chunks on a range does to a held chunk: it stays, or its record is
      there and the index is left to newer chunks. */
  lemma RemovalKeepsHeld(p: Planner, g: U64, start: U64, end: U64, q: Request, h: Entry, x: int)
    requires Disjoint(p.current) && Held(p, h, x, g) && h.Covers(x) && Within(x, q.start, q.end)
    ensures Held(p.(current := Remaining(p.current, p.current, g, start, end),
                    superseded := p.superseded + NewlySuperseded(p.current, p.current, g, start, end, q)), h, x, g)
  {
    var kept := Remaining(p.current, p.current, g, start, end);
    var gone := NewlySuperseded(p.current, p.current, g, start, end, q);
    RemainingIsFilter(p.current, p.current, g, start, end);
    if y :| y in p.current && SameChunk(y, h) {
      if GivesWay(y, p.current, g, start, end) {
        SupersededRecordsGivers(p.current, p.current, g, start, end, q, y);
        var s :| s in gone && RequestedOverlap(y, q) == [s];
        assert s in p.superseded + gone && Within(x, s.start, s.end);
        forall z | z in p.current && z.Covers(x) ensures z == y {
          OneCovers(p.current, y, z, x);
        }
      }
    } else {
      var s :| s in p.superseded && s.generation == h.generation && Within(x, s.start, s.end);
      assert s in p.superseded + gone;
    }
  }

  lemma EntryKeepsHeld(p: Planner, e: Entry, q: Request, h: Entry, x: int)
    requires Disjoint(p.current) && AfterEntry(p, e, q).Some?
    requires Held(p, h, x, e.generation) && h.Covers(x) && Within(x, q.start, q.end)
    ensures Held(AfterEntry(p, e, q).value, h, x, e.generation)
  {
    RemovalKeepsHeld(p, e.generation, e.descriptor.start, e.descriptor.end, q, h, x);
  }

  lemma CoverageKeepsHeld(p: Planner, c: CoverageEntry, q: Request, h: Entry, x: int)
    requires Disjoint(p.current) && AfterCoverage(p, c, q).Some?
    requires Held(p, h, x, c.generation) && h.Covers(x) && Within(x, q.start, q.end)
    ensures Held(AfterCoverage(p, c, q).value, h, x, c.generation)
  {
    RemovalKeepsHeld(p, c.generation, c.coverage.start, c.coverage.end, q, h, x);
  }

  /** Accepting an entry leaves it current, or the stable chunk it repeats. */
  lemma AcceptedEntryIsCurrent(p: Planner, e: Entry, q: Request) returns (h: Entry)
    requires Disjoint(p.current) && ValidRange(e) && AfterEntry(p, e, q).Some?
    ensures h in AfterEntry(p, e, q).value.current
    ensures h == e || (h in p.current && SameContent(h.descriptor, e.descriptor))
  {
    h := e;
    if EntryRepeats(p, e) {
      h :| h in p.current && Repeats(h, p.current, e);
      RemainingIsFilter(p.current, p.current, e.generation, e.descriptor.start, e.descriptor.end);
    }
  }

  // ---- The sweep ----

  predicate RangesCover(ranges: seq<(U64, U64)>, x: int) {
    exists i :: 0 <= i < |ranges| && Within(x, ranges[i].0, ranges[i].1)
  }

  predicate CoverAll(ranges: seq<(U64, U64)>, start: U64, end: U64) {
    forall x :: start <= x <= end ==> RangesCover(ranges, x)
  }

  /** The sweep is sound for every list: when it succeeds, nothing is uncovered. */
  lemma {:induction false} SweepIsSound(ranges: seq<(U64, U64)>, cursor: int, end: U64, x: int)
    requires Sweep(ranges, cursor, end) && cursor <= x <= end
    ensures RangesCover(ranges, x)
    decreases |ranges|
  {
    if x <= ranges[0].1 {
      assert Within(x, ranges[0].0, ranges[0].1);
    } else {
      SweepIsSound(ranges[1..], ranges[0].1 + 1, end, x);
      var i :| 0 <= i < |ranges[1..]| && Within(x, ranges[1..][i].0, ranges[1..][i].1);
      assert Within(x, ranges[i + 1].0, ranges[i + 1].1);
    }
  }

  predicate RangesAscend(ranges: seq<(U64, U64)>) {
    forall i, j :: 0 <= i < j < |ranges| ==> ranges[i].0 <= ranges[j].0
  }

  /** None of the first ranges reaches the end. */
  predicate StillShort(ranges: seq<(U64, U64)>, n: nat, end: U64)
    requires n <= |ranges|
  {
    forall j :: 0 <= j < n ==> ranges[j].1 < end
  }

  /** Before the first range that reaches the end, each range is followed by one that
      starts at most one past its own end. */
  predicate Unbroken(ranges: seq<(U64, U64)>, end: U64) {
    forall i :: 0 <= i < |ranges| - 1 && StillShort(ranges, i + 1, end) ==> ranges[i + 1].0 <= ranges[i].1 + 1
  }

  predicate Reaches(ranges: seq<(U64, U64)>, end: U64) {
    exists i :: 0 <= i < |ranges| && end <= ranges[i].1
  }

  lemma UnbrokenTail(ranges: seq<(U64, U64)>, end: U64)
    requires ranges != [] && ranges[0].1 < end
    ensures Unbroken(ranges, end) <==> Unbroken(ranges[1..], end) && (|ranges| > 1 ==> ranges[1].0 <= ranges[0].1 + 1)
  {
    var rest := ranges[1..];
    forall n | 0 <= n <= |rest| ensures StillShort(rest, n, end) <==> StillShort(ranges, n + 1, end) {
      assert forall j :: 0 <= j < n ==> rest[j] == ranges[j + 1];
    }
    if Unbroken(ranges, end) {
      assert StillShort(ranges, 1, end);
      assert forall i :: 0 <= i < |rest| ==> rest[i] == ranges[i + 1];
    } else {
      var i :| 0 <= i < |ranges| - 1 && StillShort(ranges, i + 1, end) && ranges[i + 1].0 > ranges[i].1 + 1;
      assert i > 0 ==> rest[i - 1] == ranges[i] && rest[i] == ranges[i + 1];
    }
  }

  /** What the sweep does on any list. */
  lemma {:induction false} SweepIs(ranges: seq<(U64, U64)>, cursor: int, end: U64)
    ensures Sweep(ranges, cursor, end)
            <==> ranges != [] && ranges[0].0 <= cursor && Reaches(ranges, end) && Unbroken(ranges, end)
    decreases |ranges|
  {
    if ranges != [] {
      if ranges[0].1 >= end {
        assert forall n :: 0 < n <= |ranges| ==> !StillShort(ranges, n, end);
      } else {
        var rest := ranges[1..];
        SweepIs(rest, ranges[0].1 + 1, end);
        UnbrokenTail(ranges, end);
        assert Reaches(ranges, end) <==> Reaches(rest, end) by {
          assert forall i :: 0 <= i < |rest| ==> rest[i] == ranges[i + 1];
          assert ranges == [ranges[0]] + rest;
        }
      }
    }
  }

  /** The sweep over ranges in ascending order succeeds exactly when the range is covered
      and no range before the finishing one ends more than one below the next start. */
  lemma SweepIsExact(ranges: seq<(U64, U64)>, start: U64, end: U64)
    requires RangesAscend(ranges) && start <= end
    ensures Sweep(ranges, start, end) <==> CoverAll(ranges, start, end) && Unbroken(ranges, end)
  {
    SweepIs(ranges, start, end);
    if Sweep(ranges, start, end) {
      forall x | start <= x <= end ensures RangesCover(ranges, x) {
        SweepIsSound(ranges, start, end, x);
      }
    }
    if CoverAll(ranges, start, end) {
      assert RangesCover(ranges, start) && RangesCover(ranges, end);
    }
  }

  // ---- Candidates of a superseded range ----

  lemma {:induction false} ChunkRangeComesFrom(s: Superseded, es: seq<Entry>, r: (U64, U64))
    requires r in ChunkRanges(s, es)
    ensures exists e :: e in es && r == (e.descriptor.start, e.descriptor.end)
    decreases |es|
  {
    var n := |es| - 1;
    if r in ChunkRanges(s, es[..n]) {
      ChunkRangeComesFrom(s, es[..n], r);
      var e :| e in es[..n] && r == (e.descriptor.start, e.descriptor.end);
      assert e in es;
    } else {
      assert es[n] in es;
    }
  }

  lemma {:induction false} NewerRangeComesFrom(s: Superseded, cs: seq<CoverageEntry>, r: (U64, U64))
    requires r in NewerRanges(s, cs)
    ensures exists c :: c in cs && c.generation > s.generation && r == (c.coverage.start, c.coverage.end)
    decreases |cs|
  {
    var n := |cs| - 1;
    if r in NewerRanges(s, cs[..n]) {
      NewerRangeComesFrom(s, cs[..n], r);
      var c :| c in cs[..n] && c.generation > s.generation && r == (c.coverage.start, c.coverage.end);
      assert c in cs;
    } else {
      assert cs[n] in cs;
    }
  }

  /** Where the index of a covered superseded range is found. */
  predicate FoundNewer(current: seq<Entry>, coverage: seq<CoverageEntry>, generation: U64, x: int) {
    || (exists e :: e in current && e.Covers(x))
    || (exists c :: c in coverage && c.generation > generation && c.Covers(x))
  }

  lemma SortedCovers(s: Superseded, current: seq<Entry>, coverage: seq<CoverageEntry>, x: int)
    requires Within(x, s.start, s.end)
    ensures RangesCover(SortBy(Candidates(s, current, coverage), PairKey), x) <==> FoundNewer(current, coverage, s.generation, x)
  {
    var candidates := Candidates(s, current, coverage);
    var sorted := SortBy(candidates, PairKey);
    if RangesCover(sorted, x) {
      var i :| 0 <= i < |sorted| && Within(x, sorted[i].0, sorted[i].1);
      assert sorted[i] in multiset(sorted);
      CandidateIsFound(s, current, coverage, sorted[i], x);
    }
    if FoundNewer(current, coverage, s.generation, x) {
      var r := FoundIsCandidate(s, current, coverage, x);
      assert r in multiset(sorted);
      var i :| 0 <= i < |sorted| && sorted[i] == r;
      assert Within(x, sorted[i].0, sorted[i].1);
    }
  }

  lemma CandidateIsFound(s: Superseded, current: seq<Entry>, coverage: seq<CoverageEntry>, r: (U64, U64), x: int)
    requires r in Candidates(s, current, coverage) && Within(x, r.0, r.1)
    ensures FoundNewer(current, coverage, s.generation, x)
  {
    if r in ChunkRanges(s, current) {
      ChunkRangeComesFrom(s, current, r);
      var e :| e in current && r == (e.descriptor.start, e.descriptor.end);
      assert e.Covers(x);
    } else {
      NewerRangeComesFrom(s, coverage, r);
      var c :| c in coverage && c.generation > s.generation && r == (c.coverage.start, c.coverage.end);
      assert c.Covers(x);
    }
  }

  lemma {:induction false} ChunkRangeIsListed(s: Superseded, es: seq<Entry>, e: Entry, x: int)
    requires e in es && e.Covers(x) && Within(x, s.start, s.end)
    ensures (e.descriptor.start, e.descriptor.end) in ChunkRanges(s, es)
    decreases |es|
  {
    if es[|es| - 1] != e { ChunkRangeIsListed(s, es[..|es| - 1], e, x); }
  }

  lemma {:induction false} NewerRangeIsListed(s: Superseded, cs: seq<CoverageEntry>, c: CoverageEntry, x: int)
    requires c in cs && c.Covers(x) && c.generation > s.generation && Within(x, s.start, s.end)
    ensures (c.coverage.start, c.coverage.end) in NewerRanges(s, cs)
    decreases |cs|
  {
    if cs[|cs| - 1] != c { NewerRangeIsListed(s, cs[..|cs| - 1], c, x); }
  }

  lemma FoundIsCandidate(s: Superseded, current: seq<Entry>, coverage: seq<CoverageEntry>, x: int) returns (r: (U64, U64))
    requires FoundNewer(current, coverage, s.generation, x) && Within(x, s.start, s.end)
    ensures r in Candidates(s, current, coverage) && Within(x, r.0, r.1)
  {
    if e :| e in current && e.Covers(x) {
      r := (e.descriptor.start, e.descriptor.end);
      ChunkRangeIsListed(s, current, e, x);
    } else {
      var c :| c in coverage && c.generation > s.generation && c.Covers(x);
      r := (c.coverage.start, c.coverage.end);
      NewerRangeIsListed(s, coverage, c, x);
    }
  }

  lemma SortedPairsAscend(ranges: seq<(U64, U64)>)
    requires SortedBy(ranges, PairKey)
    ensures RangesAscend(ranges)
  {
    forall i, j | 0 <= i < j < |ranges| ensures ranges[i].0 <= ranges[j].0 {
      assert LexLeq(PairKey(ranges[i]), PairKey(ranges[j]));
    }
  }

  /** Every index of the range is found in a current chunk or in newer coverage. */
  predicate AllFound(s: Superseded, current: seq<Entry>, coverage: seq<CoverageEntry>) {
    forall x :: s.start <= x <= s.end ==> FoundNewer(current, coverage, s.generation, x)
  }

  lemma CandidatesCoverAll(s: Superseded, current: seq<Entry>, coverage: seq<CoverageEntry>)
    ensures CoverAll(SortBy(Candidates(s, current, coverage), PairKey), s.start, s.end) <==> AllFound(s, current, coverage)
  {
    var sorted := SortBy(Candidates(s, current, coverage), PairKey);
    forall x | s.start <= x <= s.end
      ensures RangesCover(sorted, x) <==> FoundNewer(current, coverage, s.generation, x)
    {
      SortedCovers(s, current, coverage, x);
    }
  }

  /** A superseded range counts as covered exactly when each index of it is in a current
      chunk or in newer coverage, and no candidate before the finishing one ends more
      than one below the next candidate's start. */
  lemma CoveredExactly(s: Superseded, current: seq<Entry>, coverage: seq<CoverageEntry>)
    requires s.start <= s.end
    ensures IsCovered(s, current, coverage)
            <==> AllFound(s, current, coverage) && Unbroken(SortBy(Candidates(s, current, coverage), PairKey), s.end)
  {
    var sorted := SortBy(Candidates(s, current, coverage), PairKey);
    SortedPairsAscend(sorted);
    SweepIsExact(sorted, s.start, s.end);
    CandidatesCoverAll(s, current, coverage);
  }

  lemma CoveredIsFound(s: Superseded, current: seq<Entry>, coverage: seq<CoverageEntry>, x: int)
    requires IsCovered(s, current, coverage) && Within(x, s.start, s.end)
    ensures FoundNewer(current, coverage, s.generation, x)
  {
    CoveredExactly(s, current, coverage);
  }
}
