/** Artifact streams: chunks and catalog coverage published in generations, folded
    into one current view. */
module StreamModel {
  import opened Common
  import opened Sorting

  /** The descriptor fields that the planner only compares. */
  datatype Content = Content(
    rowCount: nat, cid: string, sha256: Word, byteSize: nat, encodingVersion: nat, compression: nat,
    root: Option<Word>, checkpointBlock: Option<U64>, treeNumber: Option<nat>, leafCount: Option<U64>,
    startBlock: Option<U64>, endBlock: Option<U64>, lastIndexedBlock: Option<U64>)

  /** A chunk or catalog of one stream: dataset, scope and range kind are the stream's. */
  datatype Descriptor = Descriptor(
    start: U64, end: U64, content: Content,
    generation: Option<U64>, partition: Option<string>, complete: bool, sealed: bool,
    decodedSize: Option<U64>)

  predicate Intersects(start: U64, end: U64, start': U64, end': U64) {
    start <= end && start' <= end' && start <= end' && start' <= end
  }

  predicate Within(x: int, start: U64, end: U64) {
    start <= x <= end
  }

  /** Equal content; an unstated decoded size matches any. Chunks of one stream always
      agree on dataset, scope, range kind and identifying partition. */
  predicate SameContent(a: Descriptor, b: Descriptor) {
    && a.start == b.start && a.end == b.end
    && a.content == b.content
    && a.complete == b.complete && a.sealed == b.sealed
    && (a.decodedSize.Some? && b.decodedSize.Some? ==> a.decodedSize == b.decodedSize)
  }

  // ---- Orderings ----

  function OptKey(o: Option<int>): seq<int> {
    if o.None? then [0] else [1, o.value]
  }

  /** Text, closed by a value below every character. */
  function TextKey(s: string): seq<int> {
    seq(|s|, i requires 0 <= i < |s| => s[i] as int) + [-1]
  }

  function BoolKey(b: bool): int {
    if b then 1 else 0
  }

  /** Field by field, in the order descriptors are compared. */
  function DescriptorKey(d: Descriptor): seq<int> {
    var c := d.content;
    [d.start, d.end, c.rowCount] + TextKey(c.cid)
    + OptKey(c.root) + OptKey(c.checkpointBlock) + OptKey(c.treeNumber) + OptKey(c.leafCount)
    + OptKey(c.startBlock) + OptKey(c.endBlock) + OptKey(c.lastIndexedBlock)
    + OptKey(d.generation) + (if d.partition.None? then [0] else [1] + TextKey(d.partition.value))
    + [BoolKey(d.complete), BoolKey(d.sealed)] + OptKey(d.decodedSize)
    + [c.sha256, c.byteSize, c.encodingVersion, c.compression]
  }

  // ---- Planner entries ----

  datatype Entry = Entry(descriptor: Descriptor, generation: U64, final: bool) {
    predicate Hits(start: U64, end: U64) {
      Intersects(descriptor.start, descriptor.end, start, end)
    }

    predicate Covers(x: int) {
      Within(x, descriptor.start, descriptor.end)
    }

    predicate IsReplaceableFinal() {
      final && !descriptor.sealed && !descriptor.complete
    }

    predicate IsCompleteTail() {
      final && descriptor.complete
    }

    predicate IsExplicitlyStable() {
      !final || descriptor.sealed || descriptor.complete
    }

    predicate IsFollowed(current: seq<Entry>) {
      exists y :: y in current && descriptor.end < y.descriptor.start
    }

    predicate IsReplaceable(current: seq<Entry>) {
      IsReplaceableFinal() && !IsFollowed(current)
    }

    predicate IsStable(current: seq<Entry>) {
      IsExplicitlyStable() || IsFollowed(current)
    }
  }

  datatype Coverage = Coverage(
    start: U64, end: U64, checkpoint: Option<U64>, catalogGeneration: Option<U64>,
    partition: Option<string>, complete: bool)
  {
    /** The part of a coverage within a range; a checkpoint before the range drops it. */
    function Piece(from: int, to: int): Option<Coverage> {
      if !(0 <= from <= to <= U64_MAX) then None
      else match checkpoint
           case Some(block) =>
             if block < from then None
             else Some(this.(start := from, end := to, checkpoint := Some(if block < to then block else to)))
           case None => Some(this.(start := from, end := to))
    }

    /** What is left when a range is cut out. */
    function SplitAround(from: U64, to: U64): seq<Coverage> {
      (if start < from && Piece(start, from - 1).Some? then [Piece(start, from - 1).value] else [])
      + (if to < end && Piece(to + 1, end).Some? then [Piece(to + 1, end).value] else [])
    }
  }

  datatype CoverageEntry = CoverageEntry(coverage: Coverage, generation: U64, emptyCatalog: bool) {
    predicate Covers(x: int) {
      Within(x, coverage.start, coverage.end)
    }

    predicate Hits(start: U64, end: U64) {
      Intersects(coverage.start, coverage.end, start, end)
    }
  }

  function EntryKey(e: Entry): seq<int> {
    DescriptorKey(e.descriptor)
  }

  function CoverageKey(c: CoverageEntry): seq<int> {
    [c.coverage.start, c.coverage.end, c.generation, BoolKey(c.emptyCatalog)]
  }

  /** A requested part of a chunk that a newer generation pushed out. */
  datatype Superseded = Superseded(generation: U64, start: U64, end: U64)

  datatype Request = Request(start: U64, end: U64)

  datatype Planner = Planner(
    current: seq<Entry>, coverage: seq<CoverageEntry>,
    completeTail: Option<U64>, completeRanges: seq<(U64, U64)>, superseded: seq<Superseded>)

  const EMPTY_PLANNER: Planner := Planner([], [], None, [], [])

  predicate ValidRange(e: Entry) {
    e.descriptor.start <= e.descriptor.end
  }

  predicate ValidCoverage(c: CoverageEntry) {
    c.coverage.start <= c.coverage.end
  }

  predicate Disjoint(es: seq<Entry>) {
    && (forall i :: 0 <= i < |es| ==> ValidRange(es[i]))
    && forall i, j :: 0 <= i < j < |es| ==> !es[i].Hits(es[j].descriptor.start, es[j].descriptor.end)
  }

  predicate DisjointCoverage(cs: seq<CoverageEntry>) {
    && (forall i :: 0 <= i < |cs| ==> ValidCoverage(cs[i]))
    && forall i, j :: 0 <= i < j < |cs| ==> !cs[i].Hits(cs[j].coverage.start, cs[j].coverage.end)
  }

  // ---- What one entry or coverage does to the planner ----

  /** `x` gives way to something newer on the range. */
  predicate GivesWay(x: Entry, current: seq<Entry>, generation: U64, start: U64, end: U64) {
    x.Hits(start, end) && x.IsReplaceable(current) && generation > x.generation
  }

  function Remaining(xs: seq<Entry>, current: seq<Entry>, generation: U64, start: U64, end: U64): seq<Entry> {
    if xs == [] then []
    else
      var rest := Remaining(xs[..|xs| - 1], current, generation, start, end);
      var x := xs[|xs| - 1];
      if GivesWay(x, current, generation, start, end) then rest else rest + [x]
  }

  function RequestedOverlap(x: Entry, q: Request): seq<Superseded> {
    if !x.Hits(q.start, q.end) then []
    else [Superseded(x.generation,
                     if x.descriptor.start < q.start then q.start else x.descriptor.start,
                     if x.descriptor.end < q.end then x.descriptor.end else q.end)]
  }

  function NewlySuperseded(xs: seq<Entry>, current: seq<Entry>, generation: U64, start: U64, end: U64, q: Request): seq<Superseded> {
    if xs == [] then []
    else
      var rest := NewlySuperseded(xs[..|xs| - 1], current, generation, start, end, q);
      var x := xs[|xs| - 1];
      if GivesWay(x, current, generation, start, end) then rest + RequestedOverlap(x, q) else rest
  }

  predicate ExtendsComplete(p: Planner, end: U64) {
    || (p.completeTail.Some? && end > p.completeTail.value)
    || FirstCompleteTailBefore(p.current, end)
  }

  /** The first complete tail of the current chunks ends before `end`. */
  predicate FirstCompleteTailBefore(current: seq<Entry>, end: U64) {
    exists i :: 0 <= i < |current| && current[i].IsCompleteTail() && end > current[i].descriptor.end
      && forall j :: 0 <= j < i ==> !current[j].IsCompleteTail()
  }

  predicate HitsCompleteRange(p: Planner, start: U64, end: U64) {
    exists i :: 0 <= i < |p.completeRanges| && p.completeRanges[i].0 <= end && start <= p.completeRanges[i].1
  }

  predicate Repeats(x: Entry, current: seq<Entry>, e: Entry) {
    x.Hits(e.descriptor.start, e.descriptor.end)
    && !GivesWay(x, current, e.generation, e.descriptor.start, e.descriptor.end)
    && x.IsStable(current) && SameContent(x.descriptor, e.descriptor)
  }

  /** An entry is refused when it extends a completed stream, meets completed coverage,
      or meets a chunk that neither gives way nor is the same chunk again. */
  predicate EntryRefused(p: Planner, e: Entry) {
    || ExtendsComplete(p, e.descriptor.end)
    || HitsCompleteRange(p, e.descriptor.start, e.descriptor.end)
    || exists x :: x in p.current && x.Hits(e.descriptor.start, e.descriptor.end)
         && !GivesWay(x, p.current, e.generation, e.descriptor.start, e.descriptor.end)
         && !Repeats(x, p.current, e)
  }

  predicate EntryRepeats(p: Planner, e: Entry) {
    exists x :: x in p.current && Repeats(x, p.current, e)
  }

  function LowerTail(tail: Option<U64>, end: U64): Option<U64> {
    if tail.None? || end < tail.value then Some(end) else tail
  }

  function AfterEntry(p: Planner, e: Entry, q: Request): Option<Planner> {
    if EntryRefused(p, e) then None
    else
      var (start, end) := (e.descriptor.start, e.descriptor.end);
      var kept := Remaining(p.current, p.current, e.generation, start, end);
      var gone := NewlySuperseded(p.current, p.current, e.generation, start, end, q);
      if EntryRepeats(p, e) then Some(p.(current := kept, superseded := p.superseded + gone))
      else Some(p.(current := kept + [e], superseded := p.superseded + gone,
                   completeTail := if e.descriptor.complete then LowerTail(p.completeTail, end) else p.completeTail))
  }

  /** Older coverage on the range is cut; newer or equal coverage stays whole. */
  function CutAround(cs: seq<CoverageEntry>, c: CoverageEntry): seq<CoverageEntry> {
    if cs == [] then []
    else
      var rest := CutAround(cs[..|cs| - 1], c);
      rest + Cut(cs[|cs| - 1], c)
  }

  function Cut(x: CoverageEntry, c: CoverageEntry): seq<CoverageEntry> {
    if !x.Hits(c.coverage.start, c.coverage.end) || x.generation >= c.generation then [x]
    else
      var pieces := x.coverage.SplitAround(c.coverage.start, c.coverage.end);
      seq(|pieces|, i requires 0 <= i < |pieces| => x.(coverage := pieces[i]))
  }

  predicate Crowded(cs: seq<CoverageEntry>, c: CoverageEntry) {
    exists x :: x in cs && x.generation == c.generation && x.Hits(c.coverage.start, c.coverage.end)
  }

  function AfterCoverage(p: Planner, c: CoverageEntry, q: Request): Option<Planner> {
    if ExtendsComplete(p, c.coverage.end) then None
    else
      var (start, end) := (c.coverage.start, c.coverage.end);
      var kept := Remaining(p.current, p.current, c.generation, start, end);
      var gone := NewlySuperseded(p.current, p.current, c.generation, start, end, q);
      var cut := CutAround(p.coverage, c);
      var moved := p.(current := kept, superseded := p.superseded + gone, coverage := cut);
      if Crowded(cut, c) then Some(moved)
      else if c.emptyCatalog && c.coverage.complete then
        Some(moved.(coverage := cut + [c], completeTail := LowerTail(p.completeTail, end),
                    completeRanges := p.completeRanges + [(start, end)]))
      else Some(moved.(coverage := cut + [c]))
  }

  // ---- The sweep that checks superseded ranges ----

  /** Walks ranges in ascending order, moving a cursor past each. */
  function Sweep(ranges: seq<(U64, U64)>, cursor: int, end: U64): bool {
    if ranges == [] then false
    else if ranges[0].0 > cursor then false
    else if ranges[0].1 >= end then true
    else Sweep(ranges[1..], ranges[0].1 + 1, end)
  }

  function PairKey(r: (U64, U64)): seq<int> {
    [r.0, r.1]
  }

  /** The ranges that may cover a superseded part: current chunks, and coverage newer
      than the superseded chunk, as far as they meet it. */
  function Candidates(s: Superseded, current: seq<Entry>, coverage: seq<CoverageEntry>): seq<(U64, U64)> {
    ChunkRanges(s, current) + NewerRanges(s, coverage)
  }

  function ChunkRanges(s: Superseded, es: seq<Entry>): seq<(U64, U64)> {
    if es == [] then []
    else
      var x := es[|es| - 1].descriptor;
      ChunkRanges(s, es[..|es| - 1]) + (if x.start <= s.end && s.start <= x.end then [(x.start, x.end)] else [])
  }

  function NewerRanges(s: Superseded, cs: seq<CoverageEntry>): seq<(U64, U64)> {
    if cs == [] then []
    else
      var last := cs[|cs| - 1];
      var x := last.coverage;
      NewerRanges(s, cs[..|cs| - 1])
      + (if last.generation > s.generation && x.start <= s.end && s.start <= x.end then [(x.start, x.end)] else [])
  }

  predicate IsCovered(s: Superseded, current: seq<Entry>, coverage: seq<CoverageEntry>) {
    Sweep(SortBy(Candidates(s, current, coverage), PairKey), s.start, s.end)
  }
}
