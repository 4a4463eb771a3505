/** Coverage splitting refines a point overlay: at each index the newest generation
    that covers it wins. */
module StreamOverlay {
  import opened Common
  import opened StreamModel

  /** Some entry of the generation covers the index. */
  predicate CoveredAt(cs: seq<CoverageEntry>, x: int, g: U64) {
    exists i :: 0 <= i < |cs| && cs[i].Covers(x) && cs[i].generation == g
  }

  /** Generations ascend, and within one generation ranges do not meet. */
  predicate Layered(ins: seq<CoverageEntry>) {
    && (forall i :: 0 <= i < |ins| ==> ValidCoverage(ins[i]))
    && forall i, j :: 0 <= i < j < |ins| ==>
         && ins[i].generation <= ins[j].generation
         && (ins[i].generation == ins[j].generation ==> !ins[i].Hits(ins[j].coverage.start, ins[j].coverage.end))
  }

  /** The coverage that remains after applying entries one after another. */
  function Overlay(ins: seq<CoverageEntry>): seq<CoverageEntry> {
    if ins == [] then []
    else
      var c := ins[|ins| - 1];
      var cut := CutAround(Overlay(ins[..|ins| - 1]), c);
      if Crowded(cut, c) then cut else cut + [c]
  }

  // ---- One cut ----

  /** Every piece lies inside the entry it was cut from and says the same of it; a piece
      that was cut off is checkpointed no further than it goes. */
  predicate PieceOf(y: CoverageEntry, x: CoverageEntry) {
    && y.generation == x.generation && y.emptyCatalog == x.emptyCatalog
    && x.coverage.start <= y.coverage.start <= y.coverage.end <= x.coverage.end
    && y.coverage.catalogGeneration == x.coverage.catalogGeneration && y.coverage.partition == x.coverage.partition
    && y.coverage.complete == x.coverage.complete
    && (y == x || y.coverage.checkpoint == CutOff(x.coverage.checkpoint, y.coverage.end))
  }

  /** A checkpoint, no further than the end. */
  function CutOff(checkpoint: Option<U64>, end: U64): Option<U64> {
    match checkpoint
    case None => None
    case Some(block) => Some(if block <= end then block else end)
  }

  predicate Apart(x: CoverageEntry, y: CoverageEntry) {
    !x.Hits(y.coverage.start, y.coverage.end)
  }

  lemma CutPieces(x: CoverageEntry, c: CoverageEntry)
    requires ValidCoverage(x) && ValidCoverage(c)
    ensures forall i :: 0 <= i < |Cut(x, c)| ==> PieceOf(Cut(x, c)[i], x)
    ensures forall i, j :: 0 <= i < j < |Cut(x, c)| ==> Apart(Cut(x, c)[i], Cut(x, c)[j])
    ensures x.generation < c.generation ==> forall i :: 0 <= i < |Cut(x, c)| ==> Apart(Cut(x, c)[i], c)
  {
  }

  /** A checkpoint, if there is one, is at or after the index. */
  predicate Allows(x: CoverageEntry, from: int) {
    x.coverage.checkpoint.None? || from <= x.coverage.checkpoint.value
  }

  /** Where the piece with the index starts once the range is cut out. */
  function PieceStart(x: CoverageEntry, c: CoverageEntry, p: int): int {
    if p < c.coverage.start then x.coverage.start else c.coverage.end + 1
  }

  /** A cut keeps exactly the indexes outside the cutting range whose piece does not start
      after the checkpoint; an entry it does not meet it leaves alone. */
  lemma CutPoints(x: CoverageEntry, c: CoverageEntry, p: int)
    requires ValidCoverage(x) && ValidCoverage(c) && x.generation < c.generation
    ensures CoveredAt(Cut(x, c), p, x.generation)
       <==> x.Covers(p) && !c.Covers(p) && (Apart(x, c) || Allows(x, PieceStart(x, c, p)))
  {
    var cut := Cut(x, c);
    if x.Covers(p) && !c.Covers(p) && (Apart(x, c) || Allows(x, PieceStart(x, c, p))) {
      if Apart(x, c) {
        assert cut[0] == x;
      } else if p < c.coverage.start {
        assert cut[0].Covers(p);
      } else {
        assert cut[|cut| - 1].Covers(p);
      }
    }
  }

  // ---- Cutting a whole list ----

  lemma {:induction false} CutComesFrom(cs: seq<CoverageEntry>, c: CoverageEntry, i: nat)
    requires (forall k :: 0 <= k < |cs| ==> ValidCoverage(cs[k])) && ValidCoverage(c)
    requires i < |CutAround(cs, c)|
    ensures exists k :: 0 <= k < |cs| && PieceOf(CutAround(cs, c)[i], cs[k])
    decreases |cs|
  {
    var n := |cs| - 1;
    var rest := CutAround(cs[..n], c);
    if i < |rest| {
      CutComesFrom(cs[..n], c, i);
      var k :| 0 <= k < n && PieceOf(rest[i], cs[..n][k]);
      assert PieceOf(CutAround(cs, c)[i], cs[k]);
    } else {
      CutPieces(cs[n], c);
      assert PieceOf(CutAround(cs, c)[i], cs[n]);
    }
  }

  lemma PiecesStayApart(x: CoverageEntry, y: CoverageEntry, x': CoverageEntry, y': CoverageEntry)
    requires Apart(x, y) && PieceOf(x', x) && PieceOf(y', y)
    ensures Apart(x', y')
  {
  }

  lemma {:induction false} CutStaysDisjoint(cs: seq<CoverageEntry>, c: CoverageEntry)
    requires DisjointCoverage(cs) && ValidCoverage(c)
    ensures DisjointCoverage(CutAround(cs, c))
    decreases |cs|
  {
    if cs != [] {
      var n := |cs| - 1;
      var rest, last := CutAround(cs[..n], c), Cut(cs[n], c);
      CutStaysDisjoint(cs[..n], c);
      CutPieces(cs[n], c);
      forall i, j | 0 <= i < |rest| && 0 <= j < |last| ensures Apart(rest[i], last[j]) {
        CutComesFrom(cs[..n], c, i);
        var k :| 0 <= k < n && PieceOf(rest[i], cs[..n][k]);
        assert Apart(cs[k], cs[n]);
        PiecesStayApart(cs[k], cs[n], rest[i], last[j]);
      }
      JoinDisjoint(rest, last);
    }
  }

  lemma JoinDisjoint(a: seq<CoverageEntry>, b: seq<CoverageEntry>)
    requires DisjointCoverage(a)
    requires forall i :: 0 <= i < |b| ==> ValidCoverage(b[i])
    requires forall i, j :: 0 <= i < j < |b| ==> Apart(b[i], b[j])
    requires forall i, j :: 0 <= i < |a| && 0 <= j < |b| ==> Apart(a[i], b[j])
    ensures DisjointCoverage(a + b)
  {
    var all := a + b;
    forall i, j | 0 <= i < j < |all| ensures !all[i].Hits(all[j].coverage.start, all[j].coverage.end) {
      if i < |a| && j >= |a| {
        assert Apart(a[i], b[j - |a|]);
      } else if i >= |a| {
        assert Apart(b[i - |a|], b[j - |a|]);
      }
    }
  }

  lemma {:induction false} CutAroundHas(cs: seq<CoverageEntry>, c: CoverageEntry, y: CoverageEntry, z: CoverageEntry)
    requires y in cs && z in Cut(y, c)
    ensures z in CutAround(cs, c)
    decreases |cs|
  {
    var n := |cs| - 1;
    if y != cs[n] { CutAroundHas(cs[..n], c, y, z); }
  }

  lemma {:induction false} CutAroundFrom(cs: seq<CoverageEntry>, c: CoverageEntry, z: CoverageEntry) returns (y: CoverageEntry)
    requires z in CutAround(cs, c)
    ensures y in cs && z in Cut(y, c)
    decreases |cs|
  {
    var n := |cs| - 1;
    y := cs[n];
    if z in CutAround(cs[..n], c) { y := CutAroundFrom(cs[..n], c, z); }
  }

  // ---- Whole runs ----

  /** At index `p` the newest generation of all inputs covering it is `g`. */
  predicate NewestAt(ins: seq<CoverageEntry>, p: int, g: U64) {
    && CoveredAt(ins, p, g)
    && forall j :: 0 <= j < |ins| && ins[j].Covers(p) ==> ins[j].generation <= g
  }

  /** Every stored entry is a piece of an input. */
  lemma {:induction false} OverlayComesFrom(ins: seq<CoverageEntry>, x: CoverageEntry) returns (k: nat)
    requires Layered(ins) && x in Overlay(ins)
    ensures k < |ins| && PieceOf(x, ins[k])
    decreases |ins|
  {
    var n := |ins| - 1;
    var before := Overlay(ins[..n]);
    var cut := CutAround(before, ins[n]);
    k := n;
    if x in cut {
      var y := CutAroundFrom(before, ins[n], x);
      k := OverlayComesFrom(ins[..n], y);
      CutIsPiece(y, ins[n], x);
      PieceOfPiece(x, y, ins[k]);
    }
  }

  lemma CutIsPiece(y: CoverageEntry, c: CoverageEntry, x: CoverageEntry)
    requires ValidCoverage(y) && ValidCoverage(c) && x in Cut(y, c)
    ensures PieceOf(x, y)
  {
    CutPieces(y, c);
  }

  lemma PieceOfPiece(z: CoverageEntry, y: CoverageEntry, x: CoverageEntry)
    requires PieceOf(z, y) && PieceOf(y, x)
    ensures PieceOf(z, x)
  {
  }

  /** Nothing already stored can crowd out a layered entry. */
  lemma NeverCrowded(ins: seq<CoverageEntry>)
    requires Layered(ins) && ins != []
    ensures var c := ins[|ins| - 1];
            var before := Overlay(ins[..|ins| - 1]);
            && !Crowded(before, c) && !Crowded(CutAround(before, c), c)
            && (forall i :: 0 <= i < |before| ==> ValidCoverage(before[i]) && before[i].generation <= c.generation)
  {
    var n := |ins| - 1;
    var init, c := ins[..n], ins[n];
    var before := Overlay(init);
    forall x | x in before
      ensures ValidCoverage(x) && x.generation <= c.generation && (x.generation == c.generation ==> Apart(x, c))
    {
      var k := OverlayComesFrom(init, x);
      assert ins[k] == init[k];
    }
    var cut := CutAround(before, c);
    forall i | 0 <= i < |before| ensures ValidCoverage(before[i]) && before[i].generation <= c.generation {
      assert before[i] in before;
    }
    forall x | x in cut && x.generation == c.generation ensures Apart(x, c) {
      var i :| 0 <= i < |cut| && cut[i] == x;
      CutComesFrom(before, c, i);
      var k :| 0 <= k < |before| && PieceOf(x, before[k]);
      assert before[k] in before;
      PiecesStayApart(before[k], c, x, c);
    }
  }

  /** Stored coverage never overlaps. */
  lemma {:induction false} OverlayIsDisjoint(ins: seq<CoverageEntry>)
    requires Layered(ins)
    ensures DisjointCoverage(Overlay(ins))
    decreases |ins|
  {
    if ins != [] {
      var n := |ins| - 1;
      var c := ins[n];
      var before := Overlay(ins[..n]);
      OverlayIsDisjoint(ins[..n]);
      NeverCrowded(ins);
      CutStaysDisjoint(before, c);
      var cut := CutAround(before, c);
      forall i | 0 <= i < |cut| ensures Apart(cut[i], c) {
        CutLeavesRoom(before, c, i);
      }
      JoinDisjoint(cut, [c]);
    }
  }

  lemma {:induction false} CutLeavesRoom(cs: seq<CoverageEntry>, c: CoverageEntry, i: nat)
    requires (forall k :: 0 <= k < |cs| ==> ValidCoverage(cs[k]) && cs[k].generation <= c.generation) && ValidCoverage(c)
    requires !Crowded(cs, c) && i < |CutAround(cs, c)|
    ensures Apart(CutAround(cs, c)[i], c)
    decreases |cs|
  {
    var n := |cs| - 1;
    var rest := CutAround(cs[..n], c);
    if i < |rest| {
      assert !Crowded(cs[..n], c) by {
        assert forall x :: x in cs[..n] ==> x in cs;
      }
      CutLeavesRoom(cs[..n], c, i);
    } else {
      assert cs[n] in cs;
      CutPieces(cs[n], c);
    }
  }

  // ---- What becomes of one entry at one index ----

  /** The checkpoint of an entry reaches past everything newer that meets it before the
      index. */
  predicate KeptAt(cs: seq<CoverageEntry>, x: CoverageEntry, p: int) {
    forall j :: 0 <= j < |cs| ==> KeptPast(cs[j], x, p)
  }

  predicate KeptPast(c: CoverageEntry, x: CoverageEntry, p: int) {
    c.generation > x.generation && !Apart(x, c) ==>
      Allows(x, x.coverage.start) && (c.coverage.end < p ==> Allows(x, c.coverage.end + 1))
  }

  /** The checkpoints agree as far as the index. */
  predicate SameReach(y: CoverageEntry, x: CoverageEntry, p: int) {
    || y.coverage.checkpoint == x.coverage.checkpoint
    || (y.coverage.checkpoint.Some? && x.coverage.checkpoint.Some? && Allows(y, p) && Allows(x, p))
  }

  /** A piece of the entry that still has the index. */
  predicate Survives(y: CoverageEntry, x: CoverageEntry, p: int) {
    && y.Covers(p) && PieceOf(y, x) && SameReach(y, x, p)
    && (y == x || Allows(x, y.coverage.start))
  }

  /** A newer entry beside the index leaves the piece there exactly when the checkpoint of
      the whole entry reaches past it. */
  lemma PieceIsKept(y: CoverageEntry, x: CoverageEntry, c: CoverageEntry, p: int) returns (z: CoverageEntry)
    requires Survives(y, x, p) && ValidCoverage(c) && !c.Covers(p) && c.generation > x.generation && KeptPast(c, x, p)
    ensures z in Cut(y, c) && Survives(z, x, p)
  {
    var cut := Cut(y, c);
    z := y;
    if !Apart(y, c) {
      assert Allows(y, PieceStart(y, c, p));
      if p < c.coverage.start {
        z := cut[0];
      } else {
        z := cut[|cut| - 1];
      }
    }
  }

  lemma PieceIsLost(y: CoverageEntry, x: CoverageEntry, c: CoverageEntry, p: int, z: CoverageEntry)
    requires Survives(y, x, p) && ValidCoverage(c) && !c.Covers(p) && c.generation > x.generation && !KeptPast(c, x, p)
    requires z in Cut(y, c)
    ensures !z.Covers(p)
  {
    assert !Apart(y, c) && !Allows(y, PieceStart(y, c, p));
  }

  lemma OneCovers(cs: seq<CoverageEntry>, y: CoverageEntry, z: CoverageEntry, p: int)
    requires DisjointCoverage(cs) && y in cs && z in cs && y.Covers(p) && z.Covers(p)
    ensures y == z
  {
    var i :| 0 <= i < |cs| && cs[i] == y;
    var j :| 0 <= j < |cs| && cs[j] == z;
    assert !Apart(y, z) && !Apart(z, y);
    assert i == j;
  }

  predicate NoneCovers(cs: seq<CoverageEntry>, p: int) {
    forall y :: y in cs ==> !y.Covers(p)
  }

  /** Cutting around an entry beside the index changes nothing where nothing was. */
  lemma NothingStaysNothing(before: seq<CoverageEntry>, c: CoverageEntry, p: int)
    requires (forall k :: 0 <= k < |before| ==> ValidCoverage(before[k])) && ValidCoverage(c) && NoneCovers(before, p)
    ensures NoneCovers(CutAround(before, c), p)
  {
    forall z | z in CutAround(before, c) ensures !z.Covers(p) {
      var y := CutAroundFrom(before, c, z);
      CutPieces(y, c);
    }
  }

  /** One more entry beside the index. */
  lemma TraceStep(before: seq<CoverageEntry>, x: CoverageEntry, y: CoverageEntry, c: CoverageEntry, p: int)
    requires DisjointCoverage(before) && y in before && Survives(y, x, p) && ValidCoverage(c) && !c.Covers(p)
    requires c.generation > x.generation || Apart(y, c)
    ensures c.generation <= x.generation || KeptPast(c, x, p)
            ==> exists z :: z in CutAround(before, c) && Survives(z, x, p)
    ensures c.generation > x.generation && !KeptPast(c, x, p) ==> NoneCovers(CutAround(before, c), p)
  {
    if c.generation <= x.generation {
      CutAroundHas(before, c, y, y);
    } else if KeptPast(c, x, p) {
      var z := PieceIsKept(y, x, c, p);
      CutAroundHas(before, c, y, z);
    } else {
      forall z | z in CutAround(before, c) ensures !z.Covers(p) {
        var w := CutAroundFrom(before, c, z);
        CutPieces(w, c);
        if w == y {
          PieceIsLost(y, x, c, p, z);
        } else if w.Covers(p) {
          OneCovers(before, w, y, p);
        }
      }
    }
  }

  predicate LastCovers(ins: seq<CoverageEntry>, i: nat, p: int) {
    i < |ins| && ins[i].Covers(p) && forall j :: i < j < |ins| ==> !ins[j].Covers(p)
  }

  lemma OverlaySnoc(init: seq<CoverageEntry>, c: CoverageEntry)
    requires Layered(init + [c])
    ensures Overlay(init + [c]) == CutAround(Overlay(init), c) + [c]
  {
    assert (init + [c])[..|init|] == init;
    NeverCrowded(init + [c]);
  }

  lemma KeptSnoc(init: seq<CoverageEntry>, c: CoverageEntry, x: CoverageEntry, p: int)
    ensures KeptAt(init + [c], x, p) <==> KeptAt(init, x, p) && KeptPast(c, x, p)
  {
    var ins := init + [c];
    assert ins[|init|] == c && forall j :: 0 <= j < |init| ==> ins[j] == init[j];
  }

  /** What the overlay has at the index of an entry: the entry or a piece of it if its
      checkpoint reaches far enough, otherwise nothing. */
  predicate DecidedBy(ins: seq<CoverageEntry>, x: CoverageEntry, p: int) {
    if KeptAt(ins, x, p) then SomeSurvives(Overlay(ins), x, p) else NoneCovers(Overlay(ins), p)
  }

  predicate SomeSurvives(cs: seq<CoverageEntry>, x: CoverageEntry, p: int) {
    exists y :: y in cs && Survives(y, x, p)
  }

  lemma DecidedNext(init: seq<CoverageEntry>, c: CoverageEntry, x: CoverageEntry, p: int)
    requires Layered(init + [c]) && Layered(init) && x in init && x.Covers(p) && !c.Covers(p) && DecidedBy(init, x, p)
    ensures DecidedBy(init + [c], x, p)
  {
    OverlaySnoc(init, c);
    KeptSnoc(init, c, x, p);
    OverlayIsDisjoint(init);
    if KeptAt(init, x, p) {
      var y :| y in Overlay(init) && Survives(y, x, p);
      NewerOrApart(init, c, x, y);
      TraceStep(Overlay(init), x, y, c, p);
    } else {
      NothingStaysNothing(Overlay(init), c, p);
    }
  }

  lemma NewerOrApart(init: seq<CoverageEntry>, c: CoverageEntry, x: CoverageEntry, y: CoverageEntry)
    requires Layered(init + [c]) && x in init && PieceOf(y, x)
    ensures c.generation > x.generation || (c.generation == x.generation && Apart(y, c))
  {
    var ins := init + [c];
    var k :| 0 <= k < |init| && init[k] == x;
    assert ins[k] == x && ins[|init|] == c;
  }

  /** The last entry over an index decides what the overlay has there. */
  lemma {:induction false} Traced(ins: seq<CoverageEntry>, i: nat, p: int)
    requires Layered(ins) && LastCovers(ins, i, p)
    ensures DecidedBy(ins, ins[i], p)
    decreases |ins|
  {
    var n := |ins| - 1;
    var init, c := ins[..n], ins[n];
    assert ins == init + [c];
    if i == n {
      OverlaySnoc(init, c);
      assert c in Overlay(ins) && Survives(c, c, p);
    } else {
      Traced(init, i, p);
      DecidedNext(init, c, ins[i], p);
    }
  }

  lemma {:induction false} LastOver(ins: seq<CoverageEntry>, k: nat, p: int) returns (i: nat)
    requires k < |ins| && ins[k].Covers(p)
    ensures LastCovers(ins, i, p)
    decreases |ins|
  {
    var n := |ins| - 1;
    i := n;
    if !ins[n].Covers(p) {
      i := LastOver(ins[..n], k, p);
      assert ins[..n][i] == ins[i];
    }
  }

  /** The newest entry over the index keeps it. */
  predicate NewestKept(ins: seq<CoverageEntry>, p: int, g: U64) {
    NewestAt(ins, p, g) && exists i :: 0 <= i < |ins| && ins[i].Covers(p) && ins[i].generation == g && KeptAt(ins, ins[i], p)
  }

  lemma NewestIsLast(ins: seq<CoverageEntry>, i: nat, p: int)
    requires Layered(ins) && i < |ins| && ins[i].Covers(p)
    ensures LastCovers(ins, i, p) <==> NewestAt(ins, p, ins[i].generation)
  {
    if LastCovers(ins, i, p) {
      assert CoveredAt(ins, p, ins[i].generation);
    } else {
      var j :| i < j < |ins| && ins[j].Covers(p);
      assert !Apart(ins[i], ins[j]);
    }
  }

  /** The overlay says at each index what the newest entry over it said, exactly where that
      entry keeps it. */
  lemma OverlayIsExact(ins: seq<CoverageEntry>, p: int, g: U64)
    requires Layered(ins)
    ensures CoveredAt(Overlay(ins), p, g) <==> NewestKept(ins, p, g)
  {
    if CoveredAt(Overlay(ins), p, g) {
      var k :| 0 <= k < |Overlay(ins)| && Overlay(ins)[k].Covers(p) && Overlay(ins)[k].generation == g;
      CoveredIsNewestKept(ins, p, Overlay(ins)[k]);
    }
    if NewestKept(ins, p, g) {
      var i :| 0 <= i < |ins| && ins[i].Covers(p) && ins[i].generation == g && KeptAt(ins, ins[i], p);
      NewestIsLast(ins, i, p);
      Traced(ins, i, p);
      var y :| y in Overlay(ins) && Survives(y, ins[i], p);
      var k :| 0 <= k < |Overlay(ins)| && Overlay(ins)[k] == y;
      assert Overlay(ins)[k].Covers(p);
    }
  }

  lemma CoveredIsNewestKept(ins: seq<CoverageEntry>, p: int, z: CoverageEntry)
    requires Layered(ins) && z in Overlay(ins) && z.Covers(p)
    ensures NewestKept(ins, p, z.generation)
  {
    var k := OverlayComesFrom(ins, z);
    var i := LastOver(ins, k, p);
    Traced(ins, i, p);
    var y :| y in Overlay(ins) && Survives(y, ins[i], p);
    OverlayIsDisjoint(ins);
    OneCovers(Overlay(ins), y, z, p);
    NewestIsLast(ins, i, p);
  }
}
