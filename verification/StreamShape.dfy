/** The shape of every successful plan of a stream. */
module StreamShape {
  import opened Common
  import opened Sorting
  import opened StreamFold
  import opened StreamModel
  import opened StreamOrder
  import opened StreamPlan
  import opened StreamSafety

  /** Every chunk ends before the next one starts. */
  predicate Ascends(es: seq<Entry>) {
    forall i, j :: 0 <= i < j < |es| ==> es[i].descriptor.end < es[j].descriptor.start
  }

  lemma SortedCurrentAscends(current: seq<Entry>)
    requires Disjoint(current)
    ensures Ascends(SortBy(current, PlanKey))
  {
    var sorted := SortBy(current, PlanKey);
    DisjointAnyOrder(current, sorted);
    forall i, j | 0 <= i < j < |sorted| ensures sorted[i].descriptor.end < sorted[j].descriptor.start {
      assert LexLeq(PlanKey(sorted[i]), PlanKey(sorted[j]));
      assert !sorted[i].Hits(sorted[j].descriptor.start, sorted[j].descriptor.end);
    }
  }

  /** Chunks that are disjoint in one order are disjoint in every order. */
  lemma DisjointAnyOrder(a: seq<Entry>, b: seq<Entry>)
    requires Disjoint(a) && multiset(a) == multiset(b)
    ensures Disjoint(b)
  {
    SameMembers(a, b);
    forall i | 0 <= i < |b| ensures ValidRange(b[i]) {
      assert b[i] in a;
    }
    forall i, j | 0 <= i < j < |b| ensures !b[i].Hits(b[j].descriptor.start, b[j].descriptor.end) {
      var k, m := TwoPlaces(a, b, i, j);
      if k < m {
        assert !a[k].Hits(a[m].descriptor.start, a[m].descriptor.end);
      } else {
        assert !a[m].Hits(a[k].descriptor.start, a[k].descriptor.end);
      }
    }
  }

  /** Two elements of one order sit at two different places of the other. */
  lemma TwoPlaces(a: seq<Entry>, b: seq<Entry>, i: nat, j: nat) returns (k: nat, m: nat)
    requires multiset(a) == multiset(b) && i < j < |b|
    ensures k < |a| && m < |a| && k != m && a[k] == b[i] && a[m] == b[j]
  {
    assert b[i] in multiset(b);
    assert b[i] in a;
    k :| 0 <= k < |a| && a[k] == b[i];
    var rest, rest' := a[..k] + a[k + 1..], b[..i] + b[i + 1..];
    Without(a, k);
    Without(b, i);
    assert rest'[j - 1] == b[j];
    assert b[j] in multiset(rest');
    assert b[j] in rest;
    var n :| 0 <= n < |rest| && rest[n] == b[j];
    m := if n < k then n else n + 1;
  }

  lemma Without(s: seq<Entry>, k: nat)
    requires k < |s|
    ensures multiset(s[..k] + s[k + 1..]) == multiset(s) - multiset{s[k]}
  {
    assert s == s[..k] + ([s[k]] + s[k + 1..]);
  }

  // ---- Required chunks ----

  lemma {:induction false} RequiredComesFrom(es: seq<Entry>, current: seq<Entry>, q: Request, i: nat) returns (k: nat)
    requires i < |RequiredChunks(es, current, q)|
    ensures k < |es| && es[k].Hits(q.start, q.end)
    ensures RequiredChunks(es, current, q)[i]
         == Planned(es[k].descriptor, if es[k].IsStable(current) then CurrentStable else CurrentTransient)
    decreases |es|
  {
    var n := |es| - 1;
    if i < |RequiredChunks(es[..n], current, q)| {
      k := RequiredComesFrom(es[..n], current, q, i);
    } else {
      k := n;
    }
  }

  predicate PlannedAscend(ps: seq<Planned>) {
    forall i, j :: 0 <= i < j < |ps| ==> ps[i].descriptor.end < ps[j].descriptor.start
  }

  lemma {:induction false} RequiredAscend(es: seq<Entry>, current: seq<Entry>, q: Request)
    requires Ascends(es)
    ensures PlannedAscend(RequiredChunks(es, current, q))
    decreases |es|
  {
    if es != [] {
      var n := |es| - 1;
      RequiredAscend(es[..n], current, q);
      var rest := RequiredChunks(es[..n], current, q);
      forall i | 0 <= i < |rest| ensures rest[i].descriptor.end < es[n].descriptor.start {
        var k := RequiredComesFrom(es[..n], current, q, i);
        assert es[k].descriptor.end < es[n].descriptor.start;
      }
    }
  }

  /** A transient chunk is followed by no other. */
  lemma TransientIsLast(current: seq<Entry>, q: Request, i: nat)
    requires Ascends(current) && i < |RequiredChunks(current, current, q)|
    requires RequiredChunks(current, current, q)[i].placement == CurrentTransient
    ensures i == |RequiredChunks(current, current, q)| - 1
  {
    var all := RequiredChunks(current, current, q);
    RequiredAscend(current, current, q);
    var k := RequiredComesFrom(current, current, q, i);
    assert !current[k].IsFollowed(current);
    var last := RequiredComesFrom(current, current, q, |all| - 1);
    assert current[last] in current;
  }

  lemma {:induction false} TailComesFrom(es: seq<Entry>, current: seq<Entry>, q: Request, p: Planned) returns (e: Entry)
    requires p in PriorTails(es, current, q)
    ensures e in es && p == Planned(e.descriptor, OptionalPriorTail)
    ensures e.descriptor.end < q.start && IsRetainable(e, current)
    decreases |es|
  {
    var n := |es| - 1;
    if p in PriorTails(es[..n], current, q) {
      e := TailComesFrom(es[..n], current, q, p);
    } else {
      e := es[n];
    }
  }

  predicate ListedChunk(d: Descriptor, inp: Input) {
    exists y :: y in inp.entries && y.descriptor == d
  }

  /** Required chunks are listed, meet the request, are in ascending order without
      overlap, and only the last can be transient. Prior tails are listed and end before
      the request. */
  predicate WellShaped(plan: Plan, inp: Input, q: Request) {
    && PlannedAscend(plan.chunks)
    && (forall i :: 0 <= i < |plan.chunks| ==>
          && ListedChunk(plan.chunks[i].descriptor, inp)
          && Intersects(plan.chunks[i].descriptor.start, plan.chunks[i].descriptor.end, q.start, q.end)
          && (plan.chunks[i].placement == CurrentStable
              || (plan.chunks[i].placement == CurrentTransient && i == |plan.chunks| - 1)))
    && (forall p :: p in plan.priorTails ==> ListedChunk(p.descriptor, inp) && p.descriptor.end < q.start)
  }

  lemma FinishIsWellShaped(p: Planner, inp: Input, q: Request)
    requires Sound(p, inp) && Finish(p, q).Some?
    ensures WellShaped(Finish(p, q).value, inp, q)
  {
    var current := SortBy(p.current, PlanKey);
    SortedCurrentAscends(p.current);
    SameMembers(current, p.current);
    var chunks := RequiredChunks(current, current, q);
    RequiredAscend(current, current, q);
    forall i | 0 <= i < |chunks|
      ensures ListedChunk(chunks[i].descriptor, inp)
      ensures Intersects(chunks[i].descriptor.start, chunks[i].descriptor.end, q.start, q.end)
      ensures chunks[i].placement == CurrentStable || (chunks[i].placement == CurrentTransient && i == |chunks| - 1)
    {
      var k := RequiredComesFrom(current, current, q, i);
      assert current[k] in p.current;
      assert Listed(current[k], inp);
      if chunks[i].placement == CurrentTransient { TransientIsLast(current, q, i); }
    }
    forall t | t in PriorTails(current, current, q) ensures ListedChunk(t.descriptor, inp) && t.descriptor.end < q.start {
      var e := TailComesFrom(current, current, q, t);
      assert Listed(e, inp);
    }
  }

  /** Every successful plan is well shaped. */
  lemma PlansAreWellShaped(inp: Input, q: Request)
    requires ValidInput(inp) && PlanStream(inp, q).Some?
    ensures WellShaped(PlanStream(inp, q).value, inp, q)
  {
    FoldedIsSound(inp, q);
    FinishIsWellShaped(Folded(inp, q).value, inp, q);
  }
}
