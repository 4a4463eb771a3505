/** Caches that agree up to remembered roots, verdicts and the blocked list: every delta
    keeps them in agreement, and the blocked list then settles the rest. */
module PoiAgree {
  import opened Common
  import opened Merkle
  import opened PoiModel
  import opened PoiInvariants

  /** The leaves of each tree, without remembered roots. */
  function Plain(forest: Forest): map<nat, Positions> {
    map t | t in forest :: forest[t].leaves
  }

  predicate SameValid(r: Snapshot, s: Snapshot) {
    && (forall c :: c in r.status ==> (r.status[c] == Valid <==> StatusOf(s, c) == Valid))
    && (forall c :: c in s.status ==> (s.status[c] == Valid <==> StatusOf(r, c) == Valid))
  }

  predicate Agree(r: Snapshot, s: Snapshot) {
    && r.identity == s.identity && r.nextEvent == s.nextEvent && r.nextLeaf == s.nextLeaf
    && r.positions == s.positions && Plain(r.forest) == Plain(s.forest) && SameValid(r, s)
  }

  // ---- Deltas ----

  lemma MarksAgree(r: Snapshot, s: Snapshot, c: Word)
    requires SameValid(r, s)
    ensures SameValid(MarkValid(r, c), MarkValid(s, c))
  {
  }

  lemma {:induction false} EventsAgree(r: Snapshot, s: Snapshot, es: seq<Event>)
    requires Agree(r, s)
    ensures ApplyEvents(r, es).ok == ApplyEvents(s, es).ok && Agree(ApplyEvents(r, es).after, ApplyEvents(s, es).after)
    decreases |es|
  {
    if es != [] {
      MarksAgree(r, s, es[0].commitment);
      if es[0].index != U64_MAX {
        var next := Max(r.nextEvent, es[0].index + 1);
        EventsAgree(MarkValid(r, es[0].commitment).(nextEvent := next), MarkValid(s, es[0].commitment).(nextEvent := next), es[1..]);
      }
    }
  }

  lemma InsertAgrees(f: Forest, f': Forest, tree: nat, position: nat, leaf: Word)
    requires Plain(f) == Plain(f')
    ensures Plain(InsertInto(f, tree, position, leaf)) == Plain(InsertInto(f', tree, position, leaf))
  {
    LeavesAgreeAt(f, f', tree);
    var a, b := InsertInto(f, tree, position, leaf), InsertInto(f', tree, position, leaf);
    forall t | t in a ensures t in b && a[t].leaves == b[t].leaves {
      LeavesAgreeAt(f, f', t);
    }
    forall t | t in b ensures t in a {
      LeavesAgreeAt(f, f', t);
    }
  }

  lemma LeavesAgreeAt(f: Forest, f': Forest, t: nat)
    requires Plain(f) == Plain(f')
    ensures (t in f <==> t in f') && LeavesOf(f, t) == LeavesOf(f', t)
  {
    assert t in Plain(f) <==> t in f;
    assert t in Plain(f') <==> t in f';
    if t in f { assert Plain(f)[t] == f[t].leaves && Plain(f')[t] == f'[t].leaves; }
  }

  lemma PlacesAgree(r: Snapshot, s: Snapshot, g: U64, leaf: Word)
    requires Agree(r, s)
    ensures Agree(PlaceLeaf(r, g, leaf), PlaceLeaf(s, g, leaf))
  {
    InsertAgrees(r.forest, s.forest, TreeOf(g), PositionOf(g), leaf);
    MarksAgree(r, s, leaf);
  }

  lemma {:induction false} LeavesAgree(r: Snapshot, s: Snapshot, start: nat, ls: seq<Word>)
    requires Agree(r, s)
    ensures ApplyLeaves(r, start, ls).ok == ApplyLeaves(s, start, ls).ok
    ensures Agree(ApplyLeaves(r, start, ls).after, ApplyLeaves(s, start, ls).after)
    decreases |ls|
  {
    if ls != [] && start <= U64_MAX {
      var r', s' := Placed(r, start, ls[0]), Placed(s, start, ls[0]);
      if ls[0] != 0 { PlacesAgree(r, s, start, ls[0]); }
      if start < U64_MAX {
        var next := Max(r.nextLeaf, start + 1);
        CursorsAgree(r', s', next);
        LeavesAgree(r'.(nextLeaf := next), s'.(nextLeaf := next), start + 1, ls[1..]);
      }
    }
  }

  function Placed(s: Snapshot, g: U64, leaf: Word): Snapshot {
    if leaf == 0 then s else PlaceLeaf(s, g, leaf)
  }

  lemma CursorsAgree(r: Snapshot, s: Snapshot, next: U64)
    requires Agree(r, s)
    ensures Agree(r.(nextLeaf := next), s.(nextLeaf := next))
  {
  }

  /** Caches in agreement accept the same deltas and stay in agreement. */
  lemma DeltaAgrees(r: Snapshot, s: Snapshot, d: Delta)
    requires Agree(r, s)
    ensures (Acceptable(r, d) <==> Acceptable(s, d)) && Agree(ApplyDelta(r, d).after, ApplyDelta(s, d).after)
  {
    if Acceptable(s, d) {
      EventsAgree(r, s, d.events);
      LeavesAgree(ApplyEvents(r, d.events).after, ApplyEvents(s, d.events).after, d.leafStart, d.leaves);
    }
  }

  // ---- Verdicts and blocked lists ----

  lemma JudgedAgrees(r: Snapshot, s: Snapshot, accepted: bool)
    requires Agree(r, s)
    ensures Agree(r, JudgedRoots(s, accepted))
  {
    assert Plain(CachedForest(s.forest)) == Plain(s.forest);
  }

  lemma AgreementSwaps(r: Snapshot, s: Snapshot)
    requires Agree(r, s)
    ensures Agree(s, r)
  {
  }

  /** Replacing the blocked list never makes a commitment valid or takes that away. */
  lemma ReplacedAgrees(r: Snapshot, s: Snapshot, list: seq<BlockedShield>)
    requires Agree(r, s) && ReplaceBlocked(s, list).ok
    ensures Agree(r, ReplaceBlocked(s, list).after)
  {
    var u, after := Unblocked(s), ReplaceBlocked(s, list).after;
    BlockedEffect(u, list);
    forall c | c in after.status ensures after.status[c] == Valid <==> StatusOf(r, c) == Valid {
      assert c in u.status ==> u.status[c] == s.status[c];
    }
    forall c | c in r.status ensures r.status[c] == Valid <==> StatusOf(after, c) == Valid {
      assert StatusOf(s, c) == Valid ==> c in u.status && u.status[c] == Valid;
    }
  }

  /** The map a blocked list gives. */
  function BlockedMap(m: map<Word, BlockedShield>, list: seq<BlockedShield>): map<Word, BlockedShield>
    decreases |list|
  {
    if list == [] || list[0].parsed.None? then m else BlockedMap(m[list[0].parsed.value := list[0]], list[1..])
  }

  lemma {:induction false} BlockedGivesMap(s: Snapshot, list: seq<BlockedShield>)
    ensures ApplyBlocked(s, list).after.blocked == BlockedMap(s.blocked, list)
    decreases |list|
  {
    if list != [] && list[0].parsed.Some? {
      BlockedGivesMap(Block(s, list[0].parsed.value, list[0]), list[1..]);
    }
  }

  lemma ReplacedGivesMap(s: Snapshot, list: seq<BlockedShield>)
    ensures ReplaceBlocked(s, list).after.blocked == BlockedMap(map[], list)
  {
    BlockedGivesMap(Unblocked(s), list);
  }

  // ---- What agreement leaves open is settled by the blocked list ----

  /** The statuses of a reachable cache are fixed by which commitments are valid and by
      the blocked list. */
  lemma SameStatus(r: Snapshot, s: Snapshot)
    requires Reachable(r) && Reachable(s) && SameValid(r, s) && r.blocked == s.blocked
    ensures r.status == s.status
  {
    var valid := ExplainedBy(r);
    var valid' := ExplainedBy(s);
    forall c ensures c in r.status <==> c in s.status {
    }
    assert r.status.Keys == s.status.Keys;
  }

  lemma ExplainedBy(s: Snapshot) returns (valid: set<Word>)
    requires Reachable(s)
    ensures StatusInv(s, valid)
  {
    var identity, ops :| s == Run(NewSnapshot(identity), ops);
    StatusOverRun(identity, ops);
    valid := EverMarked(NewSnapshot(identity), ops);
  }

  lemma SameForest(f: Forest, f': Forest)
    requires Plain(f) == Plain(f')
    ensures CachedForest(f) == CachedForest(f') && CurrentRoots(f) == CurrentRoots(f')
  {
    forall t ensures (t in f <==> t in f') && LeavesOf(f, t) == LeavesOf(f', t) {
      LeavesAgreeAt(f, f', t);
    }
    assert f.Keys == f'.Keys;
    assert forall t :: t in f ==> f[t].leaves == LeavesOf(f, t) && f'[t].leaves == LeavesOf(f', t);
  }

  /** Reachable caches in agreement, with the same blocked list, are the same once their
      roots are accepted, up to the blocked-synced flag. */
  lemma SameCache(r: Snapshot, s: Snapshot)
    requires Reachable(r) && Reachable(s) && Agree(r, s) && r.blocked == s.blocked
    ensures JudgedRoots(r, true).(blockedSynced := s.blockedSynced) == JudgedRoots(s, true)
  {
    SameStatus(r, s);
    SameForest(r.forest, s.forest);
  }
}
