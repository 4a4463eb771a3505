/** The cache as it runs: mutators update the snapshot in place, sync pages through an
    arbitrary peer, and replay keeps a dense tree beside the cache. */
module PoiSync {
  import opened Common
  import opened Merkle
  import opened PoiModel
  import opened PoiInvariants
  import opened PoiPages

  datatype Scope = Full | EventsOnly | BlockedOnly

  datatype SyncResult = SyncResult(
    events: nat, budgetExhausted: bool, changed: bool,
    delta: Delta, blocked: Option<seq<BlockedShield>>)

  class PoiCache {
    var snapshot: Snapshot

    constructor (identity: Identity)
      ensures snapshot == NewSnapshot(identity)
    {
      snapshot := NewSnapshot(identity);
    }

    method ApplyPoiEvents(events: seq<Event>) returns (ok: bool)
      modifies this
      ensures Outcome(snapshot, ok) == ApplyEvents(old(snapshot), events)
    {
      for n := 0 to |events|
        invariant ApplyEvents(old(snapshot), events) == ApplyEvents(snapshot, events[n..])
      {
        var e := events[n];
        assert events[n..][0] == e && events[n..][1..] == events[n + 1..];
        snapshot := snapshot.(status := snapshot.status[e.commitment := Status.Valid]);
        if e.index == U64_MAX {
          return false;
        }
        snapshot := snapshot.(nextEvent := Max(snapshot.nextEvent, e.index + 1));
      }
      return true;
    }

    method InsertLeaf(tree: nat, position: nat, leaf: Word)
      modifies this
      ensures snapshot == old(snapshot).(validation := Pending,
                                         forest := InsertInto(old(snapshot).forest, tree, position, leaf))
    {
      snapshot := snapshot.(validation := Pending);
      snapshot := snapshot.(forest := InsertInto(snapshot.forest, tree, position, leaf));
    }

    method ApplyPoiLeaves(start: nat, leaves: seq<Word>) returns (ok: bool)
      modifies this
      ensures Outcome(snapshot, ok) == ApplyLeaves(old(snapshot), start, leaves)
    {
      for n := 0 to |leaves|
        invariant ApplyLeaves(old(snapshot), start, leaves) == ApplyLeaves(snapshot, start + n, leaves[n..])
      {
        assert leaves[n..][0] == leaves[n] && leaves[n..][1..] == leaves[n + 1..];
        if start + n > U64_MAX {
          return false;
        }
        var g, leaf := start + n, leaves[n];
        if leaf != 0 {
          var tree, position := TreeOf(g), PositionOf(g);
          InsertLeaf(tree, position, leaf);
          snapshot := snapshot.(positions := snapshot.positions[leaf := Position(g, tree, position)]);
          snapshot := snapshot.(status := snapshot.status[leaf := Status.Valid]);
        }
        if g == U64_MAX {
          return false;
        }
        snapshot := snapshot.(nextLeaf := Max(snapshot.nextLeaf, g + 1));
      }
      return true;
    }

    method ApplyBlockedShields(list: seq<BlockedShield>) returns (ok: bool)
      modifies this
      ensures Outcome(snapshot, ok) == ApplyBlocked(old(snapshot), list)
    {
      for n := 0 to |list|
        invariant ApplyBlocked(old(snapshot), list) == ApplyBlocked(snapshot, list[n..])
      {
        assert list[n..][0] == list[n] && list[n..][1..] == list[n + 1..];
        if list[n].parsed.None? {
          return false;
        }
        var c := list[n].parsed.value;
        var wasValid := StatusOf(snapshot, c) == Status.Valid;
        snapshot := snapshot.(blocked := snapshot.blocked[c := list[n]]);
        if !wasValid {
          snapshot := snapshot.(status := snapshot.status[c := ShieldBlocked]);
        }
      }
      snapshot := snapshot.(blockedSynced := true);
      return true;
    }

    method ReplaceBlockedShields(list: seq<BlockedShield>) returns (ok: bool)
      modifies this
      ensures Outcome(snapshot, ok) == ReplaceBlocked(old(snapshot), list)
    {
      var previous := snapshot.blocked.Keys;
      var status := WithoutBlocked(snapshot.status, previous);
      snapshot := snapshot.(blocked := map[], status := status);
      assert snapshot == Unblocked(old(snapshot));
      ok := ApplyBlockedShields(list);
    }

    method ApplyVerifiedArtifactEvents(events: seq<Event>) returns (ok: bool)
      modifies this
      ensures Outcome(snapshot, ok) == ApplyArtifact(old(snapshot), events)
    {
      for n := 0 to |events|
        invariant ApplyArtifact(old(snapshot), events) == ApplyArtifact(snapshot, events[n..])
      {
        var e := events[n];
        assert events[n..][0] == e && events[n..][1..] == events[n + 1..];
        var tree, position := TreeOf(e.index), PositionOf(e.index);
        InsertLeaf(tree, position, e.commitment);
        snapshot := snapshot.(positions := snapshot.positions[e.commitment := Position(e.index, tree, position)]);
        snapshot := snapshot.(status := snapshot.status[e.commitment := Status.Valid]);
        if e.index == U64_MAX {
          return false;
        }
        snapshot := snapshot.(nextEvent := Max(snapshot.nextEvent, e.index + 1));
        snapshot := snapshot.(nextLeaf := Max(snapshot.nextLeaf, e.index + 1));
      }
      return true;
    }

    // ---- Journal deltas ----

    /** All or nothing: a delta is applied whole when it is acceptable, and otherwise
        leaves the cache exactly as it was. */
    method ApplyJournalDelta(d: Delta) returns (ok: bool)
      modifies this
      ensures ok <==>
        && d.version == 1 && d.identity == old(snapshot).identity
        && d.eventStart == old(snapshot).nextEvent && d.eventEnd == d.eventStart + |d.events|
        && d.leafStart == old(snapshot).nextLeaf && d.leafEnd == d.leafStart + |d.leaves|
        && |d.events| == |d.leaves| && (d.events != [] ==> d.eventStart == d.leafStart)
        && (forall i :: 0 <= i < |d.events| ==> d.events[i].index == d.eventStart + i)
        && (forall i :: 0 <= i < |d.leaves| ==> d.leaves[i] == d.events[i].commitment)
      ensures ok <==> Acceptable(old(snapshot), d)
      ensures snapshot == ApplyDelta(old(snapshot), d).after
      ensures !ok ==> snapshot == old(snapshot)
    {
      if d.version != DELTA_VERSION || d.identity != snapshot.identity
         || d.eventStart != snapshot.nextEvent || d.leafStart != snapshot.nextLeaf
      {
        return false;
      }
      if d.eventStart + |d.events| != d.eventEnd || d.leafStart + |d.leaves| != d.leafEnd {
        return false;
      }
      var matched := LeavesMatchEvents(d);
      if !matched {
        return false;
      }
      AcceptableDeltaApplies(snapshot, d);
      EventsFrom(snapshot, d.events);
      var marked := ApplyPoiEvents(d.events);
      var placed := ApplyPoiLeaves(d.leafStart, d.leaves);
      ok := marked && placed && snapshot.nextEvent == d.eventEnd && snapshot.nextLeaf == d.leafEnd;
    }

    // ---- Roots and proofs ----

    method CurrentRootsReadonly() returns (roots: Roots)
      requires CoherentForest(snapshot.forest)
      ensures roots == CurrentRoots(snapshot.forest)
    {
      roots := RootsOfForest(snapshot.forest);
    }

    method ComputeRoots() returns (roots: Roots)
      requires CoherentForest(snapshot.forest)
      modifies this
      ensures roots == CurrentRoots(old(snapshot).forest)
      ensures snapshot == old(snapshot).(forest := CachedForest(old(snapshot).forest))
    {
      roots := CurrentRootsReadonly();
      var cached := map t | t in snapshot.forest :: Tree(snapshot.forest[t].leaves, Some(roots[t]));
      assert cached == CachedForest(snapshot.forest);
      snapshot := snapshot.(forest := cached);
    }

    method AcceptCurrentRoots() returns (roots: Roots)
      requires CoherentForest(snapshot.forest)
      modifies this
      ensures snapshot == JudgedRoots(old(snapshot), true) && roots == CurrentRoots(snapshot.forest)
      ensures snapshot.validation == Validated(roots)
    {
      CachingKeepsRoots(snapshot.forest);
      roots := ComputeRoots();
      snapshot := snapshot.(validation := Validated(roots));
    }

    /** The peer judges the current roots; an empty forest is never accepted. */
    method ValidateRoots(verdict: Option<bool>) returns (r: Option<bool>)
      requires CoherentForest(snapshot.forest)
      modifies this
      ensures r.Some? ==> snapshot == JudgedRoots(old(snapshot), r.value)
      ensures r == Some(true) ==> snapshot.validation == Validated(CurrentRoots(old(snapshot).forest))
      ensures r == Some(false) ==> snapshot.validation == Rejected(CurrentRoots(old(snapshot).forest))
      ensures r.Some? ==> (r.value <==> old(snapshot).forest != map[] && verdict == Some(true))
      ensures r.None? <==> old(snapshot).forest != map[] && verdict.None?
      ensures r.None? ==> snapshot == old(snapshot).(forest := CachedForest(old(snapshot).forest))
    {
      var roots := ComputeRoots();
      var accepted := false;
      if roots != map[] {
        if verdict.None? {
          return None;
        }
        accepted := verdict.value;
      } else {
        assert old(snapshot).forest.Keys == roots.Keys;
      }
      snapshot := snapshot.(validation := if accepted then Validated(roots) else Rejected(roots));
      return Some(accepted);
    }

    /** Proofs are given exactly under validated roots, for commitments the forest holds
        where they are recorded. Each one carries the requested commitment as its leaf and
        folds to the root of its tree, which is one of the validated roots. */
    method PoiMerkleProofs(commitments: seq<Word>) returns (r: Option<seq<Proof>>)
      requires ForestInv(snapshot)
      ensures r.Some? ==> |r.value| == |commitments| && AllVouched(snapshot, commitments, r.value)
      ensures r.Some? && Reachable(snapshot) ==>
        forall i :: 0 <= i < |commitments| ==> RootIsValidated(snapshot, commitments[i], r.value[i])
      ensures r.Some? <==> snapshot.validation == Validated(CurrentRoots(snapshot.forest))
                           && forall i :: 0 <= i < |commitments| ==> Servable(snapshot, commitments[i])
    {
      var roots := CurrentRootsReadonly();
      if !snapshot.validation.Validated? || snapshot.validation.roots != roots {
        return None;
      }
      r := ProveAll(snapshot, commitments);
      if r.Some? { OwedAreVouched(snapshot, commitments, r.value); }
      if Reachable(snapshot) { ReachableTreesHeld(snapshot); }
    }

    // ---- Sync ----

    /** Reads event pages until one shorter than asked, or the page budget, ends it:
        exactly when every page up to there is good. */
    method SyncEvents(peer: Peer, pageSize: U64, maxPages: nat)
      returns (r: Option<(seq<Event>, bool)>)
      requires pageSize > 0 && maxPages > 0
      modifies this
      ensures r.Some? <==>
        EventsReadable(peer.events, pageSize, maxPages, old(snapshot).nextEvent, old(snapshot).identity.listKey)
      ensures r.Some? ==>
        var events := r.value.0;
        && Contiguous(events, old(snapshot).nextEvent) && old(snapshot).nextEvent + |events| <= U64_MAX
        && Outcome(snapshot, true) == ApplyEvents(old(snapshot), events)
        && ReadEvents(peer.events, pageSize, maxPages, events, r.value.1)
    {
      var events: seq<Event> := [];
      var pages := 0;
      var before := snapshot;
      while true
        invariant EventsSoFar(peer.events, pageSize, before, snapshot, events, pages)
        invariant FullPages(peer.events, pageSize, pages) && pages < maxPages
        decreases U64_MAX - snapshot.nextEvent
      {
        var page := FetchEvents(peer, pageSize, pages, before.nextEvent);
        if page.None? {
          BadPageIsUnreadable(peer.events, pageSize, maxPages, before.nextEvent, before.identity.listKey, pages);
          return None;
        }
        EventsContinue(peer.events, pageSize, before, snapshot, events, pages);
        var applied := ApplyPoiEvents(page.value);
        events := events + page.value;
        pages := pages + 1;
        if |page.value| < pageSize {
          EventsAreRead(peer.events, pageSize, maxPages, before, snapshot, events, pages, false);
          return Some((events, false));
        }
        if pages >= maxPages {
          EventsAreRead(peer.events, pageSize, maxPages, before, snapshot, events, pages, true);
          return Some((events, true));
        }
      }
      assert false;
    }

    /** Asks for the next page and checks it. */
    method FetchEvents(peer: Peer, pageSize: U64, pages: nat, ghost start: nat) returns (r: Option<seq<Event>>)
      requires pageSize > 0 && snapshot.nextEvent == start + |Pages(peer.events, pages)|
      ensures r.Some? <==> GoodPage(peer.events, pageSize, start, snapshot.identity.listKey, pages)
      ensures r.Some? ==> r == peer.events(pages)
    {
      if snapshot.nextEvent + (pageSize - 1) > U64_MAX {
        return None;
      }
      r := peer.events(pages);
      if r.None? || |r.value| > pageSize {
        return None;
      }
      var sound := PageIsSound(r.value);
      return if sound then r else None;
    }

    /** A page continues the event cursor and every event verifies. */
    method PageIsSound(page: seq<Event>) returns (ok: bool)
      ensures ok <==> SoundPage(page, snapshot.nextEvent, snapshot.identity.listKey)
    {
      for n := 0 to |page|
        invariant snapshot.nextEvent + n <= U64_MAX
        invariant forall i :: 0 <= i < n ==>
          page[i].index == snapshot.nextEvent + i && EventVerifies(page[i], snapshot.identity.listKey)
      {
        if page[n].index != snapshot.nextEvent + n || !EventVerifies(page[n], snapshot.identity.listKey)
           || snapshot.nextEvent + n == U64_MAX
        {
          return false;
        }
      }
      return true;
    }

    /** Reads leaf pages until the leaf cursor has caught up with the event cursor; every
        leaf must be the commitment of the event at its index. */
    method SyncLeaves(peer: Peer, pageSize: U64, events: seq<Event>, start: U64)
      returns (r: Option<seq<Word>>)
      requires pageSize > 0
      requires snapshot.nextLeaf == start && snapshot.nextEvent == start + |events|
      modifies this
      ensures r.Some? <==> Delivers(peer.leaves, pageSize, events)
      ensures r.Some? ==> r.value == CommitmentsOf(events)
      ensures r.Some? ==> Outcome(snapshot, true) == ApplyLeaves(old(snapshot), start, r.value)
    {
      var leaves: seq<Word> := [];
      var pages := 0;
      var before := snapshot;
      while snapshot.nextLeaf < snapshot.nextEvent
        invariant snapshot.nextEvent == start + |events|
        invariant LeavesSoFar(peer.leaves, pageSize, events, before, snapshot, leaves, pages)
        decreases snapshot.nextEvent - snapshot.nextLeaf
      {
        var page := FetchLeaves(peer, pageSize, pages, events, |leaves|);
        if page.None? {
          if Delivers(peer.leaves, pageSize, events) { DeliveredPageIsGood(peer.leaves, pageSize, events, pages); }
          return None;
        }
        LeavesContinue(peer.leaves, pageSize, events, before, snapshot, leaves, pages);
        var applied := ApplyPoiLeaves(snapshot.nextLeaf, page.value);
        leaves := leaves + page.value;
        pages := pages + 1;
      }
      assert DeliversIn(peer.leaves, pageSize, events, pages);
      return Some(leaves);
    }

    /** Asks for the next leaves and compares them with the events. */
    method FetchLeaves(peer: Peer, pageSize: U64, pages: nat, events: seq<Event>, done: nat) returns (r: Option<seq<Word>>)
      requires done == |Pages(peer.leaves, pages)| <= |events|
      ensures r.Some? <==> GoodLeaves(peer.leaves, pageSize, events, pages)
      ensures r.Some? ==> r == peer.leaves(pages)
    {
      var remaining := |events| - done;
      var wanted := if pageSize < remaining then pageSize else remaining;
      r := peer.leaves(pages);
      if r.None? || |r.value| != wanted {
        return None;
      }
      for n := 0 to |r.value|
        invariant forall i :: 0 <= i < n ==> r.value[i] == events[done + i].commitment
      {
        if r.value[n] != events[done + n].commitment {
          return None;
        }
      }
    }

    /** Reads blocked-shield pages until a short one: exactly when the list ends within the
        record limit and all of it verifies. */
    method FetchBlocked(peer: Peer) returns (r: Option<seq<BlockedShield>>)
      ensures r.Some? <==> BlockedReadable(peer.blocked, snapshot.identity.listKey)
      ensures r.Some? ==> ReadBlocked(peer.blocked, r.value)
    {
      var all: seq<BlockedShield> := [];
      var pages := 0;
      while true
        invariant |all| == pages * BLOCKED_PAGE_SIZE <= BLOCKED_LIMIT
        invariant FullPages(peer.blocked, BLOCKED_PAGE_SIZE, pages) && all == Pages(peer.blocked, pages)
        invariant AllVerify(all, snapshot.identity.listKey)
        decreases BLOCKED_LIMIT - |all|
      {
        var page := peer.blocked(pages);
        if page.None? || |page.value| > BLOCKED_PAGE_SIZE || |all| + |page.value| > BLOCKED_LIMIT {
          BadBlockedIsUnreadable(peer.blocked, snapshot.identity.listKey, pages);
          return None;
        }
        for n := 0 to |page.value|
          invariant AllVerify(page.value[..n], snapshot.identity.listKey)
        {
          if !BlockedVerifies(page.value[n], snapshot.identity.listKey) {
            BadBlockedIsUnreadable(peer.blocked, snapshot.identity.listKey, pages);
            return None;
          }
        }
        assert page.value[..|page.value|] == page.value;
        all := all + page.value;
        pages := pages + 1;
        if |page.value| < BLOCKED_PAGE_SIZE {
          assert BlockedSound(peer.blocked, snapshot.identity.listKey, pages);
          return Some(all);
        }
      }
      assert false;
    }

    /** Reads events and their leaves, and captures them as a delta. */
    method CaptureDelta(peer: Peer, eventPageSize: U64, leafPageSize: U64, maxPages: nat)
      returns (r: Option<(Delta, bool)>)
      modifies this
      ensures r.Some? <==> CanCapture(old(snapshot), peer, eventPageSize, leafPageSize, maxPages)
      ensures r.Some? ==>
        var (d, exhausted) := r.value;
        && Acceptable(old(snapshot), d) && snapshot == ApplyDelta(old(snapshot), d).after
        && ReadEvents(peer.events, eventPageSize, maxPages, d.events, exhausted)
        && InOrder(d.events, old(snapshot).nextEvent, old(snapshot).identity.listKey)
    {
      CapturableExactly(snapshot, peer, eventPageSize, leafPageSize, maxPages);
      if eventPageSize == 0 || leafPageSize == 0 || maxPages == 0 || snapshot.nextEvent != snapshot.nextLeaf {
        return None;
      }
      var before := snapshot;
      var fetched := SyncEvents(peer, eventPageSize, maxPages);
      if fetched.None? {
        return None;
      }
      var (events, exhausted) := fetched.value;
      EventsFrom(before, events);
      ReadEventsInOrder(peer.events, eventPageSize, maxPages, before.nextEvent, before.identity.listKey, events, exhausted);
      CapturableAfter(before, peer, eventPageSize, leafPageSize, maxPages, events, exhausted);
      var placed := SyncLeaves(peer, leafPageSize, events, before.nextLeaf);
      if placed.None? {
        return None;
      }
      var leaves := placed.value;
      var delta := Delta(DELTA_VERSION, before.identity, before.nextEvent, before.nextEvent + |events|,
                         before.nextLeaf, before.nextLeaf + |leaves|, events, leaves);
      assert Acceptable(before, delta);
      AcceptableDeltaApplies(before, delta);
      return Some((delta, exhausted));
    }

    /** Reads the whole blocked list and puts it in place of the old one. */
    method ReplaceFromPeer(peer: Peer) returns (r: Option<seq<BlockedShield>>)
      modifies this
      ensures r.Some? <==> CanReplace(peer.blocked, old(snapshot).identity.listKey)
      ensures r.Some? ==> ReadBlocked(peer.blocked, r.value)
      ensures r.Some? ==> ReplaceBlocked(old(snapshot), r.value) == Outcome(snapshot, true)
    {
      ReplaceableExactly(peer.blocked, snapshot.identity.listKey);
      var list := FetchBlocked(peer);
      if list.None? {
        return None;
      }
      BlockedApplies(Unblocked(snapshot), list.value);
      ReplaceableAfter(peer.blocked, snapshot.identity.listKey, list.value);
      var replaced := ReplaceBlockedShields(list.value);
      return if replaced then list else None;
    }

    /** The second half of a sync: the blocked list, reported when it is news. */
    method SyncBlocked(peer: Peer, before: Snapshot, delta: Delta, exhausted: bool, scope: Scope)
      returns (r: Option<SyncResult>)
      requires Acceptable(before, delta) && snapshot == ApplyDelta(before, delta).after
      modifies this
      ensures r.Some? <==> CanReplace(peer.blocked, old(snapshot).identity.listKey)
      ensures r.Some? ==> r.value.delta == delta && r.value.events == |delta.events| && r.value.budgetExhausted == exhausted
      ensures r.Some? ==> r.value.blocked.Some? == BlockedIsNews(before, snapshot, scope)
      ensures r.Some? ==> (r.value.changed <==> delta.events != [] || r.value.blocked.Some?)
      ensures r.Some? && r.value.blocked.Some? ==>
        ReadBlocked(peer.blocked, r.value.blocked.value) && AllSigned(r.value.blocked.value, old(snapshot).identity.listKey)
      ensures r.Some? && Reachable(before) ==> ReplayGives(before, delta, r.value.blocked, snapshot) && Reachable(snapshot)
    {
      var list := ReplaceFromPeer(peer);
      if list.None? {
        return None;
      }
      ReadBlockedIsSigned(peer.blocked, old(snapshot).identity.listKey, list.value);
      var news := BlockedIsNews(before, snapshot, scope);
      if Reachable(before) { ReplacedIsReachable(before, old(snapshot), delta, list.value, snapshot); }
      return Some(SyncResult(|delta.events|, exhausted, delta.events != [] || news, delta,
                             if news then list else None));
    }

    /** The events of a sync, none when only blocked shields are asked for. */
    method SyncDelta(peer: Peer, eventPageSize: U64, leafPageSize: U64, maxPages: nat, scope: Scope)
      returns (r: Option<(Delta, bool)>)
      modifies this
      ensures r.Some? <==> scope.BlockedOnly? || CanCapture(old(snapshot), peer, eventPageSize, leafPageSize, maxPages)
      ensures r.Some? ==>
        var (d, exhausted) := r.value;
        && Acceptable(old(snapshot), d) && snapshot == ApplyDelta(old(snapshot), d).after
        && snapshot.identity == old(snapshot).identity
        && InOrder(d.events, old(snapshot).nextEvent, old(snapshot).identity.listKey)
        && (if scope.BlockedOnly? then d.events == [] && !exhausted
            else ReadEvents(peer.events, eventPageSize, maxPages, d.events, exhausted))
        && (Reachable(old(snapshot)) ==> Reachable(snapshot))
        && (Reachable(old(snapshot)) ==> ReplayGives(old(snapshot), d, None, snapshot))
    {
      var before := snapshot;
      if scope.BlockedOnly? {
        EmptyDeltaApplies(before);
        r := Some((EmptyDelta(before), false));
      } else {
        r := CaptureDelta(peer, eventPageSize, leafPageSize, maxPages);
      }
      if r.Some? {
        AcceptableDeltaApplies(before, r.value.0);
        if Reachable(before) { StepIsReachable(before, JournalDelta(r.value.0)); }
      }
    }

    /** One sync: it succeeds exactly when what its scope needs can be read. It has then
        captured the pages it read as a delta (and, if it reports one, a blocked snapshot)
        that the starting cache accepts. From every reachable cache the replay gives the
        synced cache again; without a reported snapshot only the blocked-synced flag can
        differ. */
    method SyncBoundedCandidate(peer: Peer, eventPageSize: U64, leafPageSize: U64, maxPages: nat, scope: Scope)
      returns (r: Option<SyncResult>)
      modifies this
      ensures r.Some? <==>
        && (scope.BlockedOnly? || CanCapture(old(snapshot), peer, eventPageSize, leafPageSize, maxPages))
        && (scope.EventsOnly? || CanReplace(peer.blocked, old(snapshot).identity.listKey))
      ensures r.Some? ==> Acceptable(old(snapshot), r.value.delta)
      ensures r.Some? ==> InOrder(r.value.delta.events, old(snapshot).nextEvent, old(snapshot).identity.listKey)
      ensures r.Some? && r.value.blocked.Some? ==> AllSigned(r.value.blocked.value, old(snapshot).identity.listKey)
      ensures r.Some? && Reachable(old(snapshot)) ==>
        ReplayGives(old(snapshot), r.value.delta, r.value.blocked, snapshot) && Reachable(snapshot)
      ensures r.Some? ==> Reports(peer, eventPageSize, maxPages, scope, r.value)
      ensures r.Some? && scope.EventsOnly? ==> r.value.blocked == None
      ensures r.Some? && !scope.EventsOnly? ==>
        (r.value.blocked.Some? <==> (!old(snapshot).blockedSynced && (scope.BlockedOnly? || snapshot.nextEvent > 0))
                                    || snapshot.blocked != old(snapshot).blocked)
    {
      var before := snapshot;
      var captured := SyncDelta(peer, eventPageSize, leafPageSize, maxPages, scope);
      if captured.None? {
        return None;
      }
      var (delta, exhausted) := captured.value;
      if scope.EventsOnly? {
        return Some(SyncResult(|delta.events|, exhausted, delta.events != [], delta, None));
      }
      r := SyncBlocked(peer, before, delta, exhausted, scope);
    }
  }

  /** The statuses without those that only the old list gave. */
  function Unmarked(status: map<Word, Status>, previous: set<Word>): map<Word, Status> {
    map c | c in status && !(c in previous && status[c] == ShieldBlocked) :: status[c]
  }

  method WithoutBlocked(status: map<Word, Status>, previous: set<Word>) returns (after: map<Word, Status>)
    ensures after == Unmarked(status, previous)
  {
    after := status;
    var todo := previous;
    while todo != {}
      invariant todo <= previous && after == Unmarked(status, previous - todo)
      decreases |todo|
    {
      var c :| c in todo;
      UnmarkedNext(status, previous, todo, c);
      if c in after && after[c] == ShieldBlocked {
        after := after - {c};
      }
      todo := todo - {c};
    }
    assert previous - todo == previous;
  }

  lemma UnmarkedNext(status: map<Word, Status>, previous: set<Word>, todo: set<Word>, c: Word)
    requires c in todo && todo <= previous
    ensures var before := Unmarked(status, previous - todo);
            Unmarked(status, previous - (todo - {c}))
              == if c in before && before[c] == ShieldBlocked then before - {c} else before
  {
  }

  // ---- What a sync reads ----

  /** The reading can start, every event page is good up to where it ends, and the leaf
      pages deliver the commitments of the events read. */
  ghost predicate Capturable(s: Snapshot, peer: Peer, eventPageSize: U64, leafPageSize: U64, maxPages: nat) {
    && eventPageSize > 0 && leafPageSize > 0 && maxPages > 0 && s.nextEvent == s.nextLeaf
    && exists n: nat, exhausted: bool ::
         && EventsSound(peer.events, eventPageSize, maxPages, s.nextEvent, s.identity.listKey, n, exhausted)
         && Delivers(peer.leaves, leafPageSize, Pages(peer.events, n))
  }

  /** What a sync of events needs of the peer: pages that stop after the budget or a short
      page, hold signed events in a row from the cursor, and leaf pages, full but for the
      last, that hold their commitments. */
  ghost predicate CanCapture(s: Snapshot, peer: Peer, eventPageSize: U64, leafPageSize: U64, maxPages: nat) {
    && eventPageSize > 0 && leafPageSize > 0 && maxPages > 0 && s.nextEvent == s.nextLeaf
    && exists n: nat, m: nat :: Captures(s, peer, eventPageSize, leafPageSize, maxPages, n, m)
  }

  predicate Captures(s: Snapshot, peer: Peer, eventPageSize: U64, leafPageSize: U64, maxPages: nat, n: nat, m: nat) {
    && StopsAfter(peer.events, eventPageSize, maxPages, n)
    && InOrder(Pages(peer.events, n), s.nextEvent, s.identity.listKey)
    && s.nextEvent + |Pages(peer.events, n - 1)| + eventPageSize - 1 <= U64_MAX
    && |Pages(peer.leaves, m)| == |Pages(peer.events, n)|
    && (forall i :: 0 <= i < |Pages(peer.leaves, m)| ==> Pages(peer.leaves, m)[i] == Pages(peer.events, n)[i].commitment)
    && (forall k :: 0 <= k < m ==> peer.leaves(k).Some?)
    && (forall k :: 0 <= k < m - 1 ==> |peer.leaves(k).value| == leafPageSize)
    && (m > 0 ==> 0 < |peer.leaves(m - 1).value| <= leafPageSize)
  }

  lemma DeliversInExactly(page: nat -> Option<seq<Word>>, size: nat, events: seq<Event>, m: nat)
    ensures DeliversIn(page, size, events, m) <==>
      && |Pages(page, m)| == |events|
      && (forall i :: 0 <= i < |Pages(page, m)| ==> Pages(page, m)[i] == events[i].commitment)
      && (forall k :: 0 <= k < m ==> page(k).Some?)
      && (forall k :: 0 <= k < m - 1 ==> |page(k).value| == size)
      && (m > 0 ==> 0 < |page(m - 1).value| <= size)
  {
  }

  lemma CapturableExactly(s: Snapshot, peer: Peer, eventPageSize: U64, leafPageSize: U64, maxPages: nat)
    ensures Capturable(s, peer, eventPageSize, leafPageSize, maxPages) <==> CanCapture(s, peer, eventPageSize, leafPageSize, maxPages)
  {
    if eventPageSize > 0 && leafPageSize > 0 && maxPages > 0 && s.nextEvent == s.nextLeaf {
      if Capturable(s, peer, eventPageSize, leafPageSize, maxPages) {
        var n: nat, e :| EventsSound(peer.events, eventPageSize, maxPages, s.nextEvent, s.identity.listKey, n, e)
                         && Delivers(peer.leaves, leafPageSize, Pages(peer.events, n));
        var m: nat :| DeliversIn(peer.leaves, leafPageSize, Pages(peer.events, n), m);
        EventsSoundExactly(peer.events, eventPageSize, maxPages, s.nextEvent, s.identity.listKey, n);
        DeliversInExactly(peer.leaves, leafPageSize, Pages(peer.events, n), m);
        assert Captures(s, peer, eventPageSize, leafPageSize, maxPages, n, m);
      }
      if CanCapture(s, peer, eventPageSize, leafPageSize, maxPages) {
        var n: nat, m: nat :| Captures(s, peer, eventPageSize, leafPageSize, maxPages, n, m);
        EventsSoundExactly(peer.events, eventPageSize, maxPages, s.nextEvent, s.identity.listKey, n);
        DeliversInExactly(peer.leaves, leafPageSize, Pages(peer.events, n), m);
        assert Delivers(peer.leaves, leafPageSize, Pages(peer.events, n));
      }
    }
  }

  /** What a sync of the blocked list needs: pages of 500 and a shorter last one, at most
      100000 records, all of them signed and readable. */
  ghost predicate CanReplace(page: nat -> Option<seq<BlockedShield>>, key: Word) {
    exists n: nat :: Replaces(page, key, n)
  }

  predicate Replaces(page: nat -> Option<seq<BlockedShield>>, key: Word, n: nat) {
    && n > 0 && (forall k :: 0 <= k < n ==> page(k).Some?)
    && (forall k :: 0 <= k < n - 1 ==> |page(k).value| == 500) && |page(n - 1).value| < 500
    && |Pages(page, n)| <= 100_000
    && forall i :: 0 <= i < |Pages(page, n)| ==> BlockedVerifies(Pages(page, n)[i], key) && Pages(page, n)[i].parsed.Some?
  }

  lemma ReplaceableExactly(page: nat -> Option<seq<BlockedShield>>, key: Word)
    ensures Replaceable(page, key) <==> CanReplace(page, key)
  {
    if Replaceable(page, key) {
      var n: nat :| BlockedSound(page, key, n) && AllParse(Pages(page, n));
      assert Replaces(page, key, n);
    }
    if CanReplace(page, key) {
      var n: nat :| Replaces(page, key, n);
      assert FullPages(page, BLOCKED_PAGE_SIZE, n - 1);
      assert BlockedSound(page, key, n) && AllParse(Pages(page, n));
    }
  }

  /** At most 100000 records, each of them signed and readable. */
  predicate AllSigned(list: seq<BlockedShield>, key: Word) {
    |list| <= 100_000 && forall i :: 0 <= i < |list| ==> BlockedVerifies(list[i], key) && list[i].parsed.Some?
  }

  lemma ReadBlockedIsSigned(page: nat -> Option<seq<BlockedShield>>, key: Word, list: seq<BlockedShield>)
    requires Replaceable(page, key) && ReadBlocked(page, list)
    ensures AllSigned(list, key)
  {
    var n: nat :| EndsShort(page, BLOCKED_PAGE_SIZE, n) && list == Pages(page, n);
    var m: nat :| BlockedSound(page, key, m) && AllParse(Pages(page, m));
    EndsShortOnce(page, BLOCKED_PAGE_SIZE, n, m);
  }

  lemma CapturableAfter(s: Snapshot, peer: Peer, eventPageSize: U64, leafPageSize: U64, maxPages: nat,
                        events: seq<Event>, exhausted: bool)
    requires eventPageSize > 0 && leafPageSize > 0 && maxPages > 0 && s.nextEvent == s.nextLeaf
    requires EventsReadable(peer.events, eventPageSize, maxPages, s.nextEvent, s.identity.listKey)
    requires ReadEvents(peer.events, eventPageSize, maxPages, events, exhausted)
    ensures Capturable(s, peer, eventPageSize, leafPageSize, maxPages) <==> Delivers(peer.leaves, leafPageSize, events)
  {
    var n: nat :| EventsEnd(peer.events, eventPageSize, maxPages, n, exhausted) && events == Pages(peer.events, n);
    var m: nat, ex :| EventsSound(peer.events, eventPageSize, maxPages, s.nextEvent, s.identity.listKey, m, ex);
    EventsEndOnce(peer.events, eventPageSize, maxPages, n, exhausted, m, ex);
    if Capturable(s, peer, eventPageSize, leafPageSize, maxPages) {
      var k: nat, e :| EventsSound(peer.events, eventPageSize, maxPages, s.nextEvent, s.identity.listKey, k, e)
                       && Delivers(peer.leaves, leafPageSize, Pages(peer.events, k));
      EventsEndOnce(peer.events, eventPageSize, maxPages, n, exhausted, k, e);
    }
  }

  /** The blocked list can be read, and all of it parses. */
  ghost predicate Replaceable(page: nat -> Option<seq<BlockedShield>>, key: Word) {
    exists n: nat :: BlockedSound(page, key, n) && AllParse(Pages(page, n))
  }

  lemma ReplaceableAfter(page: nat -> Option<seq<BlockedShield>>, key: Word, list: seq<BlockedShield>)
    requires BlockedReadable(page, key) && ReadBlocked(page, list)
    ensures Replaceable(page, key) <==> AllParse(list)
  {
    var n: nat :| EndsShort(page, BLOCKED_PAGE_SIZE, n) && list == Pages(page, n);
    var m: nat :| BlockedSound(page, key, m);
    EndsShortOnce(page, BLOCKED_PAGE_SIZE, n, m);
    if Replaceable(page, key) {
      var k: nat :| BlockedSound(page, key, k) && AllParse(Pages(page, k));
      EndsShortOnce(page, BLOCKED_PAGE_SIZE, n, k);
    }
  }

  /** The result says what was read. */
  ghost predicate Reports(peer: Peer, eventPageSize: U64, maxPages: nat, scope: Scope, result: SyncResult) {
    && (if scope.BlockedOnly? then result.delta.events == [] && !result.budgetExhausted
        else ReadEvents(peer.events, eventPageSize, maxPages, result.delta.events, result.budgetExhausted))
    && result.events == |result.delta.events|
    && (result.blocked.Some? ==> ReadBlocked(peer.blocked, result.blocked.value))
    && (result.changed <==> result.delta.events != [] || result.blocked.Some?)
  }

  /** The blocked list is worth reporting: first seen, or different. */
  predicate BlockedIsNews(before: Snapshot, after: Snapshot, scope: Scope) {
    (!before.blockedSynced && (scope.BlockedOnly? || after.nextEvent > 0)) || after.blocked != before.blocked
  }

  function EmptyDelta(s: Snapshot): Delta {
    Delta(DELTA_VERSION, s.identity, s.nextEvent, s.nextEvent, s.nextLeaf, s.nextLeaf, [], [])
  }

  lemma EmptyDeltaApplies(s: Snapshot)
    ensures Acceptable(s, EmptyDelta(s)) && ApplyDelta(s, EmptyDelta(s)).after == s
  {
    AcceptableDeltaApplies(s, EmptyDelta(s));
  }

  /** Replaying the capture on the starting cache reproduces the synced one. */
  ghost predicate ReplayGives(before: Snapshot, d: Delta, blocked: Option<seq<BlockedShield>>, synced: Snapshot)
    requires Acceptable(before, d)
  {
    var replayed := ApplyDelta(before, d).after;
    match blocked
    case Some(list) => ReplaceBlocked(replayed, list) == Outcome(synced, true)
    case None => synced == replayed.(blockedSynced := synced.blockedSynced)
  }

  /** A blocked list put in place after the delta; when it brings nothing new, only the
      flag changes. */
  lemma ReplacedIsReachable(before: Snapshot, mid: Snapshot, d: Delta, list: seq<BlockedShield>, synced: Snapshot)
    requires Reachable(before) && Acceptable(before, d) && mid == ApplyDelta(before, d).after
    requires ReplaceBlocked(mid, list) == Outcome(synced, true)
    ensures Reachable(synced)
    ensures synced.blocked == before.blocked ==> synced == mid.(blockedSynced := true)
  {
    StepIsReachable(before, JournalDelta(d));
    StepIsReachable(mid, SetBlocked(list));
    AcceptableDeltaApplies(before, d);
    ReachableBlockedMarked(mid);
    if synced.blocked == mid.blocked { SameBlockedSameCache(mid, list); }
  }

  /** The pages so far were good and have been applied. */
  predicate EventsSoFar(page: nat -> Option<seq<Event>>, size: nat, before: Snapshot, now: Snapshot, events: seq<Event>, pages: nat) {
    && events == Pages(page, pages) && GoodPages(page, size, before.nextEvent, before.identity.listKey, pages)
    && Contiguous(events, before.nextEvent)
    && now.nextEvent == before.nextEvent + |events| && now.identity == before.identity
    && ApplyEvents(before, events) == Outcome(now, true)
  }

  /** One more good page. */
  lemma EventsContinue(page: nat -> Option<seq<Event>>, size: nat, before: Snapshot, now: Snapshot, events: seq<Event>, pages: nat)
    requires EventsSoFar(page, size, before, now, events, pages)
    requires GoodPage(page, size, before.nextEvent, before.identity.listKey, pages)
    ensures var r := ApplyEvents(now, page(pages).value);
            r.ok && EventsSoFar(page, size, before, r.after, events + page(pages).value, pages + 1)
  {
    EventsFrom(now, page(pages).value);
    EventsInTwoParts(before, events, page(pages).value);
    JoinContiguous(events, page(pages).value, before.nextEvent);
  }

  lemma EventsAreRead(page: nat -> Option<seq<Event>>, size: nat, maxPages: nat, before: Snapshot, now: Snapshot,
                      events: seq<Event>, pages: nat, exhausted: bool)
    requires EventsSoFar(page, size, before, now, events, pages) && EventsEnd(page, size, maxPages, pages, exhausted)
    ensures EventsReadable(page, size, maxPages, before.nextEvent, before.identity.listKey)
    ensures ReadEvents(page, size, maxPages, events, exhausted)
  {
    assert EventsSound(page, size, maxPages, before.nextEvent, before.identity.listKey, pages, exhausted);
  }

  /** The pages so far hold the first commitments and have been applied. */
  predicate LeavesSoFar(page: nat -> Option<seq<Word>>, size: nat, events: seq<Event>, before: Snapshot, now: Snapshot,
                        leaves: seq<Word>, pages: nat)
  {
    && HoldsFirst(page, size, events, leaves, pages)
    && now.nextLeaf == before.nextLeaf + |leaves|
    && ApplyLeaves(before, before.nextLeaf, leaves) == Outcome(now, true)
  }

  predicate HoldsFirst(page: nat -> Option<seq<Word>>, size: nat, events: seq<Event>, leaves: seq<Word>, pages: nat) {
    && leaves == Pages(page, pages) && leaves <= CommitmentsOf(events)
    && if |leaves| < |events| then FullPages(page, size, pages) else DeliversIn(page, size, events, pages)
  }

  lemma HoldsMore(page: nat -> Option<seq<Word>>, size: nat, events: seq<Event>, leaves: seq<Word>, pages: nat)
    requires size > 0 && HoldsFirst(page, size, events, leaves, pages) && |leaves| < |events|
    requires GoodLeaves(page, size, events, pages)
    ensures HoldsFirst(page, size, events, leaves + page(pages).value, pages + 1)
  {
    var got, all := page(pages).value, CommitmentsOf(events);
    forall i | 0 <= i < |leaves + got| ensures (leaves + got)[i] == all[i] {
      if i >= |leaves| { assert got[i - |leaves|] == events[i].commitment; }
    }
  }

  /** One more good page. */
  lemma LeavesContinue(page: nat -> Option<seq<Word>>, size: nat, events: seq<Event>, before: Snapshot, now: Snapshot,
                       leaves: seq<Word>, pages: nat)
    requires size > 0 && LeavesSoFar(page, size, events, before, now, leaves, pages) && |leaves| < |events|
    requires GoodLeaves(page, size, events, pages) && now.nextEvent == before.nextLeaf + |events|
    ensures var r := ApplyLeaves(now, now.nextLeaf, page(pages).value);
            && r.ok && r.after.nextEvent == now.nextEvent
            && LeavesSoFar(page, size, events, before, r.after, leaves + page(pages).value, pages + 1)
  {
    HoldsMore(page, size, events, leaves, pages);
    LeavesMoveCursor(now, page(pages).value);
    LeavesApplyMore(before, before.nextLeaf, now, now.nextLeaf, leaves, page(pages).value);
  }

  lemma LeavesApplyMore(before: Snapshot, start: nat, now: Snapshot, next: nat, leaves: seq<Word>, more: seq<Word>)
    requires ApplyLeaves(before, start, leaves).ok && ApplyLeaves(before, start, leaves).after == now && next == start + |leaves|
    ensures ApplyLeaves(before, start, leaves + more) == ApplyLeaves(now, next, more)
  {
    LeavesInTwoParts(before, start, leaves, more);
  }

  lemma LeavesMoveCursor(s: Snapshot, leaves: seq<Word>)
    requires s.nextLeaf + |leaves| <= U64_MAX
    ensures var r := ApplyLeaves(s, s.nextLeaf, leaves);
            r.ok && r.after.nextLeaf == s.nextLeaf + |leaves| && r.after.nextEvent == s.nextEvent
  {
    LeavesFrom(s, leaves);
  }

  lemma JoinContiguous(a: seq<Event>, b: seq<Event>, start: nat)
    requires Contiguous(a, start) && Contiguous(b, start + |a|)
    ensures Contiguous(a + b, start)
  {
  }

  /** Every proof so far is vouched for, commitment by commitment. */
  predicate AllVouched(s: Snapshot, commitments: seq<Word>, proofs: seq<Proof>) {
    |proofs| <= |commitments| && forall i :: 0 <= i < |proofs| ==> Vouched(s, commitments[i], proofs[i])
  }

  /** Roots of some of the trees of a forest. */
  predicate RootsOver(roots: Roots, forest: Forest, done: set<nat>) {
    roots.Keys == done && done <= forest.Keys && forall t :: t in done ==> roots[t] == TreeRoot(forest[t].leaves)
  }

  lemma RootsComplete(roots: Roots, forest: Forest)
    requires RootsOver(roots, forest, forest.Keys)
    ensures roots == CurrentRoots(forest)
  {
    assert roots.Keys == CurrentRoots(forest).Keys;
  }

  method RootsOfForest(forest: Forest) returns (roots: Roots)
    requires CoherentForest(forest)
    ensures roots == CurrentRoots(forest)
  {
    roots := map[];
    var todo := forest.Keys;
    while todo != {}
      invariant todo <= forest.Keys
      invariant RootsOver(roots, forest, forest.Keys - todo)
      decreases |todo|
    {
      var t :| t in todo;
      var root := forest[t].ComputedRoot();
      roots := roots[t := root];
      todo := todo - {t};
    }
    assert forest.Keys - todo == forest.Keys;
    RootsComplete(roots, forest);
  }

  /** Every dense tree kept under a number holds that tree's leaves. */
  ghost predicate AllMirror(trees: map<nat, DenseMerkleTree>, forest: Forest)
    reads trees.Values
  {
    forall t :: t in trees ==> Mirrors(trees[t], LeavesOf(forest, t))
  }

  /** A dense tree that holds exactly these leaves. */
  ghost predicate Mirrors(dense: DenseMerkleTree, leaves: Positions)
    reads dense
  {
    dense.Valid() && SameLeaves(dense.Leaves(), leaves)
  }

  /** The proof the forest owes for a commitment. */
  function OwedProof(s: Snapshot, c: Word): Proof
    requires c in s.positions
  {
    ProofOf(LeavesOf(s.forest, s.positions[c].tree), s.positions[c].position % LEAVES)
  }

  /** This is the proof owed for the commitment. */
  predicate Owed(s: Snapshot, c: Word, p: Proof) {
    Servable(s, c) && p == OwedProof(s, c)
  }

  /** The proofs owed for the first commitments, in order. */
  predicate AllOwed(s: Snapshot, commitments: seq<Word>, proofs: seq<Proof>) {
    proofs == []
    || (|proofs| <= |commitments|
        && AllOwed(s, commitments, proofs[..|proofs| - 1])
        && Owed(s, commitments[|proofs| - 1], proofs[|proofs| - 1]))
  }

  lemma OwedSnoc(s: Snapshot, commitments: seq<Word>, proofs: seq<Proof>, p: Proof)
    requires AllOwed(s, commitments, proofs) && |proofs| < |commitments| && Owed(s, commitments[|proofs|], p)
    ensures AllOwed(s, commitments, proofs + [p])
  {
    assert (proofs + [p])[..|proofs|] == proofs;
  }

  lemma {:induction false} OwedAt(s: Snapshot, commitments: seq<Word>, proofs: seq<Proof>, i: nat)
    requires AllOwed(s, commitments, proofs) && i < |proofs|
    ensures |proofs| <= |commitments| && Owed(s, commitments[i], proofs[i])
    decreases |proofs|
  {
    if i < |proofs| - 1 { OwedAt(s, commitments, proofs[..|proofs| - 1], i); }
  }

  lemma OwedAreServable(s: Snapshot, commitments: seq<Word>, proofs: seq<Proof>)
    requires AllOwed(s, commitments, proofs) && |proofs| == |commitments|
    ensures forall i :: 0 <= i < |commitments| ==> Servable(s, commitments[i])
  {
    forall i | 0 <= i < |commitments| ensures Servable(s, commitments[i]) {
      OwedAt(s, commitments, proofs, i);
    }
  }

  /** Proves one commitment after another, building each dense tree once. */
  method ProveAll(s: Snapshot, commitments: seq<Word>) returns (r: Option<seq<Proof>>)
    requires CoherentForest(s.forest)
    ensures r.Some? <==> forall i :: 0 <= i < |commitments| ==> Servable(s, commitments[i])
    ensures r.Some? ==> |r.value| == |commitments| && AllOwed(s, commitments, r.value)
  {
    var trees: map<nat, DenseMerkleTree> := map[];
    var proofs: seq<Proof> := [];
    for n := 0 to |commitments|
      invariant AllMirror(trees, s.forest)
      invariant |proofs| == n && AllOwed(s, commitments, proofs)
    {
      var ok;
      ok, proofs, trees := ProveAfter(s, commitments, proofs, trees);
      if !ok {
        return None;
      }
    }
    OwedAreServable(s, commitments, proofs);
    return Some(proofs);
  }

  /** Proves the first commitment without a proof. */
  method ProveAfter(s: Snapshot, commitments: seq<Word>, proofs: seq<Proof>, trees: map<nat, DenseMerkleTree>)
    returns (ok: bool, longer: seq<Proof>, more: map<nat, DenseMerkleTree>)
    requires CoherentForest(s.forest) && AllMirror(trees, s.forest)
    requires AllOwed(s, commitments, proofs) && |proofs| < |commitments|
    ensures AllMirror(more, s.forest)
    ensures ok <==> Servable(s, commitments[|proofs|])
    ensures ok ==> |longer| == |proofs| + 1 && AllOwed(s, commitments, longer)
  {
    var proof;
    proof, more := ProveNext(s, commitments[|proofs|], trees);
    ok, longer := proof.Some?, proofs;
    if ok {
      OwedSnoc(s, commitments, proofs, proof.value);
      longer := proofs + [proof.value];
    }
  }

  method ProveNext(s: Snapshot, c: Word, trees: map<nat, DenseMerkleTree>)
    returns (r: Option<Proof>, more: map<nat, DenseMerkleTree>)
    requires CoherentForest(s.forest) && AllMirror(trees, s.forest)
    ensures AllMirror(more, s.forest)
    ensures r.Some? <==> Servable(s, c)
    ensures r.Some? ==> Owed(s, c, r.value)
  {
    if c !in s.positions {
      return None, trees;
    }
    var tree := s.positions[c].tree;
    more := WithTree(s.forest, trees, tree);
    r := ProofFor(s, c, more[tree]);
  }

  /** Builds the dense tree of a number the first time it is asked for. */
  method WithTree(forest: Forest, trees: map<nat, DenseMerkleTree>, tree: nat) returns (more: map<nat, DenseMerkleTree>)
    requires CoherentForest(forest) && AllMirror(trees, forest)
    ensures tree in more && AllMirror(more, forest)
  {
    more := trees;
    if tree !in trees {
      WholePrefix(LeavesOf(forest, tree));
      var built := new DenseMerkleTree.FromPrefix(LeavesOf(forest, tree), LEAVES);
      more := trees[tree := built];
    }
  }

  method ProofFor(s: Snapshot, c: Word, dense: DenseMerkleTree) returns (r: Option<Proof>)
    requires c in s.positions && Mirrors(dense, LeavesOf(s.forest, s.positions[c].tree))
    ensures r.Some? <==> Servable(s, c)
    ensures r.Some? ==> r.value == OwedProof(s, c)
  {
    var at := s.positions[c];
    var proof := dense.Prove(at.position);
    SameLeavesSameProof(dense.Leaves(), LeavesOf(s.forest, at.tree), at.position % LEAVES);
    return if proof.leaf != c then None else Some(proof);
  }

  lemma OwedIsVouched(s: Snapshot, c: Word, p: Proof)
    requires s.validation == Validated(CurrentRoots(s.forest)) && Owed(s, c, p)
    ensures Vouched(s, c, p)
  {
    var t, position := s.positions[c].tree, s.positions[c].position % LEAVES;
    ProofsVerify(LeavesOf(s.forest, t), position);
    assert t !in s.forest ==> LeafAt(LeavesOf(s.forest, t), position) == EMPTY_LEAF;
  }

  lemma OwedAreVouched(s: Snapshot, commitments: seq<Word>, proofs: seq<Proof>)
    requires s.validation == Validated(CurrentRoots(s.forest)) && AllOwed(s, commitments, proofs)
    requires |proofs| <= |commitments|
    ensures AllVouched(s, commitments, proofs)
  {
    forall i | 0 <= i < |proofs| ensures Vouched(s, commitments[i], proofs[i]) {
      OwedAt(s, commitments, proofs, i);
      OwedIsVouched(s, commitments[i], proofs[i]);
    }
  }

  /** The forest holds the commitment at the position recorded for it. */
  predicate Servable(s: Snapshot, c: Word) {
    && c in s.positions
    && LeafAt(LeavesOf(s.forest, s.positions[c].tree), s.positions[c].position % LEAVES) == c
  }

  /** What a returned proof guarantees. Its root is a validated one unless the commitment
      is the value of empty leaves and its recorded tree does not exist; every tree
      recorded in a reachable cache exists. */
  predicate Vouched(s: Snapshot, c: Word, p: Proof) {
    && p.leaf == c
    && |p.elements| == |p.rights| == DEPTH
    && Folded(p, DEPTH) == p.root
    && c in s.positions
    && var t := s.positions[c].tree;
    && p.root == TreeRoot(LeavesOf(s.forest, t))
    && (c != EMPTY_LEAF || TreesHeld(s) ==> RootIsValidated(s, c, p))
  }

  /** The root of the proof is the validated root of the tree the commitment is in. */
  predicate RootIsValidated(s: Snapshot, c: Word, p: Proof) {
    && c in s.positions && s.validation.Validated?
    && s.positions[c].tree in s.validation.roots && s.validation.roots[s.positions[c].tree] == p.root
  }

  /** Commitments by event index. */
  predicate Indexed(commitments: map<U64, Word>, d: Delta, n: nat)
    requires n <= |d.events|
  {
    && (forall g: U64 :: g in commitments <==> d.eventStart <= g < d.eventStart + n)
    && (forall g :: g in commitments ==> commitments[g] == d.events[g - d.eventStart].commitment)
  }

  method IndexEvents(d: Delta) returns (r: Option<map<U64, Word>>)
    requires d.eventStart + |d.events| == d.eventEnd
    ensures r.Some? <==> Contiguous(d.events, d.eventStart)
    ensures r.Some? ==> Indexed(r.value, d, |d.events|)
  {
    var commitments: map<U64, Word> := map[];
    for n := 0 to |d.events|
      invariant forall i :: 0 <= i < n ==> d.events[i].index == d.eventStart + i
      invariant Indexed(commitments, d, n)
    {
      if d.events[n].index != d.eventStart + n {
        return None;
      }
      commitments := commitments[d.events[n].index := d.events[n].commitment];
    }
    return Some(commitments);
  }

  /** Nothing is left of the events exactly when the leaves are the same stretch. */
  lemma NothingIsLeft(d: Delta, commitments: map<U64, Word>)
    requires d.eventStart + |d.events| == d.eventEnd && d.leafStart + |d.leaves| == d.leafEnd
    requires forall g: U64 :: g in commitments <==> d.eventStart <= g < d.eventEnd && !(d.leafStart <= g < d.leafEnd)
    requires d.leaves != [] ==> d.eventStart <= d.leafStart && d.leafEnd <= d.eventEnd
    ensures commitments == map[] <==> |d.events| == |d.leaves| && (d.events != [] ==> d.eventStart == d.leafStart)
  {
    assert commitments == map[] <==> forall g: U64 :: g !in commitments;
    if d.events != [] {
      assert d.eventStart in commitments <==> !(d.leafStart <= d.eventStart < d.leafEnd);
      assert d.eventEnd - 1 in commitments <==> !(d.leafStart <= d.eventEnd - 1 < d.leafEnd);
    }
  }

  /** Indexes the events by position, then removes one for each leaf. */
  method LeavesMatchEvents(d: Delta) returns (ok: bool)
    requires d.eventStart + |d.events| == d.eventEnd && d.leafStart + |d.leaves| == d.leafEnd
    ensures ok <==>
      && Contiguous(d.events, d.eventStart)
      && |d.events| == |d.leaves|
      && (d.events != [] ==> d.eventStart == d.leafStart)
      && forall i :: 0 <= i < |d.leaves| ==> d.leaves[i] == d.events[i].commitment
  {
    var indexed := IndexEvents(d);
    if indexed.None? {
      return false;
    }
    var commitments: map<U64, Word> := indexed.value;
    for n := 0 to |d.leaves|
      invariant forall g: U64 :: g in commitments <==>
        d.eventStart <= g < d.eventEnd && !(d.leafStart <= g < d.leafStart + n)
      invariant forall g :: g in commitments ==> commitments[g] == d.events[g - d.eventStart].commitment
      invariant n > 0 ==> d.eventStart <= d.leafStart && d.leafStart + n <= d.eventEnd
      invariant forall i :: 0 <= i < n ==> d.leaves[i] == d.events[d.leafStart + i - d.eventStart].commitment
    {
      var g := d.leafStart + n;
      if g !in commitments {
        return false;
      }
      assert d.eventStart <= g < d.eventEnd && commitments[g] == d.events[g - d.eventStart].commitment;
      if d.leaves[n] != commitments[g] {
        return false;
      }
      commitments := commitments - {g};
    }
    ok := commitments == map[];
    NothingIsLeft(d, commitments);
  }
}
