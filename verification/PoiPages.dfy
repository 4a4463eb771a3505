/** What a page-by-page reader gets from a peer, and when it gets everything. */
module PoiPages {
  import opened Common
  import opened PoiModel

  const BLOCKED_PAGE_SIZE: nat := 500
  const BLOCKED_LIMIT: nat := 100_000

  /** Any signature checks. */
  const EventVerifies: (Event, Word) -> bool
  const BlockedVerifies: (BlockedShield, Word) -> bool

  /** A peer that may answer each request anything, or fail. */
  datatype Peer = Peer(
    events: nat -> Option<seq<Event>>,
    leaves: nat -> Option<seq<Word>>,
    blocked: nat -> Option<seq<BlockedShield>>)

  // ---- Pages of any kind ----

  /** The items of the first `n` pages. */
  function Pages<T>(page: nat -> Option<seq<T>>, n: nat): seq<T> {
    if n == 0 then []
    else Pages(page, n - 1) + (if page(n - 1).Some? then page(n - 1).value else [])
  }

  predicate FullPages<T>(page: nat -> Option<seq<T>>, size: nat, n: nat) {
    forall k :: 0 <= k < n ==> page(k).Some? && |page(k).value| == size
  }

  /** Full pages, then one shorter than asked. */
  predicate EndsShort<T>(page: nat -> Option<seq<T>>, size: nat, n: nat) {
    n > 0 && FullPages(page, size, n - 1) && page(n - 1).Some? && |page(n - 1).value| < size
  }

  lemma {:induction false} PagesGrow<T>(page: nat -> Option<seq<T>>, n: nat, m: nat)
    requires n <= m
    ensures |Pages(page, n)| <= |Pages(page, m)|
    decreases m
  {
    if n < m { PagesGrow(page, n, m - 1); }
  }

  lemma {:induction false} PagesStay<T>(page: nat -> Option<seq<T>>, n: nat, m: nat, i: nat)
    requires n <= m && i < |Pages(page, n)|
    ensures i < |Pages(page, m)| && Pages(page, m)[i] == Pages(page, n)[i]
    decreases m
  {
    if n < m { PagesStay(page, n, m - 1, i); }
  }

  /** Where the items of one page end up. */
  lemma PageStays<T>(page: nat -> Option<seq<T>>, k: nat, m: nat, i: nat)
    requires k < m && page(k).Some? && i < |page(k).value|
    ensures |Pages(page, k)| + i < |Pages(page, m)| && Pages(page, m)[|Pages(page, k)| + i] == page(k).value[i]
  {
    assert Pages(page, k + 1) == Pages(page, k) + page(k).value;
    PagesStay(page, k + 1, m, |Pages(page, k)| + i);
  }

  /** A short page ends the reading, so there is only one place where it can end. */
  lemma EndsShortLater<T>(page: nat -> Option<seq<T>>, size: nat, n: nat, m: nat)
    requires FullPages(page, size, n) && EndsShort(page, size, m)
    ensures n < m
  {
    assert page(m - 1).Some? && |page(m - 1).value| < size;
  }

  lemma EndsShortOnce<T>(page: nat -> Option<seq<T>>, size: nat, n: nat, m: nat)
    requires EndsShort(page, size, n) && EndsShort(page, size, m)
    ensures n == m
  {
    EndsShortLater(page, size, n - 1, m);
    EndsShortLater(page, size, m - 1, n);
  }

  // ---- Events ----

  /** Reading ends at a page shorter than asked, or with the page budget. */
  predicate EventsEnd(page: nat -> Option<seq<Event>>, size: nat, maxPages: nat, n: nat, exhausted: bool) {
    if exhausted then n == maxPages && FullPages(page, size, n) else n <= maxPages && EndsShort(page, size, n)
  }

  ghost predicate ReadEvents(page: nat -> Option<seq<Event>>, size: nat, maxPages: nat, events: seq<Event>, exhausted: bool) {
    exists n: nat :: EventsEnd(page, size, maxPages, n, exhausted) && events == Pages(page, n)
  }

  /** A page continues the cursor within 64 bits and every event verifies. */
  predicate SoundPage(page: seq<Event>, from: nat, key: Word) {
    && Contiguous(page, from) && from + |page| <= U64_MAX
    && forall i :: 0 <= i < |page| ==> EventVerifies(page[i], key)
  }

  /** The request for a page stays within 64 bits and its answer is sound. */
  predicate GoodPage(page: nat -> Option<seq<Event>>, size: nat, start: nat, key: Word, k: nat) {
    && start + |Pages(page, k)| + size - 1 <= U64_MAX
    && page(k).Some? && |page(k).value| <= size
    && SoundPage(page(k).value, start + |Pages(page, k)|, key)
  }

  predicate GoodPages(page: nat -> Option<seq<Event>>, size: nat, start: nat, key: Word, n: nat) {
    forall k :: 0 <= k < n ==> GoodPage(page, size, start, key, k)
  }

  predicate EventsSound(page: nat -> Option<seq<Event>>, size: nat, maxPages: nat, start: nat, key: Word, n: nat, exhausted: bool) {
    EventsEnd(page, size, maxPages, n, exhausted) && GoodPages(page, size, start, key, n)
  }

  /** The peer's event pages are all good up to where the reading ends. */
  ghost predicate EventsReadable(page: nat -> Option<seq<Event>>, size: nat, maxPages: nat, start: nat, key: Word) {
    exists n: nat, exhausted: bool :: EventsSound(page, size, maxPages, start, key, n, exhausted)
  }

  lemma EventsEndLater(page: nat -> Option<seq<Event>>, size: nat, maxPages: nat, n: nat, m: nat, exhausted: bool)
    requires FullPages(page, size, n) && n < maxPages && EventsEnd(page, size, maxPages, m, exhausted)
    ensures n < m
  {
    if !exhausted { EndsShortLater(page, size, n, m); }
  }

  /** A bad page before the end leaves nothing to return. */
  lemma BadPageIsUnreadable(page: nat -> Option<seq<Event>>, size: nat, maxPages: nat, start: nat, key: Word, n: nat)
    requires FullPages(page, size, n) && n < maxPages && !GoodPage(page, size, start, key, n)
    ensures !EventsReadable(page, size, maxPages, start, key)
  {
    forall m: nat, exhausted: bool ensures !EventsSound(page, size, maxPages, start, key, m, exhausted) {
      if EventsEnd(page, size, maxPages, m, exhausted) {
        EventsEndLater(page, size, maxPages, n, m, exhausted);
      }
    }
  }

  /** Events in a row from the start, within 64 bits, each of them signed. */
  predicate InOrder(events: seq<Event>, start: nat, key: Word) {
    && start + |events| <= U64_MAX
    && forall i :: 0 <= i < |events| ==> events[i].index == start + i && EventVerifies(events[i], key)
  }

  lemma InOrderJoins(a: seq<Event>, b: seq<Event>, start: nat, key: Word)
    ensures InOrder(a + b, start, key) <==> InOrder(a, start, key) && SoundPage(b, start + |a|, key)
  {
    if InOrder(a + b, start, key) {
      forall i | 0 <= i < |a| ensures a[i].index == start + i && EventVerifies(a[i], key) {
        assert (a + b)[i] == a[i];
      }
      forall i | 0 <= i < |b| ensures b[i].index == start + |a| + i && EventVerifies(b[i], key) {
        assert (a + b)[|a| + i] == b[i];
      }
    }
  }

  /** Checking page by page is checking everything that was read, and the last request. */
  lemma {:induction false} GoodPagesExactly(page: nat -> Option<seq<Event>>, size: nat, start: nat, key: Word, n: nat)
    requires start <= U64_MAX
    ensures GoodPages(page, size, start, key, n) <==>
      && (forall k :: 0 <= k < n ==> page(k).Some? && |page(k).value| <= size)
      && InOrder(Pages(page, n), start, key)
      && (n > 0 ==> start + |Pages(page, n - 1)| + size - 1 <= U64_MAX)
    decreases n
  {
    if n > 0 {
      GoodPagesExactly(page, size, start, key, n - 1);
      if page(n - 1).Some? { InOrderJoins(Pages(page, n - 1), page(n - 1).value, start, key); }
      if n > 1 { PagesGrow(page, n - 2, n - 1); }
      assert GoodPages(page, size, start, key, n) <==>
        GoodPages(page, size, start, key, n - 1) && GoodPage(page, size, start, key, n - 1);
    }
  }

  lemma EventsEndOnce(page: nat -> Option<seq<Event>>, size: nat, maxPages: nat, n: nat, exhausted: bool, m: nat, exhausted': bool)
    requires EventsEnd(page, size, maxPages, n, exhausted) && EventsEnd(page, size, maxPages, m, exhausted')
    ensures n == m && exhausted == exhausted'
  {
    if exhausted && !exhausted' {
      EndsShortLater(page, size, n, m);
    } else if !exhausted && exhausted' {
      EndsShortLater(page, size, m, n);
    } else if !exhausted {
      EndsShortOnce(page, size, n, m);
    }
  }

  /** Full pages and then one shorter than asked, or the whole budget in full pages. */
  predicate StopsAfter(page: nat -> Option<seq<Event>>, size: nat, maxPages: nat, n: nat) {
    && 0 < n <= maxPages && (forall k :: 0 <= k < n ==> page(k).Some?)
    && (forall k :: 0 <= k < n - 1 ==> |page(k).value| == size)
    && (|page(n - 1).value| < size || (|page(n - 1).value| == size && n == maxPages))
  }

  /** Reading ends soundly after as many pages exactly when it stops there and what was read
      is in order. */
  lemma EventsSoundExactly(page: nat -> Option<seq<Event>>, size: nat, maxPages: nat, start: U64, key: Word, n: nat)
    requires size > 0 && maxPages > 0
    ensures EventsSound(page, size, maxPages, start, key, n, true) || EventsSound(page, size, maxPages, start, key, n, false) <==>
      && StopsAfter(page, size, maxPages, n) && InOrder(Pages(page, n), start, key)
      && start + |Pages(page, n - 1)| + size - 1 <= U64_MAX
  {
    GoodPagesExactly(page, size, start, key, n);
    if StopsAfter(page, size, maxPages, n) {
      assert forall k :: 0 <= k < n - 1 ==> page(k).Some? && |page(k).value| == size;
    }
  }

  lemma ReadEventsInOrder(page: nat -> Option<seq<Event>>, size: nat, maxPages: nat, start: U64, key: Word, events: seq<Event>, exhausted: bool)
    requires EventsReadable(page, size, maxPages, start, key) && ReadEvents(page, size, maxPages, events, exhausted)
    ensures InOrder(events, start, key)
  {
    var n: nat, e :| EventsSound(page, size, maxPages, start, key, n, e);
    var m: nat :| EventsEnd(page, size, maxPages, m, exhausted) && events == Pages(page, m);
    EventsEndOnce(page, size, maxPages, n, e, m, exhausted);
    GoodPagesExactly(page, size, start, key, n);
  }

  // ---- Leaves ----

  /** Full pages, with a last one that is not empty, hold exactly the commitments of the
      events. */
  predicate DeliversIn(page: nat -> Option<seq<Word>>, size: nat, events: seq<Event>, n: nat) {
    && Pages(page, n) == CommitmentsOf(events)
    && (n > 0 ==> FullPages(page, size, n - 1) && page(n - 1).Some? && 0 < |page(n - 1).value| <= size)
  }

  ghost predicate Delivers(page: nat -> Option<seq<Word>>, size: nat, events: seq<Event>) {
    exists n: nat :: DeliversIn(page, size, events, n)
  }

  function CommitmentsOf(events: seq<Event>): (leaves: seq<Word>)
    ensures |leaves| == |events| && forall i :: 0 <= i < |events| ==> leaves[i] == events[i].commitment
  {
    seq(|events|, i requires 0 <= i < |events| => events[i].commitment)
  }

  /** The page the reader asks for next. */
  predicate GoodLeaves(page: nat -> Option<seq<Word>>, size: nat, events: seq<Event>, k: nat) {
    var done := |Pages(page, k)|;
    && done <= |events|
    && page(k).Some? && |page(k).value| == (if size < |events| - done then size else |events| - done)
    && forall i :: 0 <= i < |page(k).value| ==> page(k).value[i] == events[done + i].commitment
  }

  /** What is delivered in `n` pages continues past every shorter prefix. */
  lemma DeliveryContinues(page: nat -> Option<seq<Word>>, size: nat, total: nat, k: nat, n: nat)
    requires |Pages(page, n)| == total && |Pages(page, k)| < total
    requires n > 0 ==> FullPages(page, size, n - 1) && page(n - 1).Some? && 0 < |page(n - 1).value| <= size
    ensures k < n && page(k).Some? && |Pages(page, k)| + |page(k).value| <= total
    ensures if k < n - 1 then |page(k).value| == size else |page(k).value| <= size && |Pages(page, k)| + |page(k).value| == total
  {
    if n <= k {
      PagesGrow(page, n, k);
    } else {
      PagesGrow(page, k + 1, n);
    }
  }

  /** A peer that delivers everything answers every request well. */
  lemma DeliveredPageIsGood(page: nat -> Option<seq<Word>>, size: nat, events: seq<Event>, k: nat)
    requires |Pages(page, k)| < |events| && Delivers(page, size, events)
    ensures GoodLeaves(page, size, events, k)
  {
    var n: nat :| DeliversIn(page, size, events, n);
    DeliveryContinues(page, size, |events|, k, n);
    forall i | 0 <= i < |page(k).value| ensures page(k).value[i] == events[|Pages(page, k)| + i].commitment {
      PageStays(page, k, n, i);
    }
  }

  // ---- Blocked shields ----

  predicate AllVerify(list: seq<BlockedShield>, key: Word) {
    forall i :: 0 <= i < |list| ==> BlockedVerifies(list[i], key)
  }

  predicate AllParse(list: seq<BlockedShield>) {
    forall i :: 0 <= i < |list| ==> list[i].parsed.Some?
  }

  ghost predicate ReadBlocked(page: nat -> Option<seq<BlockedShield>>, list: seq<BlockedShield>) {
    exists n: nat :: EndsShort(page, BLOCKED_PAGE_SIZE, n) && list == Pages(page, n)
  }

  /** The blocked list ends with a short page, within the limit, and all of it verifies. */
  predicate BlockedSound(page: nat -> Option<seq<BlockedShield>>, key: Word, n: nat) {
    EndsShort(page, BLOCKED_PAGE_SIZE, n) && |Pages(page, n)| <= BLOCKED_LIMIT && AllVerify(Pages(page, n), key)
  }

  ghost predicate BlockedReadable(page: nat -> Option<seq<BlockedShield>>, key: Word) {
    exists n: nat :: BlockedSound(page, key, n)
  }

  predicate GoodBlocked(page: nat -> Option<seq<BlockedShield>>, key: Word, k: nat) {
    && page(k).Some? && |page(k).value| <= BLOCKED_PAGE_SIZE
    && |Pages(page, k)| + |page(k).value| <= BLOCKED_LIMIT
    && AllVerify(page(k).value, key)
  }

  /** A bad page before the end leaves nothing to return. */
  lemma BadBlockedIsUnreadable(page: nat -> Option<seq<BlockedShield>>, key: Word, k: nat)
    requires FullPages(page, BLOCKED_PAGE_SIZE, k) && !GoodBlocked(page, key, k)
    ensures !BlockedReadable(page, key)
  {
    forall n: nat ensures !BlockedSound(page, key, n) {
      if EndsShort(page, BLOCKED_PAGE_SIZE, n) {
        EndsShortLater(page, BLOCKED_PAGE_SIZE, k, n);
        PagesGrow(page, k + 1, n);
        if AllVerify(Pages(page, n), key) {
          forall i | 0 <= i < |page(k).value| ensures BlockedVerifies(page(k).value[i], key) {
            PageStays(page, k, n, i);
          }
        }
      }
    }
  }

  /** A blocked list is applied whole exactly when every record parses. */
  lemma {:induction false} BlockedApplies(s: Snapshot, list: seq<BlockedShield>)
    ensures ApplyBlocked(s, list).ok <==> AllParse(list)
    decreases |list|
  {
    if list != [] && list[0].parsed.Some? {
      BlockedApplies(Block(s, list[0].parsed.value, list[0]), list[1..]);
      assert list == [list[0]] + list[1..];
    }
  }
}
