/**
 The cursor-paged scan for everyone who has touched the vault
 (cmd/vault-backfill/main.go), against a node whose log keeps growing while it
 is being read.
 */
module Backfill {
  import opened Options
  import opened Queues

  /** An event and the addresses it names, if it decodes. */
  datatype Info = Info(ledger: nat, addresses: Option<seq<string>>)

  datatype Cursor = NoCursor | Malformed | After(position: nat)

  datatype Request = FromLedger(ledger: nat, limit: nat) | FromCursor(position: nat, limit: nat)

  datatype Page = Page(events: seq<Info>, cursor: Cursor, oldest: nat, latest: nat)

  datatype Reply = Failed | Served(page: Page)

  /** The node's answer to its k-th events request. */
  type Node = (nat, Request) -> Reply

  datatype Result = ScanFailed | Scanned(addresses: seq<string>, oldest: nat, latest: nat)

  const EVENTS_PAGE_LIMIT := 1000

  // --- What the node promises ---

  /** How many events lie before a ledger. */
  function Before(log: seq<Info>, ledger: nat): (n: nat)
    ensures n <= |log|
  {
    if log == [] || log[0].ledger >= ledger then 0 else 1 + Before(log[1..], ledger)
  }

  function StartOf(log: seq<Info>, req: Request): nat {
    if req.FromCursor? then req.position else Before(log, req.ledger)
  }

  function Least(a: nat, b: nat): nat { if a <= b then a else b }

  /** A page holds the next events in order, short only at the end of what the node
      has; its cursor, when there is one and it parses, is where the page ends. */
  ghost predicate IsPage(log: seq<Info>, seen: nat, req: Request, page: Page)
    requires seen <= |log|
  {
    var start := StartOf(log, req);
    && (start <= seen ==> page.events == log[start..Least(start + req.limit, seen)])
    && (start > seen ==> page.events == [])
    && (page.cursor.After? ==> page.cursor.position == start + |page.events|)
    && (forall i | 0 <= i < |log| :: page.oldest <= log[i].ledger)
  }

  /** The node serves pages of one log; at its k-th request `seen(k)` events of it
      exist, never fewer than before. */
  ghost predicate Serves(node: Node, log: seq<Info>, seen: nat -> nat) {
    && (forall k :: seen(k) <= |log|)
    && (forall j, k | j <= k :: seen(j) <= seen(k))
    && (forall k, req {:trigger IsPage(log, seen(k), req, node(k, req).page)} ::
          node(k, req).Served? ==> IsPage(log, seen(k), req, node(k, req).page))
  }

  // --- What the scan finds ---

  ghost predicate Mentions(events: seq<Info>, address: string) {
    exists i | 0 <= i < |events| :: events[i].addresses.Some? && address in events[i].addresses.value
  }

  /** Exactly the addresses named by the events, each once. */
  ghost predicate Lists(addresses: seq<string>, events: seq<Info>) {
    Distinct(addresses) && forall a :: a in addresses <==> Mentions(events, a)
  }

  ghost predicate Names(found: set<string>, events: seq<Info>) { forall a :: a in found <==> Mentions(events, a) }

  lemma MentionsConcat(a: seq<Info>, b: seq<Info>, address: string)
    ensures Mentions(a + b, address) <==> Mentions(a, address) || Mentions(b, address)
  {
    if Mentions(a, address) {
      var i :| 0 <= i < |a| && a[i].addresses.Some? && address in a[i].addresses.value;
      assert (a + b)[i] == a[i];
    }
    if Mentions(b, address) {
      var i :| 0 <= i < |b| && b[i].addresses.Some? && address in b[i].addresses.value;
      assert (a + b)[|a| + i] == b[i];
    }
  }

  /** Decodes a page into the set of addresses seen so far. */
  method Collect(seen: set<string>, page: seq<Info>, ghost before: seq<Info>) returns (r: set<string>)
    requires Names(seen, before)
    ensures Names(r, before + page)
  {
    r := seen;
    assert before + page[..0] == before;
    for i := 0 to |page|
      invariant Names(r, before + page[..i])
    {
      ghost var was := r;
      if page[i].addresses.Some? {
        r := r + (set a | a in page[i].addresses.value);
      }
      assert before + page[..i + 1] == (before + page[..i]) + [page[i]];
      forall a ensures a in r <==> Mentions(before + page[..i + 1], a) {
        MentionsConcat(before + page[..i], [page[i]], a);
        assert Mentions([page[i]], a) <==> page[i].addresses.Some? && a in page[i].addresses.value by {
          assert [page[i]][0] == page[i];
        }
      }
    }
    assert page[..|page|] == page;
  }

  method Listed(seen: set<string>) returns (addresses: seq<string>)
    ensures Distinct(addresses) && forall a :: a in addresses <==> a in seen
  {
    addresses := [];
    var left := seen;
    while left != {}
      invariant Distinct(addresses) && left <= seen
      invariant forall a :: a in addresses <==> a in seen && a !in left
      decreases left
    {
      var a :| a in left;
      addresses := addresses + [a];
      left := left - {a};
    }
  }

  lemma NothingBefore(log: seq<Info>, ledger: nat)
    requires forall i | 0 <= i < |log| :: ledger <= log[i].ledger
    ensures Before(log, ledger) == 0
  {
  }

  /** A page without a cursor is the end of what the node has. */
  ghost predicate CursorUntilEnd(node: Node, log: seq<Info>, seen: nat -> nat) {
    forall k, req :: node(k, req).Served? && node(k, req).page.cursor == NoCursor ==>
      StartOf(log, req) + |node(k, req).page.events| >= seen(k)
  }

  lemma PageCovers(log: seq<Info>, seen: nat, req: Request, page: Page)
    requires seen <= |log| && IsPage(log, seen, req, page) && StartOf(log, req) <= seen
    ensures var n, m := StartOf(log, req), StartOf(log, req) + |page.events|;
      && |page.events| <= req.limit && m <= seen && (|page.events| < req.limit ==> m == seen)
      && log[..n] + page.events == log[..m]
      && (page.cursor.After? ==> page.cursor.position == m)
      && (forall i | 0 <= i < |log| :: page.oldest <= log[i].ledger)
  {
  }

  lemma LastPageReachesEnd(node: Node, log: seq<Info>, seen: nat -> nat, k: nat, req: Request)
    requires CursorUntilEnd(node, log, seen) && node(k, req).Served? && node(k, req).page.cursor == NoCursor
    ensures StartOf(log, req) + |node(k, req).page.events| >= seen(k)
  {
  }

  /** Why a scan fails: no latest ledger, a failed request or a malformed cursor. */
  ghost predicate SomethingFails(node: Node, latestLedger: Option<nat>) {
    || latestLedger == None
    || (exists k, req :: node(k, req) == Failed)
    || (exists k, req :: node(k, req).Served? && node(k, req).page.cursor == Malformed)
  }

  /** The oldest ledger of the first page that gives one. */
  function OldestOf(pages: seq<Page>): nat {
    if pages == [] then 0 else if pages[0].oldest > 0 then pages[0].oldest else OldestOf(pages[1..])
  }

  lemma {:induction false} NextOldest(pages: seq<Page>, page: Page)
    ensures OldestOf(pages + [page]) == if OldestOf(pages) == 0 then page.oldest else OldestOf(pages)
    decreases |pages|
  {
    if pages == [] {
      assert pages + [page] == [page];
    } else {
      NextOldest(pages[1..], page);
      assert (pages + [page])[1..] == pages[1..] + [page];
    }
  }

  function ProbeOf(latestLedger: nat): Request { FromLedger(latestLedger, 1) }

  /** The request after these pages: from the oldest ledger the node has, then from the
      last page's cursor, if that page was full. */
  function RequestAfter(pages: seq<Page>, oldestLedger: nat): Option<Request> {
    if pages == [] then Some(FromLedger(oldestLedger, EVENTS_PAGE_LIMIT))
    else
      var last := pages[|pages| - 1];
      if |last.events| >= EVENTS_PAGE_LIMIT && last.cursor.After?
      then Some(FromCursor(last.cursor.position, EVENTS_PAGE_LIMIT))
      else None
  }

  /** Each page is the node's reply to the request that follows the ones before it. */
  ghost predicate AreReplies(node: Node, oldestLedger: nat, pages: seq<Page>)
    decreases |pages|
  {
    pages == [] || (
      var before := pages[..|pages| - 1];
      && AreReplies(node, oldestLedger, before)
      && RequestAfter(before, oldestLedger).Some?
      && node(|pages|, RequestAfter(before, oldestLedger).value) == Served(pages[|pages| - 1]))
  }

  ghost predicate IsScan(node: Node, latestLedger: nat, pages: seq<Page>) {
    var probe := node(0, ProbeOf(latestLedger));
    probe.Served? && AreReplies(node, probe.page.oldest, pages)
  }

  lemma NextPage(node: Node, latestLedger: nat, pages: seq<Page>, req: Request, page: Page)
    requires IsScan(node, latestLedger, pages) && node(|pages| + 1, req) == Served(page)
    requires RequestAfter(pages, node(0, ProbeOf(latestLedger)).page.oldest) == Some(req)
    ensures IsScan(node, latestLedger, pages + [page])
  {
    assert (pages + [page])[..|pages|] == pages;
  }

  /** Where a scan stands before its next request. */
  ghost predicate Reading(node: Node, latestLedger: nat, log: seq<Info>, seen: nat -> nat,
                          pages: seq<Page>, n: nat, oldest: nat, req: Request) {
    && IsScan(node, latestLedger, pages) && oldest == OldestOf(pages)
    && RequestAfter(pages, node(0, ProbeOf(latestLedger)).page.oldest) == Some(req)
    && n == EVENTS_PAGE_LIMIT * |pages| && StartOf(log, req) == n <= seen(|pages|)
    && (forall i | 0 <= i < |log| :: oldest <= log[i].ledger)
  }

  /** And where it stands after a page: short of the end only if another page follows. */
  ghost predicate Read(node: Node, latestLedger: nat, log: seq<Info>, seen: nat -> nat,
                       pages: seq<Page>, n: nat, oldest: nat) {
    && IsScan(node, latestLedger, pages) && oldest == OldestOf(pages)
    && pages != [] && (forall i | 0 <= i < |log| :: oldest <= log[i].ledger)
    && var last := pages[|pages| - 1];
      && n == EVENTS_PAGE_LIMIT * (|pages| - 1) + |last.events| && |last.events| <= EVENTS_PAGE_LIMIT
      && n <= seen(|pages|) && seen(1) <= seen(|pages|)
      && (|last.events| < EVENTS_PAGE_LIMIT || (last.cursor == NoCursor && CursorUntilEnd(node, log, seen))
          ==> n == seen(|pages|))
      && (last.cursor.After? ==> last.cursor.position == n)
  }

  lemma ReadsPage(node: Node, latestLedger: nat, log: seq<Info>, seen: nat -> nat,
                  pages: seq<Page>, n: nat, oldest: nat, req: Request, page: Page)
    requires Serves(node, log, seen) && Reading(node, latestLedger, log, seen, pages, n, oldest, req)
    requires node(|pages| + 1, req) == Served(page)
    ensures n + |page.events| <= |log| && log[..n] + page.events == log[..n + |page.events|]
    ensures Read(node, latestLedger, log, seen, pages + [page], n + |page.events|,
                 if oldest == 0 then page.oldest else oldest)
  {
    var k := |pages| + 1;
    assert IsPage(log, seen(k), req, page);
    assert seen(k - 1) <= seen(k) <= |log| && seen(1) <= seen(k);
    PageCovers(log, seen(k), req, page);
    NextPage(node, latestLedger, pages, req, page);
    NextOldest(pages, page);
    if CursorUntilEnd(node, log, seen) && page.cursor == NoCursor { LastPageReachesEnd(node, log, seen, k, req); }
    assert (pages + [page])[|pages|] == page;
  }

  lemma StartsReading(node: Node, latestLedger: nat, log: seq<Info>, seen: nat -> nat)
    requires Serves(node, log, seen) && node(0, ProbeOf(latestLedger)).Served?
    ensures Reading(node, latestLedger, log, seen, [], 0, 0,
                    FromLedger(node(0, ProbeOf(latestLedger)).page.oldest, EVENTS_PAGE_LIMIT))
  {
    assert IsPage(log, seen(0), ProbeOf(latestLedger), node(0, ProbeOf(latestLedger)).page);
    NothingBefore(log, node(0, ProbeOf(latestLedger)).page.oldest);
  }

  lemma Fails(node: Node, latestLedger: nat, k: nat, req: Request)
    requires node(k, req) == Failed || node(k, req).page.cursor == Malformed
    ensures SomethingFails(node, Some(latestLedger))
  {
  }

  /** The scan stops, on any log. If it succeeds it lists exactly the addresses of
      the first `n` events: everything the node had at its last request, and so at
      least everything it had when the scan began, unless that request's full page
      came without a cursor. With a log of any length, an exact multiple of the page
      size or not, it reads all full pages and then one that is short or the end. */
  method ScanDepositors(node: Node, latestLedger: Option<nat>, ghost log: seq<Info>, ghost seen: nat -> nat)
    returns (r: Result, ghost pages: seq<Page>, ghost n: nat)
    requires Serves(node, log, seen)
    ensures r.Scanned? ==> latestLedger.Some? && pages != [] && IsScan(node, latestLedger.value, pages)
    ensures r.Scanned? ==>
      var last := pages[|pages| - 1];
      && n == EVENTS_PAGE_LIMIT * (|pages| - 1) + |last.events| && |last.events| <= EVENTS_PAGE_LIMIT
      && (|last.events| < EVENTS_PAGE_LIMIT || last.cursor == NoCursor)
    ensures r.Scanned? ==> n <= seen(|pages|) && Lists(r.addresses, log[..n])
    ensures r.Scanned?
      && (|pages[|pages| - 1].events| < EVENTS_PAGE_LIMIT || CursorUntilEnd(node, log, seen))
      ==> seen(1) <= n == seen(|pages|)
    ensures r.Scanned? ==> r.latest == pages[|pages| - 1].latest && r.oldest == OldestOf(pages)
    ensures r.Scanned? ==> forall i | 0 <= i < |log| :: r.oldest <= log[i].ledger
    ensures latestLedger == None ==> r == ScanFailed
    ensures r == ScanFailed ==> SomethingFails(node, latestLedger)
  {
    pages, n := [], 0;
    if latestLedger == None {
      return ScanFailed, pages, n;
    }
    var probe := node(0, ProbeOf(latestLedger.value));
    if probe == Failed {
      Fails(node, latestLedger.value, 0, ProbeOf(latestLedger.value));
      return ScanFailed, pages, n;
    }
    var req := FromLedger(probe.page.oldest, EVENTS_PAGE_LIMIT);
    StartsReading(node, latestLedger.value, log, seen);
    var found: set<string> := {};
    var oldest: nat, latest: nat, k: nat := 0, 0, 1;
    while true
      invariant k == |pages| + 1 && n <= |log|
      invariant Reading(node, latestLedger.value, log, seen, pages, n, oldest, req)
      invariant Names(found, log[..n])
      decreases |log| - n
    {
      var reply := node(k, req);
      if reply == Failed {
        Fails(node, latestLedger.value, k, req);
        return ScanFailed, pages, n;
      }
      var resp := reply.page;
      ReadsPage(node, latestLedger.value, log, seen, pages, n, oldest, req, resp);
      if oldest == 0 {
        oldest := resp.oldest;
      }
      latest := resp.latest;
      found := Collect(found, resp.events, log[..n]);
      pages, n := pages + [resp], n + |resp.events|;
      if |resp.events| < EVENTS_PAGE_LIMIT || resp.cursor == NoCursor {
        break;
      }
      if resp.cursor == Malformed {
        Fails(node, latestLedger.value, k, req);
        return ScanFailed, pages, n;
      }
      req := FromCursor(resp.cursor.position, EVENTS_PAGE_LIMIT);
      k := k + 1;
    }
    assert Read(node, latestLedger.value, log, seen, pages, n, oldest);
    var addresses := Listed(found);
    r := Scanned(addresses, oldest, latest);
  }
}
