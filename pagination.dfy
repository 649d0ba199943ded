/**
 * `fetch_klines`: pages through `/api/v3/klines` with `limit=1000`, moving the cursor to one
 * millisecond past the last open time of each full page, then merges what it collected.
 *
 * The exchange is a `Server`: `server(req, a)` is what the (a+1)-th transport call carrying
 * the query `req` yields. Cursors only grow, so no query is sent twice by one crawl, and the
 * oracle loses no generality.
 */
module Pagination {
  import opened Wrappers
  import opened Klines
  import opened Retry
  import Merge

  /** The `limit` query parameter: the largest page the exchange returns. */
  const PageLimit := 1000

  /** The query parameters of one page request. */
  datatype Request = Request(symbol: string, interval: string, startTime: int, endTime: int, limit: int)

  type Server = (Request, nat) -> Outcome

  /**
   * The exchange honours `startTime`: a page never holds a candle that opens before it.
   * Without this, a page whose last candle opens before the cursor would make the source
   * loop for ever; the model assumes it.
   */
  ghost predicate Honest(server: Server)
  {
    forall req: Request, a: nat :: server(req, a).Success? ==>
      forall i :: 0 <= i < |server(req, a).data| ==> req.startTime <= server(req, a).data[i].openTimeMs
  }

  /** The transport calls of one query, in the order the retry loop makes them. */
  function Attempts(server: Server, req: Request): nat -> Outcome
  {
    (a: nat) => server(req, a)
  }

  /** The query of the page that starts at `cursor`. */
  function PageRequest(symbol: string, interval: string, cursor: int, endMs: int): Request
  {
    Request(symbol, interval, cursor, endMs, PageLimit)
  }

  /** What the crawl did: the rows it collected (`out`), the queries it sent, and how it failed. */
  datatype Crawl = Crawl(rows: seq<Kline>, requests: seq<Request>, failure: Option<FetchError>)

  /** A page fetched through the retry loop holds no candle before its query's `startTime`. */
  lemma RetryKeepsHonest(server: Server, req: Request)
    requires Honest(server)
    ensures var reply := RetrySpec(Attempts(server, req), DefaultRetries).reply;
            reply.Fetched? ==> AllAtOrAfter(reply.data, req.startTime)
  {
    var outcomes := Attempts(server, req);
    RetryEnding(outcomes, DefaultRetries);
    var run := RetrySpec(outcomes, DefaultRetries);
    var last := outcomes(run.calls - 1);
    assert last == server(req, run.calls - 1);
  }

  /** The reply of `_request_with_retry`, with its default number of attempts, to each query. */
  function Pages(server: Server): Request -> Reply
  {
    (req: Request) => RetrySpec(Attempts(server, req), DefaultRetries).reply
  }

  /** Pages that never hold a candle before their query's `startTime`. */
  ghost predicate HonestPages(pages: Request -> Reply)
  {
    forall req: Request :: pages(req).Fetched? ==> AllAtOrAfter(pages(req).data, req.startTime)
  }

  /** The retry loop in front of an honest exchange yields honest pages. */
  lemma PagesHonest(server: Server)
    requires Honest(server)
    ensures HonestPages(Pages(server))
  {
    forall req: Request ensures Pages(server)(req).Fetched? ==> AllAtOrAfter(Pages(server)(req).data, req.startTime) {
      RetryKeepsHonest(server, req);
    }
  }

  /** The crawl from cursor `cursor` on: the `while True` loop of `fetch_klines`, where
   * `pages(req)` is what `_request_with_retry` returns for the query `req`. */
  function CrawlFrom(pages: Request -> Reply, symbol: string, interval: string, cursor: int, endMs: int): Crawl
    requires HonestPages(pages)
    decreases endMs - cursor
  {
    var req := PageRequest(symbol, interval, cursor, endMs);
    var reply := pages(req);
    match reply
    case Raised(e) => Crawl([], [req], Some(e))
    case Fetched(data) =>
      if data == [] then Crawl([], [req], None)
      else
        var lastOpen := data[|data| - 1].openTimeMs;
        if lastOpen >= endMs || |data| < PageLimit then Crawl(data, [req], None)
        else
          var rest := CrawlFrom(pages, symbol, interval, lastOpen + 1, endMs);
          Crawl(data + rest.rows, [req] + rest.requests, rest.failure)
  }

  /** The loop goes on after this page: it is full, and its last candle opens before `endMs`. */
  predicate GoesOn(page: Reply, endMs: int)
  {
    page.Fetched? && |page.data| >= PageLimit && page.data[|page.data| - 1].openTimeMs < endMs
  }

  /** The rows and queries already collected, followed by the rest of the crawl. */
  function Join(rows: seq<Kline>, requests: seq<Request>, rest: Crawl): Crawl
  {
    Crawl(rows + rest.rows, requests + rest.requests, rest.failure)
  }

  /**
   * The loop of `fetch_klines` from cursor `cursor` on, once `rows` and `requests` have been
   * collected: the same crawl, with the collected rows and queries carried along.
   */
  function CrawlOn(pages: Request -> Reply, symbol: string, interval: string, cursor: int, endMs: int,
                   rows: seq<Kline>, requests: seq<Request>): Crawl
    requires HonestPages(pages)
    decreases endMs - cursor
  {
    var req := PageRequest(symbol, interval, cursor, endMs);
    match pages(req)
    case Raised(e) => Crawl(rows, requests + [req], Some(e))
    case Fetched(data) =>
      if data == [] then Crawl(rows, requests + [req], None)
      else
        var lastOpen := data[|data| - 1].openTimeMs;
        if lastOpen >= endMs || |data| < PageLimit then Crawl(rows + data, requests + [req], None)
        else CrawlOn(pages, symbol, interval, lastOpen + 1, endMs, rows + data, requests + [req])
  }

  /** Carrying the collected rows and queries along is the same as putting them in front. */
  lemma {:induction false} CrawlOnIsJoin(pages: Request -> Reply, symbol: string, interval: string, cursor: int, endMs: int,
                                         rows: seq<Kline>, requests: seq<Request>)
    requires HonestPages(pages)
    ensures CrawlOn(pages, symbol, interval, cursor, endMs, rows, requests)
            == Join(rows, requests, CrawlFrom(pages, symbol, interval, cursor, endMs))
    decreases endMs - cursor
  {
    var req := PageRequest(symbol, interval, cursor, endMs);
    match pages(req)
    case Raised(e) =>
      assert rows + [] == rows;
    case Fetched(data) =>
      if data == [] {
        assert rows + [] == rows;
      } else {
        var lastOpen := data[|data| - 1].openTimeMs;
        if lastOpen < endMs && |data| >= PageLimit {
          assert cursor <= data[|data| - 1].openTimeMs;
          CrawlOnIsJoin(pages, symbol, interval, lastOpen + 1, endMs, rows + data, requests + [req]);
          JoinJoin(rows, requests, data, [req], CrawlFrom(pages, symbol, interval, lastOpen + 1, endMs));
        }
      }
  }

  /** Nothing collected yet: the crawl is all that follows. */
  lemma JoinNothing(rest: Crawl)
    ensures Join([], [], rest) == rest
  {
    assert [] + rest.rows == rest.rows;
    assert [] + rest.requests == rest.requests;
  }

  /** Rows and queries collected in two stretches, one after the other. */
  lemma JoinJoin(rows: seq<Kline>, requests: seq<Request>, more: seq<Kline>, moreRequests: seq<Request>, rest: Crawl)
    ensures Join(rows, requests, Join(more, moreRequests, rest)) == Join(rows + more, requests + moreRequests, rest)
  {
    assert rows + (more + rest.rows) == (rows + more) + rest.rows;
    assert requests + (moreRequests + rest.requests) == (requests + moreRequests) + rest.requests;
  }

  /** The crawl `fetch_klines` makes in front of the exchange `server`. */
  function CrawlOf(server: Server, symbol: string, interval: string, startMs: int, endMs: int): Crawl
    requires Honest(server)
  {
    PagesHonest(server);
    CrawlFrom(Pages(server), symbol, interval, startMs, endMs)
  }

  /** The outcome of `fetch_klines`: the merged rows, or the exception that escaped. */
  function FetchSpec(server: Server, symbol: string, interval: string, startMs: int, endMs: int): Result<seq<Kline>, FetchError>
    requires Honest(server)
  {
    var crawl := CrawlOf(server, symbol, interval, startMs, endMs);
    match crawl.failure
    case Some(e) => Err(e)
    case None => Ok(Merge.Merge(crawl.rows, endMs))
  }

  /** `_request_with_retry(url, params, timeout)`: one page, with the default number of attempts. */
  method RequestPage(server: Server, req: Request) returns (reply: Reply)
    ensures reply == Pages(server)(req)
  {
    var calls, sleeps;
    reply, calls, sleeps := RequestWithRetry(Attempts(server, req), DefaultRetries);
  }

  /**
   * One turn of the `while True` loop of `fetch_klines`: query the page at `cursor` and keep
   * its rows. The loop ends here (`more` false) when the query raises, the page is empty, or
   * the page is short or reaches `endMs`; otherwise it goes on at `next`, one millisecond past
   * the last open time of the page.
   */
  method Turn(server: Server, ghost pages: Request -> Reply, symbol: string, interval: string, cursor: int, endMs: int,
              rows: seq<Kline>, requests: seq<Request>)
      returns (rows': seq<Kline>, requests': seq<Request>, failure: Option<FetchError>, more: bool, next: int)
    requires pages == Pages(server) && HonestPages(pages)
    ensures var page := pages(PageRequest(symbol, interval, cursor, endMs));
            && requests' == requests + [PageRequest(symbol, interval, cursor, endMs)]
            && rows' == rows + (if page.Fetched? then page.data else [])
            && failure == (if page.Raised? then Some(page.error) else None)
            && (more <==> GoesOn(page, endMs))
            && (more ==> next == page.data[|page.data| - 1].openTimeMs + 1)
    ensures !more ==> CrawlOn(pages, symbol, interval, cursor, endMs, rows, requests) == Crawl(rows', requests', failure)
    ensures more ==> cursor < next <= endMs
    ensures more ==> CrawlOn(pages, symbol, interval, cursor, endMs, rows, requests)
                     == CrawlOn(pages, symbol, interval, next, endMs, rows', requests')
  {
    var req := PageRequest(symbol, interval, cursor, endMs);
    var reply := RequestPage(server, req);
    requests' := requests + [req];
    if reply.Raised? {
      return rows, requests', Some(reply.error), false, cursor;
    }
    var data := reply.data;
    if data == [] {
      assert rows + [] == rows;
      return rows, requests', None, false, cursor;
    }
    rows' := rows + data;
    failure := None;
    var lastOpen := data[|data| - 1].openTimeMs;
    more := !(lastOpen >= endMs || |data| < PageLimit);
    next := lastOpen + 1;
  }

  /**
   * The `while True` loop of `fetch_klines`: the rows it collects, the queries it sends, and
   * the exception that ends it, if any.
   */
  method Paginate(server: Server, ghost pages: Request -> Reply, symbol: string, interval: string, startMs: int, endMs: int)
      returns (rows: seq<Kline>, requests: seq<Request>, failure: Option<FetchError>)
    requires pages == Pages(server) && HonestPages(pages)
    ensures Crawl(rows, requests, failure) == CrawlOn(pages, symbol, interval, startMs, endMs, [], [])
  {
    rows, requests := [], [];
    var nextStart := startMs;
    while true
      invariant CrawlOn(pages, symbol, interval, startMs, endMs, [], [])
                == CrawlOn(pages, symbol, interval, nextStart, endMs, rows, requests)
      decreases endMs - nextStart
    {
      var more, next;
      rows, requests, failure, more, next := Turn(server, pages, symbol, interval, nextStart, endMs, rows, requests);
      if !more {
        return;
      }
      nextStart := next;
    }
  }

  /** `fetch_klines`: the pagination loop, then the merge of what it collected. */
  method FetchKlines(server: Server, symbol: string, interval: string, startMs: int, endMs: int)
      returns (result: Result<seq<Kline>, FetchError>, rows: seq<Kline>, requests: seq<Request>)
    requires Honest(server)
    ensures Crawl(rows, requests, if result.Err? then Some(result.error) else None)
            == CrawlOf(server, symbol, interval, startMs, endMs)
    ensures result == FetchSpec(server, symbol, interval, startMs, endMs)
  {
    PagesHonest(server);
    var failure;
    rows, requests, failure := Paginate(server, Pages(server), symbol, interval, startMs, endMs);
    CrawlOnIsJoin(Pages(server), symbol, interval, startMs, endMs, [], []);
    JoinNothing(CrawlFrom(Pages(server), symbol, interval, startMs, endMs));
    if failure.Some? {
      result := Err(failure.value);
    } else {
      var merged := Merge.MergeRows(rows, endMs);
      result := Ok(merged);
    }
  }

  // ----- what the crawl promises -----

  /**
   * The queries of a crawl from `cursor`: the first starts at `cursor`, and all carry the symbol,
   * the interval, `endTime = endMs` and `limit = 1000`.
   */
  lemma {:induction false} CrawlQueries(pages: Request -> Reply, symbol: string, interval: string, cursor: int, endMs: int)
    requires HonestPages(pages)
    ensures var c := CrawlFrom(pages, symbol, interval, cursor, endMs);
            && |c.requests| >= 1
            && c.requests[0] == PageRequest(symbol, interval, cursor, endMs)
            && (forall i :: 0 <= i < |c.requests| ==>
                  c.requests[i] == PageRequest(symbol, interval, c.requests[i].startTime, endMs))
    decreases endMs - cursor
  {
    var req := PageRequest(symbol, interval, cursor, endMs);
    var reply := pages(req);
    if reply.Fetched? && reply.data != [] {
      var data := reply.data;
      var lastOpen := data[|data| - 1].openTimeMs;
      if !(lastOpen >= endMs || |data| < PageLimit) {
        CrawlQueries(pages, symbol, interval, lastOpen + 1, endMs);
        var rest := CrawlFrom(pages, symbol, interval, lastOpen + 1, endMs);
        var c := CrawlFrom(pages, symbol, interval, cursor, endMs);
        assert c.requests == [req] + rest.requests;
        assert forall i :: 1 <= i < |c.requests| ==> c.requests[i] == rest.requests[i - 1];
      }
    }
  }

  /**
   * The start times of the queries strictly increase, and every query after the first starts
   * at or before `endMs`, one millisecond after a candle the crawl collected.
   */
  lemma {:induction false} CrawlCursors(pages: Request -> Reply, symbol: string, interval: string, cursor: int, endMs: int)
    requires HonestPages(pages)
    ensures var c := CrawlFrom(pages, symbol, interval, cursor, endMs);
            && (forall i :: 0 <= i < |c.requests| ==> cursor <= c.requests[i].startTime)
            && (forall i, j :: 0 <= i < j < |c.requests| ==> c.requests[i].startTime < c.requests[j].startTime)
            && (forall i :: 1 <= i < |c.requests| ==> c.requests[i].startTime <= endMs)
            && (forall i :: 1 <= i < |c.requests| ==>
                  exists k :: k in c.rows && k.openTimeMs == c.requests[i].startTime - 1)
    decreases endMs - cursor
  {
    var req := PageRequest(symbol, interval, cursor, endMs);
    var reply := pages(req);
    if reply.Fetched? && reply.data != [] {
      var data := reply.data;
      var lastOpen := data[|data| - 1].openTimeMs;
      if !(lastOpen >= endMs || |data| < PageLimit) {
        CrawlCursors(pages, symbol, interval, lastOpen + 1, endMs);
        CrawlQueries(pages, symbol, interval, lastOpen + 1, endMs);
        var rest := CrawlFrom(pages, symbol, interval, lastOpen + 1, endMs);
        var c := CrawlFrom(pages, symbol, interval, cursor, endMs);
        assert c.requests == [req] + rest.requests;
        assert c.rows == data + rest.rows;
        CursorsStep(c.requests, rest.requests, req, lastOpen);
        forall i | 1 <= i < |c.requests| ensures exists k :: k in c.rows && k.openTimeMs == c.requests[i].startTime - 1 {
          assert c.requests[i] == rest.requests[i - 1];
          if i == 1 {
            assert data[|data| - 1] in c.rows;
          } else {
            var k :| k in rest.rows && k.openTimeMs == rest.requests[i - 1].startTime - 1;
            assert k in c.rows;
          }
        }
      }
    }
  }

  /** Putting a query before the queries of the rest of the crawl keeps the start times increasing. */
  lemma CursorsStep(all: seq<Request>, rest: seq<Request>, req: Request, lastOpen: int)
    requires all == [req] + rest && req.startTime <= lastOpen
    requires |rest| >= 1 && rest[0].startTime == lastOpen + 1
    requires forall i, j :: 0 <= i < j < |rest| ==> rest[i].startTime < rest[j].startTime
    ensures forall i, j :: 0 <= i < j < |all| ==> all[i].startTime < all[j].startTime
    ensures forall i :: 0 <= i < |all| ==> req.startTime <= all[i].startTime
  {
    forall i, j | 0 <= i < j < |all| ensures all[i].startTime < all[j].startTime {
      assert all[j] == rest[j - 1];
      if i > 0 {
        assert all[i] == rest[i - 1];
      } else if j > 1 {
        assert rest[0].startTime < rest[j - 1].startTime;
      }
    }
  }

  /** The queries of a crawl; its cursors, see `CrawlCursors`. */
  lemma CrawlRequests(pages: Request -> Reply, symbol: string, interval: string, cursor: int, endMs: int)
    requires HonestPages(pages)
    ensures var c := CrawlFrom(pages, symbol, interval, cursor, endMs);
            && |c.requests| >= 1
            && c.requests[0] == PageRequest(symbol, interval, cursor, endMs)
            && (forall i :: 0 <= i < |c.requests| ==>
                  c.requests[i] == PageRequest(symbol, interval, c.requests[i].startTime, endMs))
            && (forall i, j :: 0 <= i < j < |c.requests| ==> c.requests[i].startTime < c.requests[j].startTime)
            && (forall i :: 1 <= i < |c.requests| ==> c.requests[i].startTime <= endMs)
            && (forall i :: 1 <= i < |c.requests| ==>
                  exists k :: k in c.rows && k.openTimeMs == c.requests[i].startTime - 1)
  {
    CrawlQueries(pages, symbol, interval, cursor, endMs);
    CrawlCursors(pages, symbol, interval, cursor, endMs);
  }

  /** The rows of the pages fetched for `reqs`, in order; a query that raised adds none. */
  function RowsOf(pages: Request -> Reply, reqs: seq<Request>): seq<Kline>
  {
    if reqs == [] then []
    else (if pages(reqs[0]).Fetched? then pages(reqs[0]).data else []) + RowsOf(pages, reqs[1..])
  }

  /** The step from query `a` to query `b`: `a` got a page after which the loop goes on, at one millisecond past its last candle. */
  predicate Advance(pages: Request -> Reply, a: Request, b: Request, endMs: int)
  {
    GoesOn(pages(a), endMs) && b.startTime == pages(a).data[|pages(a).data| - 1].openTimeMs + 1
  }

  /**
   * The page rule of the loop, query by query: every query but the last got a full page whose
   * last candle opens before `endMs`, and the next query starts one millisecond after that
   * candle; the last query raised or got an empty, short or end-reaching page. The collected
   * rows are the pages' rows in the order of the queries.
   */
  lemma CrawlPages(pages: Request -> Reply, symbol: string, interval: string, cursor: int, endMs: int)
    requires HonestPages(pages)
    ensures var c := CrawlFrom(pages, symbol, interval, cursor, endMs);
            && |c.requests| >= 1
            && (forall i :: 0 <= i < |c.requests| - 1 ==> Advance(pages, c.requests[i], c.requests[i + 1], endMs))
            && !GoesOn(pages(c.requests[|c.requests| - 1]), endMs)
            && c.rows == RowsOf(pages, c.requests)
  {
    CrawlAdvances(pages, symbol, interval, cursor, endMs);
    CrawlStops(pages, symbol, interval, cursor, endMs);
    CrawlRowsArePages(pages, symbol, interval, cursor, endMs);
  }

  /** Consecutive queries of a crawl are steps of the loop. */
  lemma {:induction false} CrawlAdvances(pages: Request -> Reply, symbol: string, interval: string, cursor: int, endMs: int)
    requires HonestPages(pages)
    ensures var c := CrawlFrom(pages, symbol, interval, cursor, endMs);
            forall i :: 0 <= i < |c.requests| - 1 ==> Advance(pages, c.requests[i], c.requests[i + 1], endMs)
    decreases endMs - cursor
  {
    var req := PageRequest(symbol, interval, cursor, endMs);
    var reply := pages(req);
    if GoesOn(reply, endMs) {
      var lastOpen := reply.data[|reply.data| - 1].openTimeMs;
      CrawlAdvances(pages, symbol, interval, lastOpen + 1, endMs);
      CrawlQueries(pages, symbol, interval, lastOpen + 1, endMs);
      var rest := CrawlFrom(pages, symbol, interval, lastOpen + 1, endMs);
      AdvanceCons(pages, CrawlFrom(pages, symbol, interval, cursor, endMs).requests, req, rest.requests, endMs);
    }
  }

  /** A step of the loop put in front of a run of steps. */
  lemma AdvanceCons(pages: Request -> Reply, all: seq<Request>, req: Request, rest: seq<Request>, endMs: int)
    requires all == [req] + rest && |rest| >= 1 && Advance(pages, req, rest[0], endMs)
    requires forall i :: 0 <= i < |rest| - 1 ==> Advance(pages, rest[i], rest[i + 1], endMs)
    ensures forall i :: 0 <= i < |all| - 1 ==> Advance(pages, all[i], all[i + 1], endMs)
  {
    forall i | 0 <= i < |all| - 1 ensures Advance(pages, all[i], all[i + 1], endMs) {
      assert all[i + 1] == rest[i];
      if i > 0 {
        assert all[i] == rest[i - 1];
      }
    }
  }

  /** The last query of a crawl got a page after which the loop stops. */
  lemma {:induction false} CrawlStops(pages: Request -> Reply, symbol: string, interval: string, cursor: int, endMs: int)
    requires HonestPages(pages)
    ensures var c := CrawlFrom(pages, symbol, interval, cursor, endMs);
            |c.requests| >= 1 && !GoesOn(pages(c.requests[|c.requests| - 1]), endMs)
    decreases endMs - cursor
  {
    var req := PageRequest(symbol, interval, cursor, endMs);
    var reply := pages(req);
    if GoesOn(reply, endMs) {
      var lastOpen := reply.data[|reply.data| - 1].openTimeMs;
      CrawlStops(pages, symbol, interval, lastOpen + 1, endMs);
      var rest := CrawlFrom(pages, symbol, interval, lastOpen + 1, endMs);
      var c := CrawlFrom(pages, symbol, interval, cursor, endMs);
      assert c.requests[|c.requests| - 1] == rest.requests[|rest.requests| - 1];
    }
  }

  /** The rows of a crawl are the rows of its pages. */
  lemma {:induction false} CrawlRowsArePages(pages: Request -> Reply, symbol: string, interval: string, cursor: int, endMs: int)
    requires HonestPages(pages)
    ensures var c := CrawlFrom(pages, symbol, interval, cursor, endMs);
            c.rows == RowsOf(pages, c.requests)
    decreases endMs - cursor
  {
    var req := PageRequest(symbol, interval, cursor, endMs);
    var reply := pages(req);
    var c := CrawlFrom(pages, symbol, interval, cursor, endMs);
    if GoesOn(reply, endMs) {
      var lastOpen := reply.data[|reply.data| - 1].openTimeMs;
      CrawlRowsArePages(pages, symbol, interval, lastOpen + 1, endMs);
      var rest := CrawlFrom(pages, symbol, interval, lastOpen + 1, endMs);
      RowsOfCons(pages, c.requests, req, rest.requests);
    } else {
      RowsOfCons(pages, c.requests, req, []);
      if reply.Fetched? {
        assert reply.data + [] == reply.data;
      }
    }
  }

  lemma RowsOfCons(pages: Request -> Reply, all: seq<Request>, req: Request, rest: seq<Request>)
    requires all == [req] + rest
    ensures RowsOf(pages, all) == (if pages(req).Fetched? then pages(req).data else []) + RowsOf(pages, rest)
  {
    assert all[1..] == rest;
  }

  /** An empty first page ends the crawl: one query, and an empty series. */
  lemma FetchEmptyFirstPage(server: Server, symbol: string, interval: string, startMs: int, endMs: int)
    requires Honest(server)
    requires server(PageRequest(symbol, interval, startMs, endMs), 0) == Success([])
    ensures FetchSpec(server, symbol, interval, startMs, endMs) == Ok([])
    ensures CrawlOf(server, symbol, interval, startMs, endMs).requests == [PageRequest(symbol, interval, startMs, endMs)]
  {
    var req := PageRequest(symbol, interval, startMs, endMs);
    RetryImmediateSuccess(Attempts(server, req), DefaultRetries);
    Merge.MergeOfOrdered([], endMs);
  }

  /**
   * A rate limit that outlasts the retries on a later query ends the crawl as if the data had
   * run out: a full first page, then a second query answered 429 on every attempt, gives the
   * first page alone and no error.
   */
  lemma FetchTruncatedByRateLimit(server: Server, symbol: string, interval: string, startMs: int, endMs: int,
                                  first: seq<Kline>, next: Request)
    requires Honest(server)
    requires |first| >= PageLimit && first[|first| - 1].openTimeMs < endMs
    requires server(PageRequest(symbol, interval, startMs, endMs), 0) == Success(first)
    requires next == PageRequest(symbol, interval, first[|first| - 1].openTimeMs + 1, endMs)
    requires forall a: nat :: server(next, a) == HttpError(RateLimited)
    ensures FetchSpec(server, symbol, interval, startMs, endMs) == Ok(Merge.Merge(first, endMs))
    ensures |CrawlOf(server, symbol, interval, startMs, endMs).requests| == 2
  {
    PagesHonest(server);
    var req := PageRequest(symbol, interval, startMs, endMs);
    RetryImmediateSuccess(Attempts(server, req), DefaultRetries);
    var outcomes := Attempts(server, next);
    assert forall i: nat :: outcomes(i) == server(next, i);
    RetryPersistentRateLimit(outcomes, 1, DefaultRetries);
    CrawlFullThenEmpty(Pages(server), symbol, interval, startMs, endMs, first);
  }

  /** A page after which the loop goes on, then an empty page. */
  lemma CrawlFullThenEmpty(pages: Request -> Reply, symbol: string, interval: string, startMs: int, endMs: int, first: seq<Kline>)
    requires HonestPages(pages)
    requires |first| >= PageLimit && first[|first| - 1].openTimeMs < endMs
    requires pages(PageRequest(symbol, interval, startMs, endMs)) == Fetched(first)
    requires pages(PageRequest(symbol, interval, first[|first| - 1].openTimeMs + 1, endMs)) == Fetched([])
    ensures CrawlFrom(pages, symbol, interval, startMs, endMs)
            == Crawl(first, [PageRequest(symbol, interval, startMs, endMs), PageRequest(symbol, interval, first[|first| - 1].openTimeMs + 1, endMs)], None)
  {
    var rest := CrawlFrom(pages, symbol, interval, first[|first| - 1].openTimeMs + 1, endMs);
    assert rest == Crawl([], [PageRequest(symbol, interval, first[|first| - 1].openTimeMs + 1, endMs)], None);
    assert first + [] == first;
  }

  /** Every collected row opens at or after the cursor the crawl started from. */
  lemma {:induction false} CrawlRowsAfterCursor(pages: Request -> Reply, symbol: string, interval: string, cursor: int, endMs: int)
    requires HonestPages(pages)
    ensures AllAtOrAfter(CrawlFrom(pages, symbol, interval, cursor, endMs).rows, cursor)
    decreases endMs - cursor
  {
    var req := PageRequest(symbol, interval, cursor, endMs);
    var reply := pages(req);
    if reply.Fetched? && reply.data != [] {
      var data := reply.data;
      var lastOpen := data[|data| - 1].openTimeMs;
      if !(lastOpen >= endMs || |data| < PageLimit) {
        CrawlRowsAfterCursor(pages, symbol, interval, lastOpen + 1, endMs);
        var rest := CrawlFrom(pages, symbol, interval, lastOpen + 1, endMs);
        var c := CrawlFrom(pages, symbol, interval, cursor, endMs);
        assert c.rows == data + rest.rows;
        assert forall i :: 0 <= i < |rest.rows| ==> c.rows[|data| + i] == rest.rows[i];
      }
    }
  }

  /**
   * The crawl ends: it sends at most one query per millisecond of `[cursor, endMs]`, and one
   * query when that interval is empty.
   */
  lemma {:induction false} CrawlRequestCount(pages: Request -> Reply, symbol: string, interval: string, cursor: int, endMs: int)
    requires HonestPages(pages)
    ensures |CrawlFrom(pages, symbol, interval, cursor, endMs).requests| <= (if cursor <= endMs then endMs - cursor + 1 else 1)
    decreases endMs - cursor
  {
    var req := PageRequest(symbol, interval, cursor, endMs);
    var reply := pages(req);
    if reply.Fetched? && reply.data != [] {
      var data := reply.data;
      var lastOpen := data[|data| - 1].openTimeMs;
      if !(lastOpen >= endMs || |data| < PageLimit) {
        CrawlRequestCount(pages, symbol, interval, lastOpen + 1, endMs);
      }
    }
  }

  /**
   * What `fetch_klines` returns: a series strictly increasing in open time, inside
   * `[startMs, endMs]`, holding exactly the last collected row for each open time up to `endMs`.
   */
  lemma FetchCorrect(server: Server, symbol: string, interval: string, startMs: int, endMs: int)
    requires Honest(server)
    ensures var r := FetchSpec(server, symbol, interval, startMs, endMs);
            var rows := CrawlOf(server, symbol, interval, startMs, endMs).rows;
            r.Ok? ==>
              && StrictlyIncreasing(r.value)
              && AllAtOrAfter(r.value, startMs)
              && AllAtOrBefore(r.value, endMs)
              && (forall k :: k in r.value <==>
                    exists i :: 0 <= i < |rows| && rows[i] == k && Merge.LastOfItsTime(rows, i) && k.openTimeMs <= endMs)
  {
    PagesHonest(server);
    var rows := CrawlOf(server, symbol, interval, startMs, endMs).rows;
    CrawlRowsAfterCursor(Pages(server), symbol, interval, startMs, endMs);
    Merge.MergeCorrect(rows, endMs);
    var r := Merge.Merge(rows, endMs);
    forall j | 0 <= j < |r| ensures startMs <= r[j].openTimeMs {
      assert r[j] in r;
    }
  }

  /** The exception raised for any query ends `fetch_klines` with that exception. */
  lemma FetchFailsWithItsQuery(server: Server, symbol: string, interval: string, startMs: int, endMs: int)
    requires Honest(server)
    ensures var c := CrawlOf(server, symbol, interval, startMs, endMs);
            FetchSpec(server, symbol, interval, startMs, endMs).Err? <==>
              Pages(server)(c.requests[|c.requests| - 1]).Raised?
  {
    PagesHonest(server);
    CrawlFailsOnLast(Pages(server), symbol, interval, startMs, endMs);
  }

  /** A crawl fails exactly when the retry loop raised for its last query. */
  lemma {:induction false} CrawlFailsOnLast(pages: Request -> Reply, symbol: string, interval: string, cursor: int, endMs: int)
    requires HonestPages(pages)
    ensures var c := CrawlFrom(pages, symbol, interval, cursor, endMs);
            && |c.requests| >= 1
            && (c.failure.Some? <==> pages(c.requests[|c.requests| - 1]).Raised?)
            && (c.failure.Some? ==> c.failure.value == pages(c.requests[|c.requests| - 1]).error)
    decreases endMs - cursor
  {
    var req := PageRequest(symbol, interval, cursor, endMs);
    var reply := pages(req);
    if reply.Fetched? && reply.data != [] {
      var data := reply.data;
      var lastOpen := data[|data| - 1].openTimeMs;
      if !(lastOpen >= endMs || |data| < PageLimit) {
        CrawlFailsOnLast(pages, symbol, interval, lastOpen + 1, endMs);
        var rest := CrawlFrom(pages, symbol, interval, lastOpen + 1, endMs);
        var c := CrawlFrom(pages, symbol, interval, cursor, endMs);
        assert c.requests[|c.requests| - 1] == rest.requests[|rest.requests| - 1];
      }
    }
  }

  /** A range that ends before it starts yields no candle. */
  lemma FetchEmptyRange(server: Server, symbol: string, interval: string, startMs: int, endMs: int)
    requires Honest(server) && endMs < startMs
    ensures FetchSpec(server, symbol, interval, startMs, endMs).Ok? ==>
              FetchSpec(server, symbol, interval, startMs, endMs).value == []
  {
    FetchCorrect(server, symbol, interval, startMs, endMs);
    var r := FetchSpec(server, symbol, interval, startMs, endMs);
    if r.Ok? {
      WithinBounds(r.value, startMs, endMs);
    }
  }

  /**
   * When every call of the first query is rate limited, the retry loop returns an empty page
   * and `fetch_klines` returns an empty series rather than raising.
   */
  lemma FetchRateLimitedIsEmpty(server: Server, symbol: string, interval: string, startMs: int, endMs: int)
    requires Honest(server)
    requires forall a: nat :: server(PageRequest(symbol, interval, startMs, endMs), a) == HttpError(RateLimited)
    ensures FetchSpec(server, symbol, interval, startMs, endMs) == Ok([])
  {
    var req := PageRequest(symbol, interval, startMs, endMs);
    var outcomes := Attempts(server, req);
    assert forall i: nat :: outcomes(i) == server(req, i);
    RetryPersistentRateLimit(outcomes, 1, DefaultRetries);
  }

  /** A first page shorter than the limit is the only page (the single-page test of the exporter). */
  lemma FetchSinglePage(server: Server, a: Kline, b: Kline)
    requires Honest(server)
    requires a.openTimeMs == 0 && b.openTimeMs == 3_600_000
    requires server(PageRequest("BTCUSDT", "1h", 0, 7_200_000), 0) == Success([a, b])
    ensures FetchSpec(server, "BTCUSDT", "1h", 0, 7_200_000) == Ok([a, b])
    ensures CrawlOf(server, "BTCUSDT", "1h", 0, 7_200_000).requests == [PageRequest("BTCUSDT", "1h", 0, 7_200_000)]
  {
    var req := PageRequest("BTCUSDT", "1h", 0, 7_200_000);
    RetryImmediateSuccess(Attempts(server, req), DefaultRetries);
    Merge.MergeOfOrdered([a, b], 7_200_000);
  }
}
