/** Paginated search (`google_search`): request pages at the start offsets
    `range(1, total + 1, pageSize)`, append the items of each page, skip a page
    without items, and stop at the first failed request. */
module Search {
  import opened Wrappers
  import opened Settings

  /** One search hit, reduced to the two fields the table reads; the other
      upstream fields, which the JSON file would also hold, are not kept. */
  datatype Item = Item(title: Option<string>, link: Option<string>)

  /** The outcome of one page request. */
  datatype Page =
    | Failed                        // a RequestException: network error, timeout or non-2xx status
    | Page(items: Option<seq<Item>>) // the decoded reply; None when it has no "items" key

  /** The query parameters of one request. */
  datatype SearchRequest = SearchRequest(key: string, cx: string, q: string, num: int, start: int)

  /** The search service, as a function from the request sent to the page received. */
  type SearchServer = SearchRequest -> Page

  /** What stays the same across the requests of one search. */
  datatype Session = Session(key: string, cx: string, q: string, num: int) {
    function Request(start: int): SearchRequest {
      SearchRequest(key, cx, q, num, start)
    }
  }

  // ---------------------------------------------------------------------
  // The page cursor

  /** Python's `range(start, stop, step)` for a positive step. */
  function Range(start: int, stop: int, step: int): seq<int>
    requires step > 0
    decreases stop - start
  {
    if start < stop then [start] + Range(start + step, stop, step) else []
  }

  /** The start offsets `google_search` requests. */
  function Offsets(total: int, pageSize: int): seq<int>
    requires pageSize > 0
  {
    Range(1, total + 1, pageSize)
  }

  /** `range` yields `start, start + step, …` while below `stop`, and stops at the
      first value that is not: ceil((stop - start) / step) values. */
  lemma {:induction false} RangeShape(start: int, stop: int, step: int)
    requires step > 0
    ensures forall k :: 0 <= k < |Range(start, stop, step)| ==> Range(start, stop, step)[k] == start + k * step
    ensures start + |Range(start, stop, step)| * step >= stop
    ensures start < stop ==> start + (|Range(start, stop, step)| - 1) * step < stop
    ensures start >= stop ==> Range(start, stop, step) == []
    decreases stop - start
  {
    if start < stop {
      var rest := Range(start + step, stop, step);
      RangeShape(start + step, stop, step);
      var r := Range(start, stop, step);
      assert |r| == |rest| + 1;
      assert |r| * step == |rest| * step + step;
      forall k | 1 <= k < |r| ensures r[k] == start + k * step {
        assert r[k] == rest[k - 1] == start + step + (k - 1) * step;
        assert (k - 1) * step + step == k * step;
      }
      if |rest| > 0 {
        assert (|r| - 1) * step == (|rest| - 1) * step + step;
      }
    }
  }

  /** Every request offset lies in `1..total`, the offsets grow strictly by
      `pageSize` from 1, and the offset after the last one would exceed `total`:
      so there are ceil(total / pageSize) of them, and none when `total < 1`. */
  lemma OffsetsShape(total: int, pageSize: int)
    requires pageSize > 0
    ensures total < 1 ==> Offsets(total, pageSize) == []
    ensures forall k :: 0 <= k < |Offsets(total, pageSize)| ==>
              Offsets(total, pageSize)[k] == 1 + k * pageSize && 1 <= Offsets(total, pageSize)[k] <= total
    ensures forall k, l :: 0 <= k < l < |Offsets(total, pageSize)| ==>
              Offsets(total, pageSize)[k] < Offsets(total, pageSize)[l]
    ensures 1 + |Offsets(total, pageSize)| * pageSize > total
    ensures total >= 1 ==> (|Offsets(total, pageSize)| - 1) * pageSize < total <= |Offsets(total, pageSize)| * pageSize
  {
    var offs := Offsets(total, pageSize);
    RangeShape(1, total + 1, pageSize);
    forall k | 0 <= k < |offs| ensures offs[k] <= total {
      MulMonotone(k, |offs| - 1, pageSize);
    }
    forall k, l | 0 <= k < l < |offs| ensures offs[k] < offs[l] {
      MulMonotone(k, l, pageSize);
    }
  }

  lemma MulMonotone(k: int, l: int, m: int)
    requires k <= l && m > 0
    ensures k * m <= l * m
    ensures k < l ==> k * m < l * m
  {
    assert l * m == k * m + (l - k) * m;
  }

  /** The pages requested for a cap of 25 results, ten to the page, and for the default cap. */
  lemma OffsetsExample()
    ensures Offsets(25, 10) == [1, 11, 21]
    ensures Offsets(DefaultTotalResults, 10) == [1, 11, 21, 31, 41]
  {
    OffsetsShape(25, 10);
    OffsetsShape(DefaultTotalResults, 10);
  }

  // ---------------------------------------------------------------------
  // What a search sends and collects

  /** The items a page adds: none for a failure or a reply without "items". */
  function PageItems(p: Page): seq<Item> {
    if p.Page? && p.items.Some? then p.items.value else []
  }

  /** The requests sent for the offsets `offs`: one per offset, up to and
      including the first that fails. */
  function Sent(server: SearchServer, sess: Session, offs: seq<int>): seq<SearchRequest> {
    if offs == [] then []
    else
      var req := sess.Request(offs[0]);
      [req] + (if server(req).Failed? then [] else Sent(server, sess, offs[1..]))
  }

  /** The accumulated result list for the offsets `offs`. */
  function Collected(server: SearchServer, sess: Session, offs: seq<int>): seq<Item> {
    if offs == [] then []
    else
      var req := sess.Request(offs[0]);
      if server(req).Failed? then [] else PageItems(server(req)) + Collected(server, sess, offs[1..])
  }

  /** The items of the replies to `reqs`, concatenated in order. */
  function Gathered(server: SearchServer, reqs: seq<SearchRequest>): seq<Item> {
    if reqs == [] then [] else PageItems(server(reqs[0])) + Gathered(server, reqs[1..])
  }

  /** The requests sent are the offsets' requests in order, cut off right after
      the first failure: every request but the last succeeded, and a search
      that stops before the last offset stops on a failure. */
  lemma {:induction false} SentShape(server: SearchServer, sess: Session, offs: seq<int>)
    ensures |Sent(server, sess, offs)| <= |offs|
    ensures forall k :: 0 <= k < |Sent(server, sess, offs)| ==> Sent(server, sess, offs)[k] == sess.Request(offs[k])
    ensures forall k :: 0 <= k < |Sent(server, sess, offs)| - 1 ==> !server(Sent(server, sess, offs)[k]).Failed?
    ensures |Sent(server, sess, offs)| < |offs| ==>
              Sent(server, sess, offs) != [] && server(Sent(server, sess, offs)[|Sent(server, sess, offs)| - 1]).Failed?
    ensures offs != [] ==> Sent(server, sess, offs) != []
  {
    if offs != [] {
      SentShape(server, sess, offs[1..]);
    }
  }

  /** The result is the in-order concatenation of the items of the pages
      actually requested. */
  lemma {:induction false} CollectedIsGathered(server: SearchServer, sess: Session, offs: seq<int>)
    ensures Collected(server, sess, offs) == Gathered(server, Sent(server, sess, offs))
  {
    if offs != [] {
      var req := sess.Request(offs[0]);
      CollectedIsGathered(server, sess, offs[1..]);
      if server(req).Failed? {
        assert Sent(server, sess, offs) == [req];
      } else {
        assert Sent(server, sess, offs)[1..] == Sent(server, sess, offs[1..]);
      }
    }
  }

  /** A failure at offset `i`, after only successes, ends the search there:
      `i + 1` requests, and the results gathered before it. */
  lemma {:induction false} StopsAtFirstFailure(server: SearchServer, sess: Session, offs: seq<int>, i: nat)
    requires i < |offs| && server(sess.Request(offs[i])).Failed?
    requires forall k :: 0 <= k < i ==> !server(sess.Request(offs[k])).Failed?
    ensures |Sent(server, sess, offs)| == i + 1
    ensures Collected(server, sess, offs) == Collected(server, sess, offs[..i])
  {
    if i > 0 {
      assert offs[1..][..i - 1] == offs[..i][1..];
      StopsAtFirstFailure(server, sess, offs[1..], i - 1);
    }
  }

  /** The accumulator only grows: the results after the first `j` offsets are a
      prefix of the results after the first `k`, for `j <= k`. */
  lemma {:induction false} CollectedGrows(server: SearchServer, sess: Session, offs: seq<int>, j: nat, k: nat)
    requires j <= k <= |offs|
    ensures Collected(server, sess, offs[..j]) <= Collected(server, sess, offs[..k])
  {
    if j > 0 {
      var req := sess.Request(offs[0]);
      assert offs[..j][1..] == offs[1..][..j - 1];
      assert offs[..k][1..] == offs[1..][..k - 1];
      CollectedGrows(server, sess, offs[1..], j - 1, k - 1);
    }
  }

  /** When every page holds `n` items, a search that never fails gathers `n`
      items per offset. */
  lemma {:induction false} FullPages(server: SearchServer, sess: Session, offs: seq<int>, n: nat)
    requires forall k :: 0 <= k < |offs| ==>
               (server(sess.Request(offs[k])).Page? && server(sess.Request(offs[k])).items.Some? &&
                |server(sess.Request(offs[k])).items.value| == n)
    ensures |Collected(server, sess, offs)| == |offs| * n
  {
    if offs != [] {
      assert forall k :: 0 <= k < |offs[1..]| ==> offs[1..][k] == offs[k + 1];
      FullPages(server, sess, offs[1..], n);
      assert |offs| * n == (|offs| - 1) * n + n;
    }
  }

  /** The page arithmetic bounds the number of requests, not of results: with a
      cap of 25 and pages of ten, three full pages give 30 results. */
  lemma ResultsNotCapped(sess: Session, hit: Item)
    ensures |Collected(_ => Page(Some(seq(10, _ => hit))), sess, Offsets(25, 10))| == 30
  {
    OffsetsExample();
    FullPages(_ => Page(Some(seq(10, _ => hit))), sess, Offsets(25, 10), 10);
  }

  /** One turn of the search loop, on the offsets still to go: a failed page
      ends the search with the request for it sent last, any other adds its
      items and moves on to the next offset. */
  lemma SearchStep(server: SearchServer, sess: Session, todo: seq<int>,
                   results: seq<Item>, sent: seq<SearchRequest>, allResults: seq<Item>, allSent: seq<SearchRequest>)
    requires todo != []
    requires allResults == results + Collected(server, sess, todo)
    requires allSent == sent + Sent(server, sess, todo)
    ensures var req := sess.Request(todo[0]);
            server(req).Failed? ==> allResults == results && allSent == sent + [req]
    ensures var req := sess.Request(todo[0]);
            !server(req).Failed? ==> allSent == (sent + [req]) + Sent(server, sess, todo[1..])
    ensures var req := sess.Request(todo[0]);
            server(req).Page? && server(req).items.Some? ==>
              allResults == (results + server(req).items.value) + Collected(server, sess, todo[1..])
    ensures var req := sess.Request(todo[0]);
            server(req).Page? && server(req).items.None? ==>
              allResults == results + Collected(server, sess, todo[1..])
  {
    var req := sess.Request(todo[0]);
    if server(req).Page? && server(req).items.None? {
      assert PageItems(server(req)) == [];
      assert [] + Collected(server, sess, todo[1..]) == Collected(server, sess, todo[1..]);
    }
  }

  // ---------------------------------------------------------------------
  // The search loop

  /** The loop of `google_search`: request each offset in turn, append the
      page's items, and break out at the first failed request. */
  method Paginate(server: SearchServer, sess: Session, offs: seq<int>)
    returns (results: seq<Item>, sent: seq<SearchRequest>)
    ensures results == Collected(server, sess, offs)
    ensures sent == Sent(server, sess, offs)
  {
    ghost var allResults, allSent := Collected(server, sess, offs), Sent(server, sess, offs);
    results, sent := [], [];
    var todo := offs;
    while todo != []
      invariant allResults == results + Collected(server, sess, todo)
      invariant allSent == sent + Sent(server, sess, todo)
    {
      var req := sess.Request(todo[0]);
      var page := server(req);
      SearchStep(server, sess, todo, results, sent, allResults, allSent);
      sent := sent + [req];
      if page.Failed? {
        break;
      }
      if page.items.Some? {
        results := results + page.items.value;
      }
      todo := todo[1..];
    }
  }

  /** `google_search(query, config, pageSize)`. Besides the results it returns
      the requests it sent, in order. */
  method GoogleSearch(query: string, cfg: Config, pageSize: int, server: SearchServer)
    returns (results: seq<Item>, sent: seq<SearchRequest>)
    requires pageSize > 0
    ensures !(Truthy(cfg.googleApiKey) && Truthy(cfg.cx)) ==> results == [] && sent == []
    ensures Truthy(cfg.googleApiKey) && Truthy(cfg.cx) ==>
              var sess := Session(cfg.googleApiKey.value, cfg.cx.value, query, pageSize);
              var offs := Offsets(TotalResults(cfg), pageSize);
              results == Collected(server, sess, offs) && sent == Sent(server, sess, offs)
  {
    var key, cx := cfg.googleApiKey, cfg.cx;
    if !Truthy(key) || !Truthy(cx) {
      return [], [];
    }
    var sess := Session(key.value, cx.value, query, pageSize);
    results, sent := Paginate(server, sess, Offsets(TotalResults(cfg), pageSize));
  }
}
