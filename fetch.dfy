/** Pagination of the cache listing: pages 1 to 100 of 100 entries each are
    requested in turn, stopping at the first empty page; a failed request
    ends the whole run (only a log line is written). The listing service is
    abstracted as the sequence of its answers: page `i` is answered by
    `responses[i - 1]`, and every page past the end of `responses` is empty. */
module Fetch {
  import opened Caches

  /** What one `getActionsCacheList` call yields. */
  datatype PageResponse = Listed(caches: seq<Cache>) | ListFailed

  /** The arguments of one listing call that vary (owner and repository do not). */
  datatype ListCall = ListCall(perPage: nat, page: nat)

  datatype FetchOutcome =
    | Fetched(calls: seq<ListCall>, results: seq<Cache>)
    | FetchFailed(calls: seq<ListCall>)

  const MaxPages: nat := 100
  const PerPage: nat := 100

  function PageAt(responses: seq<PageResponse>, page: nat): PageResponse {
    if 1 <= page <= |responses| then responses[page - 1] else Listed([])
  }

  /** The entries a page contributes (none when its request failed). */
  function PageCaches(r: PageResponse): seq<Cache> {
    if r.Listed? then r.caches else []
  }

  /** The entries of pages `lo` to `hi - 1`, concatenated in page order. */
  function Pages(responses: seq<PageResponse>, lo: nat, hi: nat): seq<Cache>
    decreases hi - lo
  {
    if lo >= hi then [] else PageCaches(PageAt(responses, lo)) + Pages(responses, lo + 1, hi)
  }

  /** `calls` and `results` happened before the outcome `o` of the later pages. */
  function Prefixed(calls: seq<ListCall>, results: seq<Cache>, o: FetchOutcome): FetchOutcome {
    match o
    case Fetched(c, r) => Fetched(calls + c, results + r)
    case FetchFailed(c) => FetchFailed(calls + c)
  }

  /** The listing loop from page `page` on. */
  function FetchFrom(responses: seq<PageResponse>, page: nat): (r: FetchOutcome)
    requires 1 <= page <= MaxPages + 1
    ensures |r.calls| <= MaxPages + 1 - page
    ensures page <= MaxPages ==> r.calls != [] && r.calls[0] == ListCall(PerPage, page)
    decreases MaxPages + 1 - page
  {
    if page > MaxPages then Fetched([], [])
    else
      var call := ListCall(PerPage, page);
      match PageAt(responses, page)
      case ListFailed => FetchFailed([call])
      case Listed(cs) =>
        if |cs| == 0 then Fetched([call], [])
        else Prefixed([call], cs, FetchFrom(responses, page + 1))
  }

  /** A nonempty page that was listed successfully. */
  predicate Continues(r: PageResponse) {
    r.Listed? && |r.caches| > 0
  }

  /** What the loop from `page` on does: it asks for consecutive pages, at
      most up to page 100; every page but the last one asked for was listed
      and nonempty; it fails exactly when the last one failed; it stops
      before page 100 only at an empty page or a failure; and what it
      collects is every page asked for, in order. */
  lemma {:induction false} FetchFromShape(responses: seq<PageResponse>, page: nat)
    requires 1 <= page <= MaxPages + 1
    ensures var o := FetchFrom(responses, page);
      && |o.calls| <= MaxPages + 1 - page
      && (page <= MaxPages ==> |o.calls| >= 1)
      && (forall k :: 0 <= k < |o.calls| ==> o.calls[k] == ListCall(PerPage, page + k))
      && (forall q :: page <= q < page + |o.calls| - 1 ==> Continues(PageAt(responses, q)))
      && (o.FetchFailed? <==> |o.calls| > 0 && PageAt(responses, page + |o.calls| - 1).ListFailed?)
      && (o.Fetched? && |o.calls| < MaxPages + 1 - page ==>
            PageAt(responses, page + |o.calls| - 1) == Listed([]))
      && (o.Fetched? ==> o.results == Pages(responses, page, page + |o.calls|))
    decreases MaxPages + 1 - page
  {
    if page <= MaxPages {
      var r := PageAt(responses, page);
      if r.Listed? && |r.caches| > 0 {
        FetchFromShape(responses, page + 1);
        var rest := FetchFrom(responses, page + 1);
        var o := FetchFrom(responses, page);
        assert o.calls == [ListCall(PerPage, page)] + rest.calls;
        forall k | 0 <= k < |o.calls|
          ensures o.calls[k] == ListCall(PerPage, page + k)
        {
          if k > 0 { assert o.calls[k] == rest.calls[k - 1]; }
        }
      } else if r.Listed? {
        assert r == Listed([]);
      }
    }
  }

  lemma PrefixedTwice(c1: seq<ListCall>, r1: seq<Cache>, c2: seq<ListCall>, r2: seq<Cache>, o: FetchOutcome)
    ensures Prefixed(c1, r1, Prefixed(c2, r2, o)) == Prefixed(c1 + c2, r1 + r2, o)
  {
    match o
    case Fetched(c, r) =>
      assert c1 + (c2 + c) == c1 + c2 + c;
      assert r1 + (r2 + r) == r1 + r2 + r;
    case FetchFailed(c) =>
      assert c1 + (c2 + c) == c1 + c2 + c;
  }

  /** `getActionsCacheList` for pages 1, 2, …, up to 100, with the results pushed in order. */
  method FetchCaches(responses: seq<PageResponse>) returns (outcome: FetchOutcome)
    ensures outcome == FetchFrom(responses, 1)
  {
    var calls: seq<ListCall> := [];
    var results: seq<Cache> := [];
    for i := 1 to MaxPages + 1
      invariant FetchFrom(responses, 1) == Prefixed(calls, results, FetchFrom(responses, i))
    {
      var call := ListCall(PerPage, i);
      var response := PageAt(responses, i);
      if response.ListFailed? {
        PrefixedTwice(calls, results, [call], [], FetchFailed([]));
        return FetchFailed(calls + [call]);
      }
      var cachesRequest := response.caches;
      if |cachesRequest| == 0 {
        PrefixedTwice(calls, results, [call], [], Fetched([], []));
        return Fetched(calls + [call], results);
      }
      PrefixedTwice(calls, results, [call], cachesRequest, FetchFrom(responses, i + 1));
      calls := calls + [call];
      results := results + cachesRequest;
    }
    assert Prefixed(calls, results, Fetched([], [])) == Fetched(calls + [], results + []);
    return Fetched(calls, results);
  }

  /** The whole loop: pages 1 to at most 100, the entries of the listed pages in order. */
  lemma FetchCachesShape(responses: seq<PageResponse>)
    ensures var o := FetchFrom(responses, 1);
      && 1 <= |o.calls| <= MaxPages
      && (forall k :: 0 <= k < |o.calls| ==> o.calls[k] == ListCall(PerPage, k + 1))
      && (o.FetchFailed? <==> PageAt(responses, |o.calls|).ListFailed?)
      && (o.Fetched? ==> o.results == Pages(responses, 1, |o.calls| + 1))
  {
    FetchFromShape(responses, 1);
  }
}
