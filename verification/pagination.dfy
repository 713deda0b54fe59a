/** The download loop of the ingestion script (`download_chicago_month_window`
    with the shape check of `fetch_chicago_page`). The open-data API is an
    oracle: for each offset it answers either a list of records or something
    that is not a list. The loop asks for offsets 0, P, 2P, ... and stops at
    the first page holding fewer than P records (an empty page included). */
module Pagination {
  import opened Base

  /** What one request answers once transport and HTTP status succeeded. */
  datatype Response = NotAList | Page(records: seq<Record>)

  /** The API for one fixed window: the response served at each offset. */
  type Endpoint = nat -> Response

  /** The script raises a `ValueError` with a fixed message. The offset is
      added here so that the contract can name the request that failed. */
  datatype DownloadError = MalformedResponse(offset: nat)

  /** The script's page size, sent as `$limit` on every request. */
  const PageSize: nat := 50000

  /** The response to the `n`-th request of the loop, the one at offset `n * size`. */
  function Fetch(api: Endpoint, size: nat, n: nat): Response {
    api(n * size)
  }

  /** A response after which the loop asks for the next page: a list of at
      least `size` records. */
  predicate Continues(response: Response, size: nat) {
    response.Page? && |response.records| >= size
  }

  /** Some request of the loop gets an answer that ends it: a short page, an
      empty page, or a malformed response. The script has no iteration cap,
      so this is what makes it terminate. */
  ghost predicate EventuallyStops(api: Endpoint, size: nat) {
    exists n: nat :: !Continues(Fetch(api, size, n), size)
  }

  /** The `n`-th request is the last one the loop makes. */
  ghost predicate IsLastRequest(api: Endpoint, size: nat, n: nat) {
    !Continues(Fetch(api, size, n), size) && forall j :: 0 <= j < n ==> Continues(Fetch(api, size, j), size)
  }

  /** The records of the first `n` pages, in request order. */
  function Collected(api: Endpoint, size: nat, n: nat): seq<Record>
    requires forall j :: 0 <= j < n ==> Fetch(api, size, j).Page?
  {
    if n == 0 then [] else Collected(api, size, n - 1) + Fetch(api, size, n - 1).records
  }

  /** What the download returns when request `n` is the last: the error of a
      malformed last response, or every page up to and including the last. */
  ghost function DownloadResult(api: Endpoint, size: nat, n: nat): Result<seq<Record>, DownloadError>
    requires IsLastRequest(api, size, n)
  {
    match Fetch(api, size, n)
    case NotAList => Err(MalformedResponse(n * size))
    case Page(_) => Ok(Collected(api, size, n + 1))
  }

  /** `download_chicago_month_window`. Besides the result, returns the offsets
      it requested, in order. */
  method DownloadMonthWindow(api: Endpoint, size: nat)
    returns (r: Result<seq<Record>, DownloadError>, offsets: seq<nat>)
    requires size > 0
    requires EventuallyStops(api, size)
    ensures |offsets| > 0
    ensures forall i :: 0 <= i < |offsets| ==> offsets[i] == i * size
    ensures IsLastRequest(api, size, |offsets| - 1)
    ensures r == DownloadResult(api, size, |offsets| - 1)
  {
    ghost var stop: nat :| !Continues(Fetch(api, size, stop), size);
    var allRecords: seq<Record> := [];
    var offset: nat := 0;
    var n: nat := 0;
    offsets := [];
    while true
      invariant |offsets| == n && offset == n * size
      invariant forall i :: 0 <= i < n ==> offsets[i] == i * size
      invariant forall j :: 0 <= j < n ==> Continues(Fetch(api, size, j), size)
      invariant allRecords == Collected(api, size, n)
      invariant n <= stop
      decreases stop - n
    {
      offsets := offsets + [offset];
      var response := api(offset);
      assert response == Fetch(api, size, n);
      if response.NotAList? {
        r := Err(MalformedResponse(offset));
        return;
      }
      var page := response.records;
      if |page| == 0 {
        assert Collected(api, size, n + 1) == allRecords + page == allRecords;
        break;
      }
      allRecords := allRecords + page;
      if |page| < size {
        break;
      }
      NextOffset(n, size);
      offset := offset + size;
      n := n + 1;
    }
    r := Ok(allRecords);
  }

  /** The offset after request `n` is the offset of request `n + 1`. */
  lemma NextOffset(n: nat, size: nat)
    ensures n * size + size == (n + 1) * size
  {
  }

  /** Exactly one request is the last, so the number of requests is fixed by
      the API's answers. */
  lemma LastRequestUnique(api: Endpoint, size: nat, m: nat, n: nat)
    requires IsLastRequest(api, size, m) && IsLastRequest(api, size, n)
    ensures m == n
  {
  }

  /** `n` pages of exactly `size` records hold `n * size` records. */
  lemma {:induction false} CollectedLength(api: Endpoint, size: nat, n: nat)
    requires forall j :: 0 <= j < n ==> Fetch(api, size, j).Page? && |Fetch(api, size, j).records| == size
    ensures |Collected(api, size, n)| == n * size
  {
    if n > 0 {
      CollectedLength(api, size, n - 1);
      assert n * size == (n - 1) * size + size;
    }
  }

  /** Record `i` of page `j` sits at position `j * size + i` of the batch:
      pages are concatenated in request order. */
  lemma {:induction false} CollectedOrder(api: Endpoint, size: nat, n: nat, j: nat, i: nat)
    requires forall k :: 0 <= k < n ==> Fetch(api, size, k).Page? && |Fetch(api, size, k).records| == size
    requires j < n && i < size
    ensures j * size + i < |Collected(api, size, n)|
    ensures Collected(api, size, n)[j * size + i] == Fetch(api, size, j).records[i]
  {
    CollectedLength(api, size, n);
    CollectedLength(api, size, n - 1);
    if j == n - 1 {
      assert j * size == (n - 1) * size;
    } else {
      CollectedOrder(api, size, n - 1, j, i);
    }
  }

  /** With `n` full pages and then a page of `k < size` records, the last
      request is request `n` (so `n + 1` requests are made) and the batch has
      `n * size + k` records: the full pages followed by the short one. An
      empty final page (`k == 0`) adds nothing. */
  lemma FullPagesThenShort(api: Endpoint, size: nat, n: nat)
    requires forall j :: 0 <= j < n ==> Fetch(api, size, j).Page? && |Fetch(api, size, j).records| == size
    requires Fetch(api, size, n).Page? && |Fetch(api, size, n).records| < size
    ensures IsLastRequest(api, size, n)
    ensures forall m :: IsLastRequest(api, size, m) ==> m == n
    ensures DownloadResult(api, size, n) == Ok(Collected(api, size, n) + Fetch(api, size, n).records)
    ensures |DownloadResult(api, size, n).value| == n * size + |Fetch(api, size, n).records|
  {
    CollectedLength(api, size, n);
    forall m | IsLastRequest(api, size, m)
      ensures m == n
    {
      LastRequestUnique(api, size, m, n);
    }
  }

  /** A response that is not a list ends the download with an error naming
      its offset; none of the pages fetched before it is returned. */
  lemma MalformedAborts(api: Endpoint, size: nat, n: nat)
    requires forall j :: 0 <= j < n ==> Continues(Fetch(api, size, j), size)
    requires Fetch(api, size, n).NotAList?
    ensures IsLastRequest(api, size, n)
    ensures DownloadResult(api, size, n) == Err(MalformedResponse(n * size))
  {
  }
}
