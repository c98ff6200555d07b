/**
 * The paginated collection: how many pages a requested count needs, which
 * pages are requested, and which records are kept. The remote search
 * endpoint is a parameter, `fetch`, giving the response it sends for each
 * page number.
 */
module Pagination {
  import opened Wrappers
  import opened Records

  /** The remote API's page size, asked for with `per_page`. */
  const PerPage: int := 30

  /** One response of the search endpoint: status, body text and its `items`, if any. */
  datatype Response = Response(status: int, text: string, items: Option<seq<RepoItem>>)

  /** Why a run fails. */
  datatype CrawlError =
    | InvalidInput                        // a field is empty or the count is not positive
    | RemoteError(status: int, text: string)  // a page came back with a status other than 200

  /** The items of a page; a body without `items` counts as none. */
  function ItemsOf(r: Response): seq<RepoItem> {
    match r.items
    case None => []
    case Some(xs) => xs
  }

  /** The number of pages needed for `count` records: ceiling division by the page size. */
  function PageCount(count: int): (pages: int)
    ensures count > 0 ==> pages >= 1 && PerPage * (pages - 1) < count <= PerPage * pages
    ensures count <= 0 ==> pages <= 0
  {
    (count + PerPage - 1) / PerPage
  }

  /** At most the first n elements of s. */
  function Take<T>(s: seq<T>, n: int): (r: seq<T>)
    ensures |r| == if n <= 0 then 0 else if n < |s| then n else |s|
    ensures r <= s
  {
    if n <= 0 then [] else if n < |s| then s[..n] else s
  }

  /** The items of pages 1..k, concatenated in page order. */
  function AllItems(fetch: nat -> Response, k: nat): seq<RepoItem> {
    if k == 0 then [] else AllItems(fetch, k - 1) + ItemsOf(fetch(k))
  }

  /** After page j the loop goes on: the page succeeded and fewer than `count` items are in. */
  predicate Continues(fetch: nat -> Response, count: int, j: nat) {
    fetch(j).status == 200 && |AllItems(fetch, j)| < count
  }

  /**
   * The last page requested when pages p..pages remain: the first of them
   * that fails or fills the count, or the last page if none does.
   */
  function FirstStop(fetch: nat -> Response, count: int, p: nat, pages: int): (k: nat)
    requires p >= 1
    ensures p <= pages ==> p <= k <= pages
    ensures p > pages ==> k == p - 1
    ensures forall j :: p <= j < k ==> Continues(fetch, count, j)
    ensures p <= k < pages ==> !Continues(fetch, count, k)
    decreases pages + 1 - p
  {
    if p > pages then p - 1
    else if !Continues(fetch, count, p) then p
    else FirstStop(fetch, count, p + 1, pages)
  }

  /** How many pages a run requests; they are pages 1..PagesRequested. */
  function PagesRequested(count: int, fetch: nat -> Response): (k: nat)
    ensures count > 0 ==> 1 <= k <= PageCount(count)
    ensures count <= 0 ==> k == 0
  {
    FirstStop(fetch, count, 1, PageCount(count))
  }

  /** The page numbers 1..k in increasing order. */
  function PageNumbers(k: nat): seq<nat> {
    seq(k, i requires 0 <= i < k => i + 1)
  }

  /**
   * What the collection yields: the error of the last requested page if it
   * failed, and otherwise the records of the requested pages' items, cut off
   * at `count`.
   */
  function Collected(count: int, fetch: nat -> Response): Result<seq<RepoInfo>, CrawlError> {
    var k := PagesRequested(count, fetch);
    if k >= 1 && fetch(k).status != 200 then Err(RemoteError(fetch(k).status, fetch(k).text))
    else Ok(Infos(Take(AllItems(fetch, k), count)))
  }

  /** Mapping items to records distributes over concatenation. */
  lemma InfosAppend(a: seq<RepoItem>, b: seq<RepoItem>)
    ensures Infos(a + b) == Infos(a) + Infos(b)
  {
    assert |Infos(a + b)| == |Infos(a) + Infos(b)|;
    forall i | 0 <= i < |a + b| ensures Infos(a + b)[i] == (Infos(a) + Infos(b))[i] {
      if i >= |a| {
        assert (a + b)[i] == b[i - |a|];
      }
    }
  }

  /** Cutting a concatenation whose first part is short cuts only the second part. */
  lemma TakeAppend<T>(a: seq<T>, b: seq<T>, n: int)
    requires |a| < n
    ensures Take(a + b, n) == a + Take(b, n - |a|)
  {
    if n < |a| + |b| {
      assert (a + b)[..n] == a + b[..n - |a|];
    }
  }

  lemma PageNumbersNext(k: nat)
    ensures PageNumbers(k) + [k + 1] == PageNumbers(k + 1)
  {
  }

  /**
   * The loop over one page's items: before each item, stop once `count`
   * records are in, otherwise append the item's record. The records added
   * are those of the page's first count - |collected| items.
   */
  method AppendPage(collected: seq<RepoInfo>, repos: seq<RepoItem>, count: int)
    returns (result: seq<RepoInfo>)
    ensures result == collected + Infos(Take(repos, count - |collected|))
  {
    result := collected;
    var i := 0;
    while i < |repos|
      invariant 0 <= i <= |repos|
      invariant i == 0 || |collected| + i <= count
      invariant result == collected + Infos(repos[..i])
    {
      if |result| >= count {
        break;
      }
      assert repos[..i + 1] == repos[..i] + [repos[i]];
      InfosAppend(repos[..i], [repos[i]]);
      result := result + [ToInfo(repos[i])];
      i := i + 1;
    }
    assert repos[..i] == Take(repos, count - |collected|);
  }

  /**
   * The loop over pages 1..PageCount(count): each page is requested, a
   * non-200 status aborts the run, and records are appended until `count`
   * of them are in, which also ends the loop over pages.
   */
  method Collect(count: int, fetch: nat -> Response)
    returns (outcome: Result<seq<RepoInfo>, CrawlError>, requested: seq<nat>)
    ensures outcome == Collected(count, fetch)
    ensures requested == PageNumbers(PagesRequested(count, fetch))
  {
    var pages := PageCount(count);
    var collected: seq<RepoInfo> := [];
    requested := [];
    var page: nat := 1;
    while page <= pages
      invariant 1 <= page && (page <= pages + 1 || page == 1)
      invariant FirstStop(fetch, count, page, pages) == PagesRequested(count, fetch)
      invariant requested == PageNumbers(page - 1)
      invariant collected == Infos(AllItems(fetch, page - 1))
      invariant page > 1 ==> fetch(page - 1).status == 200 && |collected| < count
      decreases pages + 1 - page
    {
      PageNumbersNext(page - 1);
      requested := requested + [page];
      var response := fetch(page);
      if response.status != 200 {
        outcome := Err(RemoteError(response.status, response.text));
        return;
      }
      var repos := ItemsOf(response);
      ghost var before := AllItems(fetch, page - 1);
      collected := AppendPage(collected, repos, count);
      TakeAppend(before, repos, count);
      InfosAppend(before, Take(repos, count - |before|));
      assert collected == Infos(Take(AllItems(fetch, page), count));
      if |collected| >= count {
        break;
      }
      page := page + 1;
    }
    outcome := Ok(collected);
  }

  /** The items of fewer pages are a prefix of the items of more pages. */
  lemma {:induction false} AllItemsPrefix(fetch: nat -> Response, j: nat, k: nat)
    requires j <= k
    ensures AllItems(fetch, j) <= AllItems(fetch, k)
    decreases k
  {
    if j < k {
      AllItemsPrefix(fetch, j, k - 1);
    }
  }

  /** Pages that each hold at most PerPage items hold at most PerPage * k items together. */
  lemma {:induction false} AllItemsBound(fetch: nat -> Response, k: nat)
    requires forall j :: 1 <= j <= k ==> |ItemsOf(fetch(j))| <= PerPage
    ensures |AllItems(fetch, k)| <= PerPage * k
  {
    if k > 0 {
      AllItemsBound(fetch, k - 1);
    }
  }

  /**
   * A successful collection is the records of all pages' items in page and
   * item order, cut off at `count`: its length is the smaller of `count`
   * and the number of items the pages hold, even when the loop stopped early.
   */
  lemma CollectedIsCutOff(count: int, fetch: nat -> Response)
    requires Collected(count, fetch).Ok?
    ensures var rs := Collected(count, fetch).value;
      var all := AllItems(fetch, if count > 0 then PageCount(count) else 0);
      rs == Infos(Take(all, count)) &&
      |rs| == (if count <= 0 then 0 else if count < |all| then count else |all|)
  {
    if count > 0 {
      var k, pages := PagesRequested(count, fetch), PageCount(count);
      AllItemsPrefix(fetch, k, pages);
      if k < pages {
        assert Take(AllItems(fetch, k), count) == Take(AllItems(fetch, pages), count);
      }
    }
  }

  /**
   * The collection fails exactly when the last requested page did not come
   * back with status 200; it then carries that page's status and text, every
   * earlier page succeeded, and no later page was requested.
   */
  lemma CollectedErrorAborts(count: int, fetch: nat -> Response)
    ensures var k := PagesRequested(count, fetch);
      Collected(count, fetch).Err? <==> (k >= 1 && fetch(k).status != 200)
    ensures var k := PagesRequested(count, fetch);
      Collected(count, fetch).Err? ==>
        Collected(count, fetch).error == RemoteError(fetch(k).status, fetch(k).text) &&
        (forall j :: 1 <= j < k ==> fetch(j).status == 200) &&
        k <= PageCount(count)
  {
    var k := PagesRequested(count, fetch);
    forall j | 1 <= j < k ensures fetch(j).status == 200 {
      assert Continues(fetch, count, j);
    }
  }

  /** When every page of the run answers 200, the collection succeeds with the cut-off records. */
  lemma CollectedWhenPagesSucceed(count: int, fetch: nat -> Response)
    requires forall j :: 1 <= j <= PageCount(count) ==> fetch(j).status == 200
    ensures Collected(count, fetch).Ok?
    ensures Collected(count, fetch).value ==
      Infos(Take(AllItems(fetch, if count > 0 then PageCount(count) else 0), count))
  {
    CollectedIsCutOff(count, fetch);
  }

  /**
   * When every page succeeds and holds at most PerPage items, each page
   * 1..PageCount(count) is requested: the loop never fills the count early.
   */
  lemma FullRunRequestsAllPages(count: int, fetch: nat -> Response)
    requires count > 0
    requires forall j :: 1 <= j <= PageCount(count) ==> fetch(j).status == 200
    requires forall j :: 1 <= j <= PageCount(count) ==> |ItemsOf(fetch(j))| <= PerPage
    ensures PagesRequested(count, fetch) == PageCount(count)
  {
    var k, pages := PagesRequested(count, fetch), PageCount(count);
    if k < pages {
      AllItemsBound(fetch, k);
      assert Continues(fetch, count, k);
    }
  }

  /** At most PerPage records are asked for: exactly one page is requested. */
  lemma SmallCountRequestsOnePage(count: int, fetch: nat -> Response)
    requires 0 < count <= PerPage
    ensures PagesRequested(count, fetch) == 1
    ensures PageNumbers(PagesRequested(count, fetch)) == [1]
  {
  }

  /**
   * 45 records over a first page of 30 items and a second of 20: both pages
   * are requested and the records are page 1's items, then the first 15
   * items of page 2.
   */
  lemma FortyFiveOverTwoPages(fetch: nat -> Response)
    requires fetch(1).status == 200 && |ItemsOf(fetch(1))| == 30
    requires fetch(2).status == 200 && |ItemsOf(fetch(2))| == 20
    ensures PagesRequested(45, fetch) == 2
    ensures Collected(45, fetch) == Ok(Infos(ItemsOf(fetch(1)) + ItemsOf(fetch(2))[..15]))
  {
    assert PageCount(45) == 2;
    assert AllItems(fetch, 1) == ItemsOf(fetch(1));
    assert AllItems(fetch, 2) == ItemsOf(fetch(1)) + ItemsOf(fetch(2));
    assert Take(AllItems(fetch, 2), 45) == ItemsOf(fetch(1)) + ItemsOf(fetch(2))[..15];
  }
}
