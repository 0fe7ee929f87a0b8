/**
 * The diff-stat endpoint and the bounded cursor pagination both diff-stat
 * readers share: fetch the page at a URL, follow its `next` cursor while that
 * is present and non-empty, and give up after a fixed number of iterations.
 */
module DiffStat {
  import opened Wrappers
  import opened Transport

  /** One changed file: its path before and after the change, when present,
      and the host's status word for it. */
  datatype Entry = Entry(oldPath: Option<string>, newPath: Option<string>, status: string)

  /** One page of the diff stat: its entries and the cursor to the next page. */
  datatype Page = Page(values: seq<Entry>, next: Option<string>)

  /** The host's answer to a GET of a page URL. */
  type Fetch = string -> Reply<Page>

  /** The safety bound on the number of pages one traversal requests. */
  const MaxLoops: nat := 1000

  /** A page ends the traversal when its cursor is absent or empty. */
  predicate IsLastPage(p: Page) {
    p.next.None? || p.next.value == ""
  }

  /** A traversal: the URLs requested in order, the pages obtained from them,
      and the error that stopped it, if any. */
  datatype Walk = Walk(urls: seq<string>, pages: seq<Page>, failure: Option<Error>)

  /** Every page of the diff stat is validated before it is trusted. */
  function FetchPage(fetch: Fetch, url: string): Result<Page, Error> {
    Receive(fetch(url), true)
  }

  /**
   * The traversal starting at `url` with `fuel` iterations left: request the
   * page, stop at a failure or a last page, otherwise continue at its cursor.
   */
  function Visit(fetch: Fetch, url: string, fuel: nat): (w: Walk)
    ensures |w.urls| <= fuel
    ensures fuel == 0 ==> w == Walk([], [], None)
    ensures fuel > 0 ==> |w.urls| > 0 && w.urls[0] == url
    ensures |w.urls| == |w.pages| + (if w.failure.Some? then 1 else 0)
    decreases fuel
  {
    if fuel == 0 then Walk([], [], None)
    else
      match FetchPage(fetch, url)
      case Failure(e) => Walk([url], [], Some(e))
      case Success(page) =>
        if IsLastPage(page) then Walk([url], [page], None)
        else
          var rest := Visit(fetch, page.next.value, fuel - 1);
          Walk([url] + rest.urls, [page] + rest.pages, rest.failure)
  }

  /** Whether `w` is a faithful record of a traversal through `fetch` with
      `fuel` iterations: each page is what its URL returned, each further URL
      is the non-empty cursor of the page before it, a failure is what the
      last URL returned, and a walk that ends early ends at a last page. */
  ghost predicate FollowsCursors(fetch: Fetch, w: Walk, fuel: nat)
    requires |w.urls| == |w.pages| + (if w.failure.Some? then 1 else 0)
  {
    && (forall i {:trigger w.pages[i]} :: 0 <= i < |w.pages| ==>
          FetchPage(fetch, w.urls[i]) == Success(w.pages[i]))
    && (forall i {:trigger w.pages[i]} :: 0 <= i < |w.urls| - 1 ==>
          !IsLastPage(w.pages[i]) && w.pages[i].next.value == w.urls[i + 1])
    && (w.failure.Some? ==> FetchPage(fetch, w.urls[|w.urls| - 1]) == Failure(w.failure.value))
    && (w.failure.None? && |w.pages| < fuel ==> |w.pages| > 0 && IsLastPage(w.pages[|w.pages| - 1]))
  }

  /** The walk requests exactly the cursor chain from `url`, stopping as the
      loop does: at a failure, after a last page, or when the fuel is spent. */
  lemma {:induction false} VisitFollowsCursors(fetch: Fetch, url: string, fuel: nat)
    ensures FollowsCursors(fetch, Visit(fetch, url, fuel), fuel)
    decreases fuel
  {
    if fuel > 0 {
      match FetchPage(fetch, url)
      case Failure(e) =>
      case Success(page) =>
        if !IsLastPage(page) {
          var rest := Visit(fetch, page.next.value, fuel - 1);
          VisitFollowsCursors(fetch, page.next.value, fuel - 1);
          FollowsCursorsCons(fetch, url, page, rest, fuel);
        }
    }
  }

  /** Prefixing a page whose cursor leads to a faithful walk gives a faithful walk. */
  lemma FollowsCursorsCons(fetch: Fetch, url: string, page: Page, rest: Walk, fuel: nat)
    requires fuel > 0 && FetchPage(fetch, url) == Success(page) && !IsLastPage(page)
    requires rest == Visit(fetch, page.next.value, fuel - 1)
    requires FollowsCursors(fetch, rest, fuel - 1)
    ensures FollowsCursors(fetch, Walk([url] + rest.urls, [page] + rest.pages, rest.failure), fuel)
  {
    var w := Walk([url] + rest.urls, [page] + rest.pages, rest.failure);
    forall i {:trigger w.pages[i]} | 0 <= i < |w.pages|
      ensures FetchPage(fetch, w.urls[i]) == Success(w.pages[i])
    {
      if i > 0 {
        assert w.pages[i] == rest.pages[i - 1] && w.urls[i] == rest.urls[i - 1];
      }
    }
    forall i {:trigger w.pages[i]} | 0 <= i < |w.urls| - 1
      ensures !IsLastPage(w.pages[i]) && w.pages[i].next.value == w.urls[i + 1]
    {
      if i > 0 {
        assert w.pages[i] == rest.pages[i - 1] && w.urls[i + 1] == rest.urls[i];
      }
    }
    if w.failure.Some? {
      assert w.urls[|w.urls| - 1] == rest.urls[|rest.urls| - 1];
    }
    if w.failure.None? && |w.pages| < fuel {
      assert w.pages[|w.pages| - 1] == rest.pages[|rest.pages| - 1];
    }
  }

  /** The walk that requested `urls`, obtained `pages`, and then went on as `rest`. */
  function Then(urls: seq<string>, pages: seq<Page>, rest: Walk): Walk {
    Walk(urls + rest.urls, pages + rest.pages, rest.failure)
  }

  /** A page whose cursor points back at its own URL is requested again and
      again until the bound: nothing detects the cycle, only the count stops it. */
  lemma {:induction false} SelfCursorExhaustsFuel(fetch: Fetch, url: string, page: Page, fuel: nat)
    requires FetchPage(fetch, url) == Success(page)
    requires page.next == Some(url) && url != ""
    ensures Visit(fetch, url, fuel) == Walk(seq(fuel, _ => url), seq(fuel, _ => page), None)
    decreases fuel
  {
    if fuel > 0 {
      SelfCursorExhaustsFuel(fetch, url, page, fuel - 1);
      assert [url] + seq(fuel - 1, _ => url) == seq(fuel, _ => url);
      assert [page] + seq(fuel - 1, _ => page) == seq(fuel, _ => page);
    }
  }
}
