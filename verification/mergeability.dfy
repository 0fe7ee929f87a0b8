/**
 * The mergeability query: walk the diff stat and declare the pull request
 * unmergeable as soon as a page lists an entry with one of the host's two
 * blocking status words; later pages are then not requested.
 */
module Mergeability {
  import opened Wrappers
  import opened Transport
  import opened DiffStat

  /** The two undocumented status words that mark a file the host cannot merge. */
  const MergeConflict: string := "merge conflict"
  const LocalDeleted: string := "local deleted"

  predicate IsBlockingStatus(status: string) {
    status == MergeConflict || status == LocalDeleted
  }

  /** The scan of one page's entries, in order, for a blocking status. */
  function AllEntriesClear(es: seq<Entry>): (r: bool)
    ensures r <==> forall i :: 0 <= i < |es| ==> !IsBlockingStatus(es[i].status)
  {
    if es == [] then true
    else if IsBlockingStatus(es[0].status) then false
    else
      assert forall i :: 1 <= i < |es| ==> es[1..][i - 1] == es[i];
      AllEntriesClear(es[1..])
  }

  predicate IsBlockedPage(p: Page) {
    !AllEntriesClear(p.values)
  }

  /** What a mergeability check did: the URLs it requested and its verdict. */
  datatype Probe = Probe(urls: seq<string>, verdict: Result<bool, Error>)

  /** The check with `fuel` iterations left, starting at `url`. */
  function Mergeable(fetch: Fetch, url: string, fuel: nat): (p: Probe)
    ensures |p.urls| <= fuel
    ensures fuel > 0 ==> |p.urls| > 0 && p.urls[0] == url
    decreases fuel
  {
    if fuel == 0 then Probe([], Success(true))
    else
      match FetchPage(fetch, url)
      case Failure(e) => Probe([url], Failure(e))
      case Success(page) =>
        if IsBlockedPage(page) then Probe([url], Success(false))
        else if IsLastPage(page) then Probe([url], Success(true))
        else
          var rest := Mergeable(fetch, page.next.value, fuel - 1);
          Probe([url] + rest.urls, rest.verdict)
  }

  /** The index of the first blocked page, or the number of pages when none is. */
  function FirstBlockedPage(pages: seq<Page>): (k: nat)
    ensures k <= |pages|
    ensures forall i :: 0 <= i < k ==> !IsBlockedPage(pages[i])
    ensures k < |pages| ==> IsBlockedPage(pages[k])
  {
    if pages == [] then 0
    else if IsBlockedPage(pages[0]) then 0
    else
      assert forall i :: 1 <= i < |pages| ==> pages[1..][i - 1] == pages[i];
      1 + FirstBlockedPage(pages[1..])
  }

  /** The answer a mergeability check gives when it agrees with the walk `w`. */
  function Expected(w: Walk): Probe
    requires |w.urls| == |w.pages| + (if w.failure.Some? then 1 else 0)
  {
    var k := FirstBlockedPage(w.pages);
    if k < |w.pages| then Probe(w.urls[..k + 1], Success(false))
    else Probe(w.urls, if w.failure.Some? then Failure(w.failure.value) else Success(true))
  }

  /**
   * The check is the diff-stat walk cut short at the first blocked page: it
   * requests the walk's URLs up to and including that page and answers false;
   * without a blocked page it requests every URL of the walk and answers the
   * walk's error, or true.
   */
  lemma {:induction false} MergeableIsTruncatedWalk(fetch: Fetch, url: string, fuel: nat)
    ensures Mergeable(fetch, url, fuel) == Expected(Visit(fetch, url, fuel))
    decreases fuel
  {
    if fuel > 0 {
      var got := FetchPage(fetch, url);
      if got.Success? && !IsBlockedPage(got.value) && !IsLastPage(got.value) {
        MergeableIsTruncatedWalk(fetch, got.value.next.value, fuel - 1);
        ContinuedCheck(fetch, url, fuel, got.value);
      } else {
        FinalCheck(fetch, url, fuel);
      }
    }
  }

  /** The check and the walk agree when the first page ends both. */
  lemma FinalCheck(fetch: Fetch, url: string, fuel: nat)
    requires fuel > 0
    requires var got := FetchPage(fetch, url);
      got.Failure? || IsBlockedPage(got.value) || IsLastPage(got.value)
    ensures Mergeable(fetch, url, fuel) == Expected(Visit(fetch, url, fuel))
  {
  }

  /** The check and the walk agree past a clear, non-final first page when
      they agree from its cursor on. */
  lemma ContinuedCheck(fetch: Fetch, url: string, fuel: nat, page: Page)
    requires fuel > 0 && FetchPage(fetch, url) == Success(page)
    requires !IsBlockedPage(page) && !IsLastPage(page)
    requires Mergeable(fetch, page.next.value, fuel - 1) == Expected(Visit(fetch, page.next.value, fuel - 1))
    ensures Mergeable(fetch, url, fuel) == Expected(Visit(fetch, url, fuel))
  {
    var rest := Visit(fetch, page.next.value, fuel - 1);
    var w := Visit(fetch, url, fuel);
    assert w == Walk([url] + rest.urls, [page] + rest.pages, rest.failure);
    assert w.pages[1..] == rest.pages;
    var k := FirstBlockedPage(rest.pages);
    assert FirstBlockedPage(w.pages) == 1 + k;
    if k < |rest.pages| {
      assert w.urls[..k + 2] == [url] + rest.urls[..k + 1];
    }
  }

  /** Whether the pull request can be merged, from a walk of at most `MaxLoops` pages. */
  function PullIsMergeable(fetch: Fetch, url: string): (r: Result<bool, Error>)
    ensures var w := Visit(fetch, url, MaxLoops);
      && (r == Success(false) <==> exists i :: 0 <= i < |w.pages| && IsBlockedPage(w.pages[i]))
      && (r == Success(true) <==> w.failure.None? && forall i :: 0 <= i < |w.pages| ==> !IsBlockedPage(w.pages[i]))
      && (r.Failure? ==> w.failure == Some(r.error))
  {
    MergeableIsTruncatedWalk(fetch, url, MaxLoops);
    Mergeable(fetch, url, MaxLoops).verdict
  }
}
