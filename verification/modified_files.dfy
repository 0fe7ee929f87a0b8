/**
 * The modified-files query: every old and new path of every entry on every
 * visited diff-stat page, with duplicates removed in first-seen order.
 */
module ModifiedFiles {
  import opened Wrappers
  import opened Transport
  import opened DiffStat

  /** The paths one entry contributes: the old path, then the new one. */
  function EntryPaths(e: Entry): seq<string> {
    (if e.oldPath.Some? then [e.oldPath.value] else [])
    + (if e.newPath.Some? then [e.newPath.value] else [])
  }

  /** The paths of a run of entries, in entry order. */
  function EntriesPaths(es: seq<Entry>): seq<string> {
    if es == [] then [] else EntriesPaths(es[..|es| - 1]) + EntryPaths(es[|es| - 1])
  }

  /** The paths of a run of pages, in page order. */
  function Collect(pages: seq<Page>): seq<string> {
    if pages == [] then [] else EntriesPaths(pages[0].values) + Collect(pages[1..])
  }

  /** A path is collected from a run of entries exactly when one of them names it. */
  lemma {:induction false} EntriesPathsMembership(es: seq<Entry>, x: string)
    ensures x in EntriesPaths(es) <==> exists i :: 0 <= i < |es| && x in EntryPaths(es[i])
  {
    if es != [] {
      var init := es[..|es| - 1];
      EntriesPathsMembership(init, x);
      assert forall i :: 0 <= i < |init| ==> init[i] == es[i];
    }
  }

  /** A path is collected from a run of pages exactly when an entry on one of them names it. */
  lemma {:induction false} CollectMembership(pages: seq<Page>, x: string)
    ensures x in Collect(pages) <==>
      exists i, j :: 0 <= i < |pages| && 0 <= j < |pages[i].values| && x in EntryPaths(pages[i].values[j])
  {
    if pages != [] {
      var tail := pages[1..];
      CollectMembership(tail, x);
      EntriesPathsMembership(pages[0].values, x);
      assert forall i :: 0 <= i < |tail| ==> tail[i] == pages[i + 1];
      if exists i, j :: 0 <= i < |pages| && 0 <= j < |pages[i].values| && x in EntryPaths(pages[i].values[j]) {
        var i, j :| 0 <= i < |pages| && 0 <= j < |pages[i].values| && x in EntryPaths(pages[i].values[j]);
        if i > 0 {
          assert x in EntryPaths(tail[i - 1].values[j]);
        }
      }
    }
  }

  /** No element occurs twice. */
  predicate NoDuplicates(xs: seq<string>) {
    forall i, j :: 0 <= i < j < |xs| ==> xs[i] != xs[j]
  }

  /** Keeps the first occurrence of every element, dropping later repeats. */
  function Dedup(xs: seq<string>): (r: seq<string>)
    ensures NoDuplicates(r)
    ensures forall x :: x in r <==> x in xs
    ensures |r| <= |xs|
  {
    if xs == [] then []
    else
      var prefix := Dedup(xs[..|xs| - 1]);
      assert forall x :: x in xs ==> x in xs[..|xs| - 1] || x == xs[|xs| - 1];
      if xs[|xs| - 1] in prefix then prefix else prefix + [xs[|xs| - 1]]
  }

  /** The index of the first occurrence of `x` in `xs`. */
  function FirstIndex(xs: seq<string>, x: string): (k: nat)
    requires x in xs
    ensures k < |xs| && xs[k] == x && x !in xs[..k]
  {
    if xs[0] == x then 0
    else
      assert x in xs[1..];
      var k := 1 + FirstIndex(xs[1..], x);
      assert xs[..k] == [xs[0]] + xs[1..][..k - 1];
      k
  }

  /** Appending an element leaves the first occurrences of earlier elements where they were. */
  lemma FirstIndexSnoc(xs: seq<string>, a: string, x: string)
    requires x in xs
    ensures FirstIndex(xs + [a], x) == FirstIndex(xs, x)
  {
    var k := FirstIndex(xs, x);
    assert (xs + [a])[k] == x;
    assert (xs + [a])[..k] == xs[..k];
  }

  /** Dedup lists elements in the order of their first occurrence in the input. */
  lemma {:induction false} DedupKeepsFirstOccurrenceOrder(xs: seq<string>)
    ensures forall i, j :: 0 <= i < j < |Dedup(xs)| ==>
              FirstIndex(xs, Dedup(xs)[i]) < FirstIndex(xs, Dedup(xs)[j])
  {
    if xs != [] {
      var init := xs[..|xs| - 1];
      var last := xs[|xs| - 1];
      assert xs == init + [last];
      DedupKeepsFirstOccurrenceOrder(init);
      var p := Dedup(init);
      var d := Dedup(xs);
      forall i, j | 0 <= i < j < |d|
        ensures FirstIndex(xs, d[i]) < FirstIndex(xs, d[j])
      {
        assert d[i] in p;
        FirstIndexSnoc(init, last, d[i]);
        if j < |p| {
          FirstIndexSnoc(init, last, d[j]);
        } else {
          assert d[j] == last && last !in init;
          assert FirstIndex(xs, d[j]) == |init|;
        }
      }
    }
  }

  /**
   * The files the pull request modifies, gathered from a traversal of at most
   * `MaxLoops` diff-stat pages starting at `url`.  Any failing request yields
   * that error and no files.
   */
  function ModifiedFiles(fetch: Fetch, url: string): (r: Result<seq<string>, Error>)
    ensures var w := Visit(fetch, url, MaxLoops);
      && (r.Failure? <==> w.failure.Some?)
      && (r.Failure? ==> r.error == w.failure.value)
      && (r.Success? ==> NoDuplicates(r.value))
      && (r.Success? ==> forall x :: x in r.value <==>
            exists i, j :: 0 <= i < |w.pages| && 0 <= j < |w.pages[i].values| && x in EntryPaths(w.pages[i].values[j]))
      && (r.Success? ==> forall i, j :: 0 <= i < j < |r.value| ==>
            && r.value[i] in Collect(w.pages)
            && r.value[j] in Collect(w.pages)
            && FirstIndex(Collect(w.pages), r.value[i]) < FirstIndex(Collect(w.pages), r.value[j]))
  {
    var w := Visit(fetch, url, MaxLoops);
    if w.failure.Some? then Failure(w.failure.value)
    else
      var files := Collect(w.pages);
      assert forall x :: x in files <==>
        exists i, j :: 0 <= i < |w.pages| && 0 <= j < |w.pages[i].values| && x in EntryPaths(w.pages[i].values[j])
      by {
        forall x {
          CollectMembership(w.pages, x);
        }
      }
      DedupKeepsFirstOccurrenceOrder(files);
      Success(Dedup(files))
  }

  /** Removing duplicates with a set of paths already seen, one path at a time. */
  method Unique(files: seq<string>) returns (unique: seq<string>)
    ensures unique == Dedup(files)
  {
    var seen: set<string> := {};
    unique := [];
    for k := 0 to |files|
      invariant unique == Dedup(files[..k])
      invariant forall x :: x in seen <==> x in unique
    {
      assert files[..k + 1][..k] == files[..k];
      if files[k] !in seen {
        unique := unique + [files[k]];
        seen := seen + {files[k]};
      }
    }
    assert files[..|files|] == files;
  }

  /** Appends the paths of `values` to `files`, entry by entry. */
  method AppendEntryPaths(files: seq<string>, values: seq<Entry>) returns (r: seq<string>)
    ensures r == files + EntriesPaths(values)
  {
    r := files;
    for j := 0 to |values|
      invariant r == files + EntriesPaths(values[..j])
    {
      assert values[..j + 1][..j] == values[..j];
      var v := values[j];
      if v.oldPath.Some? {
        r := r + [v.oldPath.value];
      }
      if v.newPath.Some? {
        r := r + [v.newPath.value];
      }
    }
    assert values[..|values|] == values;
  }

  /**
   * The traversal as a loop over at most `MaxLoops` pages: request the page,
   * append each entry's old and new path, stop after a last page, otherwise
   * follow the cursor; then remove duplicates.
   */
  method GetModifiedFiles(fetch: Fetch, start: string) returns (r: Result<seq<string>, Error>)
    ensures r == ModifiedFiles(fetch, start)
  {
    ghost var full := Visit(fetch, start, MaxLoops);
    var files: seq<string> := [];
    var nextPageUrl := start;
    ghost var urls: seq<string> := [];
    ghost var pages: seq<Page> := [];
    ghost var rest := full;
    assert full == Then(urls, pages, rest);
    var i := 0;
    while i < MaxLoops
      invariant 0 <= i <= MaxLoops
      invariant files == Collect(pages)
      invariant rest == Visit(fetch, nextPageUrl, MaxLoops - i)
      invariant full == Then(urls, pages, rest)
    {
      var got := FetchPage(fetch, nextPageUrl);
      if got.Failure? {
        WalkFails(full, urls, pages, fetch, nextPageUrl, MaxLoops - i);
        return Failure(got.error);
      }
      var page := got.value;
      files := AppendEntryPaths(files, page.values);
      CollectSnoc(pages, page);
      if IsLastPage(page) {
        WalkEnds(full, urls, pages, fetch, nextPageUrl, MaxLoops - i);
        urls, pages := urls + [nextPageUrl], pages + [page];
        break;
      }
      ghost var fuel: nat := MaxLoops - i;
      WalkAdvances(full, urls, pages, fetch, nextPageUrl, fuel);
      urls, pages := urls + [nextPageUrl], pages + [page];
      nextPageUrl := page.next.value;
      i := i + 1;
      assert MaxLoops - i == fuel - 1;
      rest := Visit(fetch, nextPageUrl, fuel - 1);
    }
    assert full == Walk(urls, pages, None);
    var unique := Unique(files);
    r := Success(unique);
  }

  /** Collecting one more page appends that page's paths. */
  lemma {:induction false} CollectSnoc(pages: seq<Page>, page: Page)
    ensures Collect(pages + [page]) == Collect(pages) + EntriesPaths(page.values)
  {
    if pages != [] {
      assert (pages + [page])[1..] == pages[1..] + [page];
      CollectSnoc(pages[1..], page);
    }
  }

  /** The loop's view of the walk when the current request fails. */
  lemma WalkFails(full: Walk, urls: seq<string>, pages: seq<Page>, fetch: Fetch, url: string, fuel: nat)
    requires full == Then(urls, pages, Visit(fetch, url, fuel))
    requires fuel > 0 && FetchPage(fetch, url).Failure?
    ensures full.failure == Some(FetchPage(fetch, url).error)
  {
  }

  /** The loop's view of the walk when the current page is the last. */
  lemma WalkEnds(full: Walk, urls: seq<string>, pages: seq<Page>, fetch: Fetch, url: string, fuel: nat)
    requires full == Then(urls, pages, Visit(fetch, url, fuel))
    requires fuel > 0 && FetchPage(fetch, url).Success? && IsLastPage(FetchPage(fetch, url).value)
    ensures full == Walk(urls + [url], pages + [FetchPage(fetch, url).value], None)
  {
  }

  /** The loop's view of the walk when it follows the current page's cursor. */
  lemma WalkAdvances(full: Walk, urls: seq<string>, pages: seq<Page>, fetch: Fetch, url: string, fuel: nat)
    requires full == Then(urls, pages, Visit(fetch, url, fuel))
    requires fuel > 0 && FetchPage(fetch, url).Success? && !IsLastPage(FetchPage(fetch, url).value)
    ensures var page := FetchPage(fetch, url).value;
      full == Then(urls + [url], pages + [page], Visit(fetch, page.next.value, fuel - 1))
  {
  }
}
