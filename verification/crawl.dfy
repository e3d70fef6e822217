/**
  The page loop of `crawl_all` (mohw_board_pdf_crawler.py): which list
  pages the crawler visits, and in which order. Whether a page yields posts
  (`_process_page`) depends on the network and is a parameter.
 */
module Crawl {
  import opened Wrappers
  import PageSpec

  /** The usable pages of an explicit list: those that are at least 1. */
  function Positive(xs: seq<int>): (r: seq<int>)
    ensures forall p :: p in r <==> p in xs && p >= 1
    decreases |xs|
  {
    if |xs| == 0 then []
    else
      var rest := Positive(xs[1..]);
      assert forall p :: p in xs <==> p == xs[0] || p in xs[1..];
      if xs[0] >= 1 then [xs[0]] + rest else rest
  }

  /** `sorted({p for p in page_numbers if p >= 1})`. */
  function ExplicitPages(pages: seq<int>): (r: seq<int>)
    ensures PageSpec.StrictlyIncreasing(r)
    ensures forall p :: p in r <==> p in pages && p >= 1
  {
    PageSpec.SortedDistinct(Positive(pages))
  }

  /** The first page of an open crawl. */
  function FirstPage(startPage: int): int {
    PageSpec.Max(1, startPage)
  }

  /** Pages already visited hold no two consecutive pages that both failed. */
  predicate NoDoubleFailure(visited: seq<int>, processed: int -> bool) {
    forall i :: 0 < i < |visited| ==> processed(visited[i - 1]) || processed(visited[i])
  }

  /** What the open crawl promises about the pages it visits: consecutive
      pages from `first`, none after `endPage`, no two failures in a row
      before the last page, and a reason to stop after the last one. */
  predicate OpenCrawl(visited: seq<int>, first: int, endPage: Option<int>, processed: int -> bool) {
    && (forall i :: 0 <= i < |visited| ==> visited[i] == first + i)
    && (endPage.Some? ==> forall i :: 0 <= i < |visited| ==> visited[i] <= endPage.value)
    && (forall i :: 0 < i < |visited| - 1 ==> processed(visited[i - 1]) || processed(visited[i]))
    && ((endPage.Some? && first + |visited| > endPage.value)
        || (|visited| >= 2 && !processed(visited[|visited| - 2]) && !processed(visited[|visited| - 1])))
  }

  /** `s[i]`, or 0 outside `s`. */
  function At(s: seq<int>, i: int): int {
    if 0 <= i < |s| then s[i] else 0
  }

  /** A crawl that stops for its reason cannot be longer than another one
      over the same pages. */
  lemma OpenCrawlShorter(a: seq<int>, b: seq<int>, first: int, endPage: Option<int>, processed: int -> bool)
    requires OpenCrawl(a, first, endPage, processed) && OpenCrawl(b, first, endPage, processed)
    ensures |b| <= |a|
  {
    var n := |a|;
    assert n < |b| ==> At(b, n) == first + n;
    assert n >= 2 && n < |b| ==> At(b, n - 2) == At(a, n - 2) && At(b, n - 1) == At(a, n - 1);
    assert n >= 2 && n < |b| ==> processed(At(b, n - 2)) || processed(At(b, n - 1));
  }

  /** The promise determines the crawl: it is a full description of the
      pages visited. */
  lemma OpenCrawlDetermined(a: seq<int>, b: seq<int>, first: int, endPage: Option<int>, processed: int -> bool)
    requires OpenCrawl(a, first, endPage, processed) && OpenCrawl(b, first, endPage, processed)
    ensures a == b
  {
    OpenCrawlShorter(a, b, first, endPage, processed);
    OpenCrawlShorter(b, a, first, endPage, processed);
  }

  /** The pages `crawl_all` visits. A non-empty explicit list visits its
      usable pages once each in ascending order. Otherwise the crawl visits
      consecutive pages from `max(1, startPage)` and stops after `endPage`
      or after the second failed page in a row. Without an `endPage` the
      crawl ends exactly when two consecutive pages fail, so the ghost
      `boardEnd` names such a pair, `boardEnd` and `boardEnd + 1`, at or
      after the first page; every terminating run has one. */
  method CrawlPages(pageNumbers: Option<seq<int>>, startPage: int, endPage: Option<int>,
                    processed: int -> bool, ghost boardEnd: int)
    returns (visited: seq<int>)
    requires endPage.None? && (pageNumbers.None? || |pageNumbers.value| == 0) ==>
               FirstPage(startPage) <= boardEnd && !processed(boardEnd) && !processed(boardEnd + 1)
    ensures pageNumbers.Some? && |pageNumbers.value| > 0 ==> visited == ExplicitPages(pageNumbers.value)
    ensures pageNumbers.None? || |pageNumbers.value| == 0 ==>
              OpenCrawl(visited, FirstPage(startPage), endPage, processed)
  {
    if pageNumbers.Some? && |pageNumbers.value| > 0 {
      visited := ExplicitPages(pageNumbers.value);
      return;
    }
    var first := FirstPage(startPage);
    var page := first;
    var empty := 0;
    visited := [];
    while true
      invariant page == first + |visited|
      invariant forall i :: 0 <= i < |visited| ==> visited[i] == first + i
      invariant endPage.Some? ==> forall i :: 0 <= i < |visited| ==> visited[i] <= endPage.value
      invariant empty == (if |visited| > 0 && !processed(visited[|visited| - 1]) then 1 else 0)
      invariant NoDoubleFailure(visited, processed)
      invariant endPage.None? ==> page <= boardEnd + 1 && (page == boardEnd + 1 ==> empty == 1)
      decreases if endPage.Some? then PageSpec.Max(0, endPage.value + 1 - page) else boardEnd + 2 - page
    {
      if endPage.Some? && page > endPage.value {
        break;
      }
      visited := visited + [page];
      if processed(page) {
        empty := 0;
      } else {
        empty := empty + 1;
        if empty >= 2 {
          break;
        }
      }
      page := page + 1;
    }
  }

  /** Every open crawl that ends without an end page ends on two failed
      pages in a row at or after its first page: such a pair is what
      `CrawlPages` asks `boardEnd` to name. */
  lemma OpenCrawlEndsOnPair(visited: seq<int>, first: int, processed: int -> bool)
    requires OpenCrawl(visited, first, None, processed)
    ensures |visited| >= 2
    ensures var b := visited[|visited| - 2]; first <= b && !processed(b) && !processed(b + 1)
  {
  }

  /** A page list produced by `parse_pages_argument` is crawled exactly as
      given. */
  lemma ParsedPagesCrawledAsGiven(pages: seq<int>)
    requires PageSpec.StrictlyIncreasing(pages)
    requires forall p :: p in pages ==> p >= 1
    ensures ExplicitPages(pages) == pages
  {
    PageSpec.StrictlyIncreasingUnique(ExplicitPages(pages), pages);
  }
}
