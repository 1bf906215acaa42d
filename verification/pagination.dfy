/**
 The pagination state machine of the feed page (`usePagination` and the
 page-number list of `Pagination` in pages/index.js).

 The React state hooks become one immutable `PageState` value and every
 click handler a pure transition from the state of the current render to
 the state of the next one.
 */
module Pagination {
  import opened JsBuiltins

  /** Most page-number buttons shown at once; also the distance the window
      moves when Next or Prev leaves it. */
  const PageNumberLimit: int := 5

  /** Posts per page that the feed page passes to the paginator. */
  const PostsPerPage: nat := 10

  /** The three state hooks of `usePagination`: the current page (1-based) and
      the inclusive bounds of the window of page-number buttons. */
  datatype PageState = PageState(pageNumber: int, minLimit: int, maxLimit: int)

  /** Every hook's initial value: page 1, window [1, 5]. */
  const Initial: PageState := PageState(1, 1, PageNumberLimit)

  /** `Math.ceil(posts.length / postsPerPage)`: the least number of pages that
      holds every post, which is 0 for an empty list. */
  function PageCount<T>(posts: seq<T>, postsPerPage: nat): (count: nat)
    requires postsPerPage > 0
    ensures count * postsPerPage >= |posts|
    ensures count == 0 || (count - 1) * postsPerPage < |posts|
    ensures count == 0 <==> |posts| == 0
  {
    var q := |posts| / postsPerPage;
    var r := |posts| % postsPerPage;
    assert |posts| == q * postsPerPage + r;
    if r == 0 then q
    else
      assert (q + 1) * postsPerPage == q * postsPerPage + postsPerPage;
      q + 1
  }

  /** Page `k + 1` starts inside the list exactly when `k` is below the page
      count: the page count is the number of non-empty pages. */
  lemma PageStartInsideIffBelowCount<T>(posts: seq<T>, postsPerPage: nat, k: nat)
    requires postsPerPage > 0
    ensures k * postsPerPage < |posts| <==> k < PageCount(posts, postsPerPage)
  {
    var c := PageCount(posts, postsPerPage);
    if k < c {
      assert k * postsPerPage <= (c - 1) * postsPerPage by {
        MultiplyMonotone(k, c - 1, postsPerPage);
      }
    } else {
      assert c * postsPerPage <= k * postsPerPage by {
        MultiplyMonotone(c, k, postsPerPage);
      }
    }
  }

  /** Multiplying by a natural number keeps the order. */
  lemma MultiplyMonotone(a: nat, b: nat, m: nat)
    requires a <= b
    ensures a * m <= b * m
  {
    assert b * m == a * m + (b - a) * m;
  }

  /** Where page `pageNumber` starts: never before 0 from page 1 on, and one
      whole page before 0 for page 0. */
  lemma PageStart(pageNumber: int, postsPerPage: nat)
    ensures pageNumber >= 1 ==> (pageNumber - 1) * postsPerPage >= 0
    ensures pageNumber == 0 ==> (pageNumber - 1) * postsPerPage + postsPerPage == 0
  {
    if pageNumber >= 1 {
      MultiplyMonotone(0, pageNumber - 1, postsPerPage);
    }
  }

  /** `changePage(n)`: jump straight to page `n`. There is no range check, and
      the window of buttons is left where it is. */
  function ChangePage(s: PageState, n: int): (t: PageState)
    ensures t.pageNumber == n
    ensures t.minLimit == s.minLimit && t.maxLimit == s.maxLimit
  {
    s.(pageNumber := n)
  }

  /** Jumping to the same page twice is the same as jumping once. */
  lemma ChangePageIdempotent(s: PageState, n: int)
    ensures ChangePage(ChangePage(s, n), n) == ChangePage(s, n)
  {
  }

  /** `handleNextPage`: advance one page, with no upper bound; the window moves
      up by a whole width exactly when the new page lies past its top. */
  function NextPage(s: PageState): (t: PageState)
    ensures t.pageNumber == s.pageNumber + 1
    ensures t.maxLimit - t.minLimit == s.maxLimit - s.minLimit
    ensures t.pageNumber > s.maxLimit <==> t.minLimit == s.minLimit + PageNumberLimit
    ensures t.pageNumber <= s.maxLimit <==> t.minLimit == s.minLimit
  {
    var p := s.pageNumber + 1;
    if p > s.maxLimit then
      PageState(p, s.minLimit + PageNumberLimit, s.maxLimit + PageNumberLimit)
    else
      s.(pageNumber := p)
  }

  /** `handlePrevPage`: go back one page, with no lower bound; the window moves
      down by a whole width exactly when the new page lies below its bottom. */
  function PrevPage(s: PageState): (t: PageState)
    ensures t.pageNumber == s.pageNumber - 1
    ensures t.maxLimit - t.minLimit == s.maxLimit - s.minLimit
    ensures t.pageNumber < s.minLimit <==> t.minLimit == s.minLimit - PageNumberLimit
    ensures t.pageNumber >= s.minLimit <==> t.minLimit == s.minLimit
  {
    var p := s.pageNumber - 1;
    if p < s.minLimit then
      PageState(p, s.minLimit - PageNumberLimit, s.maxLimit - PageNumberLimit)
    else
      s.(pageNumber := p)
  }

  /** On a window of full width that holds the current page, Prev undoes Next. */
  lemma PrevUndoesNext(s: PageState)
    requires s.minLimit <= s.pageNumber <= s.maxLimit
    requires s.maxLimit == s.minLimit + PageNumberLimit - 1
    ensures PrevPage(NextPage(s)) == s
  {
  }

  /** On a window of full width that holds the current page, Next undoes Prev. */
  lemma NextUndoesPrev(s: PageState)
    requires s.minLimit <= s.pageNumber <= s.maxLimit
    requires s.maxLimit == s.minLimit + PageNumberLimit - 1
    ensures NextPage(PrevPage(s)) == s
  {
  }

  /** Leaving the first window from its last page and coming back. */
  lemma WindowShiftExample()
    ensures NextPage(PageState(5, 1, 5)) == PageState(6, 6, 10)
    ensures PrevPage(PageState(6, 6, 10)) == PageState(5, 1, 5)
  {
  }

  /** `pageData()`: the posts of page `pageNumber`, cut with `slice` from
      `(pageNumber - 1) * postsPerPage` for `postsPerPage` posts. From page 1
      on it is the run of posts starting there, cut short by the end of the
      list and empty once the start is at or past it; page 0 is empty too. */
  function PageData<T>(posts: seq<T>, pageNumber: int, postsPerPage: nat): (page: seq<T>)
    ensures pageNumber >= 1 ==>
      var start := (pageNumber - 1) * postsPerPage;
      && (0 <= start < |posts| ==> page == posts[start..Min(start + postsPerPage, |posts|)])
      && (start < |posts| ==> |page| == Min(postsPerPage, |posts| - start))
      && (start >= |posts| ==> page == [])
    ensures pageNumber == 0 ==> page == []
    ensures |page| <= postsPerPage
  {
    var start := (pageNumber - 1) * postsPerPage;
    PageStart(pageNumber, postsPerPage);
    if pageNumber >= 1 then
      SliceFromNonNegative(posts, start, start + postsPerPage);
      Slice(posts, start, start + postsPerPage)
    else
      Slice(posts, start, start + postsPerPage)
  }

  /** From page 1 on, a page has posts exactly when its number is at most the
      page count. */
  lemma PageDataNonEmptyIffInRange<T>(posts: seq<T>, pageNumber: int, postsPerPage: nat)
    requires postsPerPage > 0
    requires pageNumber >= 1
    ensures PageData(posts, pageNumber, postsPerPage) != [] <==> pageNumber <= PageCount(posts, postsPerPage)
  {
    PageStartInsideIffBelowCount(posts, postsPerPage, pageNumber - 1);
  }

  /** The posts of pages 1 to `k`, one page after the other. */
  function Pages<T>(posts: seq<T>, postsPerPage: nat, k: nat): seq<T>
  {
    if k == 0 then [] else Pages(posts, postsPerPage, k - 1) + PageData(posts, k, postsPerPage)
  }

  /** The first `k` pages are the first `k * postsPerPage` posts (or all of
      them): no post is skipped or repeated between consecutive pages. */
  lemma {:induction false} PagesArePrefix<T>(posts: seq<T>, postsPerPage: nat, k: nat)
    ensures Pages(posts, postsPerPage, k) == posts[..Min(k * postsPerPage, |posts|)]
  {
    if k > 0 {
      var start := (k - 1) * postsPerPage;
      var before := Pages(posts, postsPerPage, k - 1);
      var page := PageData(posts, k, postsPerPage);
      assert start >= 0 && k * postsPerPage == start + postsPerPage by {
        PageEnd(k, postsPerPage);
      }
      assert before == posts[..Min(start, |posts|)] by {
        PagesArePrefix(posts, postsPerPage, k - 1);
      }
      assert before + page == posts[..Min(start + postsPerPage, |posts|)] by {
        AppendPage(posts, before, page, start, postsPerPage);
      }
    }
  }

  /** The posts before `start` followed by the page that begins at `start` are
      the posts before the end of that page. */
  lemma AppendPage<T>(posts: seq<T>, before: seq<T>, page: seq<T>, start: int, postsPerPage: nat)
    requires 0 <= start
    requires before == posts[..Min(start, |posts|)]
    requires start < |posts| ==> page == posts[start..Min(start + postsPerPage, |posts|)]
    requires start >= |posts| ==> page == []
    ensures before + page == posts[..Min(start + postsPerPage, |posts|)]
  {
    if start < |posts| {
      var end := Min(start + postsPerPage, |posts|);
      assert posts[..start] + posts[start..end] == posts[..end];
    }
  }

  /** Page `k` ends where page `k + 1` starts. */
  lemma PageEnd(k: nat, postsPerPage: nat)
    requires k >= 1
    ensures (k - 1) * postsPerPage >= 0
    ensures k * postsPerPage == (k - 1) * postsPerPage + postsPerPage
  {
    PageStart(k, postsPerPage);
  }

  /** Paging through 1 to the page count shows every post once, in order. */
  lemma PagesCoverPosts<T>(posts: seq<T>, postsPerPage: nat)
    requires postsPerPage > 0
    ensures Pages(posts, postsPerPage, PageCount(posts, postsPerPage)) == posts
  {
    PagesArePrefix(posts, postsPerPage, PageCount(posts, postsPerPage));
  }

  /** 23 posts at 10 per page: three pages, the last one holding 3 posts. */
  lemma TwentyThreePostsExample<T>(posts: seq<T>)
    requires |posts| == 23
    ensures PageCount(posts, PostsPerPage) == 3
    ensures PageData(posts, 1, PostsPerPage) == posts[0..10]
    ensures PageData(posts, 3, PostsPerPage) == posts[20..23]
    ensures PageData(posts, 4, PostsPerPage) == []
  {
  }

  /** The integers `lo, lo + 1, ..., hi` in ascending order. */
  function Range(lo: int, hi: int): (r: seq<int>)
    decreases hi - lo
    ensures |r| == Max(hi - lo + 1, 0)
    ensures forall i :: 0 <= i < |r| ==> r[i] == lo + i
  {
    if lo > hi then [] else [lo] + Range(lo + 1, hi)
  }

  /** A number is in `Range(lo, hi)` exactly when it lies between the bounds. */
  lemma RangeMembership(lo: int, hi: int)
    ensures forall n :: n in Range(lo, hi) <==> lo <= n <= hi
  {
    var r := Range(lo, hi);
    forall n | lo <= n <= hi
      ensures n in r
    {
      assert r[n - lo] == n;
    }
  }

  /** The page numbers that get a button: those in `[1, pageCount]` that also
      lie in the window, ascending and without gaps, so never more of them
      than the window is wide. */
  function VisiblePageNumbers(pageCount: int, s: PageState): (nums: seq<int>)
    ensures forall n :: n in nums <==> 1 <= n <= pageCount && s.minLimit <= n <= s.maxLimit
    ensures forall i, j :: 0 <= i < j < |nums| ==> nums[i] < nums[j]
    ensures forall i :: 0 <= i < |nums| - 1 ==> nums[i + 1] == nums[i] + 1
    ensures |nums| <= Max(s.maxLimit - s.minLimit + 1, 0)
    ensures |nums| <= Max(pageCount, 0)
  {
    RangeMembership(Max(1, s.minLimit), Min(pageCount, s.maxLimit));
    Range(Max(1, s.minLimit), Min(pageCount, s.maxLimit))
  }

  /** The loop that builds `pageNumbers`: walk 1 to `pageCount` and keep the
      numbers inside the window. It builds exactly the visible page numbers. */
  method PageNumbers(pageCount: int, s: PageState) returns (nums: seq<int>)
    ensures nums == VisiblePageNumbers(pageCount, s)
  {
    var lo := Max(1, s.minLimit);
    nums := [];
    var pageNum := 1;
    while pageNum <= pageCount
      invariant 1 <= pageNum <= Max(pageCount, 0) + 1
      invariant |nums| == Max(Min(pageNum - 1, s.maxLimit) - lo + 1, 0)
      invariant forall i :: 0 <= i < |nums| ==> nums[i] == lo + i
    {
      if pageNum <= s.maxLimit && pageNum >= s.minLimit {
        nums := nums + [pageNum];
      }
      pageNum := pageNum + 1;
    }
    assert |nums| == |VisiblePageNumbers(pageCount, s)|;
  }

  /** Under a window of full width at most five page buttons are shown. */
  lemma VisibleAtMostLimit(pageCount: int, s: PageState)
    requires s.maxLimit - s.minLimit == PageNumberLimit - 1
    ensures |VisiblePageNumbers(pageCount, s)| <= PageNumberLimit
  {
  }

  /** The Prev button is disabled on page 1. */
  predicate PrevDisabled(s: PageState) {
    s.pageNumber == 1
  }

  /** The Next button is disabled when the page equals the page count. */
  predicate NextDisabled(s: PageState, pageCount: int) {
    s.pageNumber == pageCount
  }

  /** An empty list has no pages, so on page 1 the Next button stays enabled. */
  lemma EmptyListLeavesNextEnabled<T>(posts: seq<T>, postsPerPage: nat)
    requires postsPerPage > 0
    requires posts == []
    ensures PageCount(posts, postsPerPage) == 0
    ensures !NextDisabled(Initial, PageCount(posts, postsPerPage))
    ensures VisiblePageNumbers(PageCount(posts, postsPerPage), Initial) == []
  {
  }
}
