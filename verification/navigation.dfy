/**
 What the user can do with the pagination controls, and what the controls'
 guards keep true.

 A click is one of the three kinds of button the `Pagination` component
 renders. A click only has an effect when its button is enabled: Prev is
 disabled on page 1, Next when the page equals the page count, and a
 page-number button exists only for a visible page number. Each click also
 records the page count of the list shown at that moment, because switching
 tabs or finishing a load swaps the list without resetting the paginator.
 */
module Navigation {
  import opened JsBuiltins
  import opened Pagination

  datatype Click = PrevClick | NextClick | NumberClick(pageNum: int)

  /** A click together with the page count of the list displayed when it
      happened. */
  datatype Event = Event(click: Click, pageCount: nat)

  /** Whether the button clicked is enabled (or rendered at all) in state `s`. */
  predicate Enabled(s: PageState, e: Event) {
    match e.click
    case PrevClick => !PrevDisabled(s)
    case NextClick => !NextDisabled(s, e.pageCount)
    case NumberClick(n) => n in VisiblePageNumbers(e.pageCount, s)
  }

  /** The handler each button calls. */
  function Dispatch(s: PageState, c: Click): PageState {
    match c
    case PrevClick => PrevPage(s)
    case NextClick => NextPage(s)
    case NumberClick(n) => ChangePage(s, n)
  }

  /** The state after handling every event in turn. */
  function Run(s: PageState, events: seq<Event>): PageState
    decreases |events|
  {
    if |events| == 0 then s else Run(Dispatch(s, events[0].click), events[1..])
  }

  /** Every event is a click on a button that is enabled at that moment. */
  predicate Guarded(s: PageState, events: seq<Event>)
    decreases |events|
  {
    |events| == 0 || (Enabled(s, events[0]) && Guarded(Dispatch(s, events[0].click), events[1..]))
  }

  /** The window is the aligned block of five pages that holds the current page:
      pages 1-5, 6-10, 11-15 and so on. */
  predicate Aligned(s: PageState) {
    && s.pageNumber >= 1
    && s.minLimit == PageNumberLimit * ((s.pageNumber - 1) / PageNumberLimit) + 1
    && s.maxLimit == s.minLimit + PageNumberLimit - 1
  }

  /** The state whose window is the aligned block holding page `p`: the window
      as a function of the page alone. */
  function WindowFor(p: int): (s: PageState)
    requires p >= 1
    ensures s.pageNumber == p
    ensures s.minLimit <= p <= s.maxLimit
    ensures s.maxLimit - s.minLimit == PageNumberLimit - 1
  {
    var lo := PageNumberLimit * ((p - 1) / PageNumberLimit) + 1;
    PageState(p, lo, lo + PageNumberLimit - 1)
  }

  /** An aligned state is the one `WindowFor` gives for its page, and a state is
      aligned exactly when its window has full width, holds the page, and starts
      one past a multiple of five. */
  lemma AlignedCharacterization(s: PageState)
    ensures Aligned(s) <==> s.pageNumber >= 1 && s == WindowFor(s.pageNumber)
    ensures Aligned(s) <==>
      && s.pageNumber >= 1
      && s.minLimit <= s.pageNumber <= s.maxLimit
      && (s.minLimit - 1) % PageNumberLimit == 0
      && s.maxLimit == s.minLimit + PageNumberLimit - 1
  {
  }

  /** The window computed from a page is aligned. */
  lemma WindowForIsAligned(p: int)
    requires p >= 1
    ensures Aligned(WindowFor(p))
  {
  }

  /** The paginator starts aligned, on page 1 of the first block. */
  lemma InitialAligned()
    ensures Aligned(Initial)
    ensures Initial == WindowFor(1)
  {
  }

  /** Every page of block `m` (pages `5m + 1` to `5m + 5`) gets the window of
      that block. */
  lemma WindowOfBlock(m: int, p: int)
    requires PageNumberLimit * m + 1 <= p <= PageNumberLimit * m + PageNumberLimit
    requires p >= 1
    ensures WindowFor(p) == PageState(p, PageNumberLimit * m + 1, PageNumberLimit * m + PageNumberLimit)
  {
    assert (p - 1) / PageNumberLimit == m;
  }

  /** Block `m + 1` starts five pages after block `m`, block `m - 1` five pages
      before it. */
  lemma NeighbourBlocks(m: int)
    ensures PageNumberLimit * (m + 1) == PageNumberLimit * m + PageNumberLimit
    ensures PageNumberLimit * (m - 1) == PageNumberLimit * m - PageNumberLimit
  {
  }

  /** From an aligned state Next lands on the aligned window of the next page,
      and Prev (away from page 1) on that of the previous page: the window
      shifts of the handlers agree with recomputing the window from the page. */
  lemma StepsFollowWindowFor(s: PageState)
    requires Aligned(s)
    ensures NextPage(s) == WindowFor(s.pageNumber + 1)
    ensures s.pageNumber >= 2 ==> PrevPage(s) == WindowFor(s.pageNumber - 1)
  {
    var m := (s.pageNumber - 1) / PageNumberLimit;
    NextInBlock(s, m);
    if s.pageNumber >= 2 {
      PrevInBlock(s, m);
    }
  }

  /** Next from a page of block `m` stays in block `m` or enters block `m + 1`. */
  lemma NextInBlock(s: PageState, m: int)
    requires s.pageNumber >= 1
    requires s == PageState(s.pageNumber, PageNumberLimit * m + 1, PageNumberLimit * m + PageNumberLimit)
    requires s.minLimit <= s.pageNumber <= s.maxLimit
    ensures NextPage(s) == WindowFor(s.pageNumber + 1)
  {
    NeighbourBlocks(m);
    if s.pageNumber + 1 <= s.maxLimit {
      WindowOfBlock(m, s.pageNumber + 1);
    } else {
      WindowOfBlock(m + 1, s.pageNumber + 1);
    }
  }

  /** Prev from a page of block `m` stays in block `m` or enters block `m - 1`. */
  lemma PrevInBlock(s: PageState, m: int)
    requires s.pageNumber >= 2
    requires s == PageState(s.pageNumber, PageNumberLimit * m + 1, PageNumberLimit * m + PageNumberLimit)
    requires s.minLimit <= s.pageNumber <= s.maxLimit
    ensures PrevPage(s) == WindowFor(s.pageNumber - 1)
  {
    NeighbourBlocks(m);
    if s.pageNumber - 1 >= s.minLimit {
      WindowOfBlock(m, s.pageNumber - 1);
    } else {
      WindowOfBlock(m - 1, s.pageNumber - 1);
    }
  }

  /** A number button is only ever rendered for a page of the current window, so
      clicking it keeps the window aligned. */
  lemma NumberClickFollowsWindowFor(s: PageState, pageCount: nat, n: int)
    requires Aligned(s)
    requires n in VisiblePageNumbers(pageCount, s)
    ensures 1 <= n <= pageCount
    ensures ChangePage(s, n) == WindowFor(n)
  {
    WindowOfBlock((s.pageNumber - 1) / PageNumberLimit, n);
  }

  /** One enabled click keeps the window aligned. */
  lemma EnabledStepKeepsAligned(s: PageState, e: Event)
    requires Aligned(s)
    requires Enabled(s, e)
    ensures Aligned(Dispatch(s, e.click))
  {
    var p := s.pageNumber;
    match e.click
    case PrevClick =>
      StepsFollowWindowFor(s);
      WindowForIsAligned(p - 1);
    case NextClick =>
      StepsFollowWindowFor(s);
      WindowForIsAligned(p + 1);
    case NumberClick(n) =>
      NumberClickFollowsWindowFor(s, e.pageCount, n);
      WindowForIsAligned(n);
  }

  /** Through any sequence of enabled clicks, whatever lists are swapped in
      between, the window stays the aligned block of the current page. */
  lemma {:induction false} GuardedRunKeepsAligned(s: PageState, events: seq<Event>)
    requires Aligned(s)
    requires Guarded(s, events)
    ensures Aligned(Run(s, events))
    decreases |events|
  {
    if |events| > 0 {
      EnabledStepKeepsAligned(s, events[0]);
      GuardedRunKeepsAligned(Dispatch(s, events[0].click), events[1..]);
    }
  }

  /** Every state reachable from the initial one by enabled clicks has its
      window equal to the aligned block of its page. */
  lemma ReachableWindowIsAligned(events: seq<Event>)
    requires Guarded(Initial, events)
    ensures Aligned(Run(Initial, events))
    ensures Run(Initial, events) == WindowFor(Run(Initial, events).pageNumber)
  {
    InitialAligned();
    GuardedRunKeepsAligned(Initial, events);
    AlignedCharacterization(Run(Initial, events));
  }

  /** Every event was made while the list had `pageCount` pages. */
  predicate SameList(events: seq<Event>, pageCount: nat) {
    forall i :: 0 <= i < |events| ==> events[i].pageCount == pageCount
  }

  /** The invariant of a paginator over one non-empty list. */
  predicate InRange(s: PageState, pageCount: nat) {
    Aligned(s) && 1 <= s.pageNumber <= pageCount
  }

  /** While one list is shown, enabled clicks keep the page in range and the
      window aligned. */
  lemma {:induction false} GuardedRunStaysInRange(s: PageState, events: seq<Event>, pageCount: nat)
    requires InRange(s, pageCount)
    requires SameList(events, pageCount)
    requires Guarded(s, events)
    ensures InRange(Run(s, events), pageCount)
    decreases |events|
  {
    if |events| > 0 {
      EnabledStepKeepsAligned(s, events[0]);
      assert events[0].pageCount == pageCount;
      assert SameList(events[1..], pageCount) by {
        forall i | 0 <= i < |events[1..]|
          ensures events[1..][i].pageCount == pageCount
        {
          assert events[1..][i] == events[i + 1];
        }
      }
      GuardedRunStaysInRange(Dispatch(s, events[0].click), events[1..], pageCount);
    }
  }

  /** While a non-empty list is shown, enabled clicks from the initial state
      keep the page between 1 and the page count and inside an aligned window,
      and the current page always has a button of its own among at most five. */
  lemma ReachableStateOnOneList(events: seq<Event>, pageCount: nat)
    requires pageCount >= 1
    requires SameList(events, pageCount)
    requires Guarded(Initial, events)
    ensures var t := Run(Initial, events);
      && 1 <= t.pageNumber <= pageCount
      && t.minLimit <= t.pageNumber <= t.maxLimit
      && t.maxLimit == t.minLimit + PageNumberLimit - 1
      && (t.minLimit - 1) % PageNumberLimit == 0
      && t.pageNumber in VisiblePageNumbers(pageCount, t)
      && |VisiblePageNumbers(pageCount, t)| <= PageNumberLimit
  {
    InitialAligned();
    GuardedRunStaysInRange(Initial, events, pageCount);
    AlignedCharacterization(Run(Initial, events));
  }

  /** `n` clicks on Next while the list is empty. */
  function NextClicksOnEmpty(n: nat): (events: seq<Event>)
    ensures |events| == n
    ensures forall i :: 0 <= i < n ==> events[i] == Event(NextClick, 0)
  {
    seq(n, _ => Event(NextClick, 0))
  }

  /** While the list is empty (before a load finishes) the page count is 0, so
      Next is never disabled: every click is enabled and moves on one page, and
      the page leaves the range of pages the list has. */
  lemma {:induction false} EmptyListNextIsNeverDisabled(s: PageState, n: nat)
    requires s.pageNumber >= 1
    ensures Guarded(s, NextClicksOnEmpty(n))
    ensures Run(s, NextClicksOnEmpty(n)).pageNumber == s.pageNumber + n
    decreases n
  {
    var events := NextClicksOnEmpty(n);
    if n > 0 {
      assert events[1..] == NextClicksOnEmpty(n - 1);
      EmptyListNextIsNeverDisabled(NextPage(s), n - 1);
    }
  }
}
