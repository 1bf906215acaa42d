# Pagination of the HackerNews feed page, in Dafny

The feed page of hackernews-newsfeed shows either job postings or new
stories, ten per page. Its paginator is the only real logic in the page
component. `usePagination` holds the current page and a window of at most
five page-number buttons. It derives the page count from the list length and
cuts out the current page with `slice`. It moves one page at a time with
Next/Prev, shifting the window by five when the page leaves it, and jumps
straight to a page through `changePage`. `Pagination` renders the page-number
buttons of the window. It disables Prev on page 1, and Next when the page
equals the page count.

The model has three modules:

- `JsBuiltins` (js_builtins.dfy): `Array.prototype.slice` with both arguments
  given, as ECMAScript defines it. Negative positions count back from the end,
  and every position is clamped into the array.
- `Pagination` (pagination.dfy): the state of the three hooks as one immutable
  `PageState`, the page count, the page slice, the three handlers as pure
  transitions, the loop building the page-number list together with a
  declarative definition of that list, and the two disable guards.
- `Navigation` (navigation.dfy): clicks on enabled buttons, runs of such
  clicks from the initial state, and the invariant they keep. The invariant
  says the window is always the aligned block of five pages that holds the
  current page (`min = 5 * ((page - 1) / 5) + 1`, `max = min + 4`). The source
  never states this. `WindowFor` computes that block from the page alone, and
  the lemmas show the handlers' window shifts agree with it.

Each click carries the page count of the list shown at that moment. Switching
tabs, or a load finishing, replaces the list but keeps the paginator's state.
The window stays aligned across such swaps. The bound `1 <= page <= pageCount`
needs one non-empty list.

Two behaviours of the code are modelled as written, although a design of the
paginator might expect otherwise:

- The page count of an empty list is `Math.ceil(0 / 10) = 0`, not 1. So on
  page 1 of an empty list Next is enabled, and every click on it moves on one
  more page (`EmptyListLeavesNextEnabled`, `EmptyListNextIsNeverDisabled`).
- `changePage`, `handleNextPage` and `handlePrevPage` do no range checking.
  The transitions are total, and only the button guards keep the page in
  range.

## Model

| member | source | states |
|---|---|---|
| `JsBuiltins.Slice` | pages/index.js:36 | `slice` returns the elements from the relative start up to the relative end, and nothing when the end is not after the start |
| `JsBuiltins.SliceFromNonNegative` | pages/index.js:36 | for `0 <= start <= end`, `slice` is the sub-sequence from `start` to `end` clipped to the length, and empty when `start` is at or past the length |
| `Pagination.PageCount` | pages/index.js:27 | the page count is the least number of pages of `postsPerPage` posts that holds every post, and it is 0 exactly for an empty list |
| `Pagination.PageStartInsideIffBelowCount` | pages/index.js:27-35 | page `k + 1` starts inside the list if and only if `k` is below the page count |
| `Pagination.ChangePage` | pages/index.js:29-31 | `changePage(n)` sets the page to `n` with no range check and leaves both window bounds untouched |
| `Pagination.ChangePageIdempotent` | pages/index.js:29-31 | jumping to the same page twice gives the same state as jumping once |
| `Pagination.NextPage` | pages/index.js:39-45 | Next moves to the following page; the window moves up by 5 if and only if the new page is past its top, otherwise it stays, and its width never changes |
| `Pagination.PrevPage` | pages/index.js:47-53 | Prev moves to the preceding page; the window moves down by 5 if and only if the new page is below its bottom, otherwise it stays, and its width never changes |
| `Pagination.PrevUndoesNext` | pages/index.js:39-53 | on a full-width window holding the page, Prev after Next gives back the original state |
| `Pagination.NextUndoesPrev` | pages/index.js:39-53 | on a full-width window holding the page, Next after Prev gives back the original state |
| `Pagination.WindowShiftExample` | pages/index.js:39-53 | Next from page 5 in window [1,5] gives page 6 in window [6,10], and Prev from there gives back page 5 in [1,5] |
| `Pagination.PageData` | pages/index.js:33-37 | from page 1 on, the page is the posts from `(page - 1) * postsPerPage` for `postsPerPage` posts, cut short by the end of the list, and empty when it starts at or past the end; page 0 is empty; no page holds more than `postsPerPage` posts |
| `Pagination.PageDataNonEmptyIffInRange` | pages/index.js:27-37 | from page 1 on, a page has posts if and only if its number is at most the page count |
| `Pagination.PagesArePrefix` | pages/index.js:33-37 | pages 1 to `k` laid end to end are exactly the first `k * postsPerPage` posts (or all of them), so consecutive pages neither skip nor repeat a post |
| `Pagination.PagesCoverPosts` | pages/index.js:27-37 | pages 1 to the page count laid end to end are the whole list, in order |
| `Pagination.TwentyThreePostsExample` | pages/index.js:27-37 | 23 posts at 10 per page make 3 pages; page 1 is posts 0-9, page 3 is posts 20-22, page 4 is empty |
| `Pagination.Range` | pages/index.js:71 | the integers from `lo` to `hi` in ascending order, one apart, with the matching count |
| `Pagination.VisiblePageNumbers` | pages/index.js:70-75 | the page-number list holds exactly the numbers in `[1, pageCount]` that lie in the window; it is strictly ascending and without gaps, and no longer than the window is wide or than the page count |
| `Pagination.PageNumbers` | pages/index.js:70-75 | the loop over 1 to `pageCount` that keeps the in-window numbers builds exactly that list |
| `Pagination.VisibleAtMostLimit` | pages/index.js:23 | with a full-width window at most five page-number buttons are shown |
| `Pagination.EmptyListLeavesNextEnabled` | pages/index.js:96 | an empty list has 0 pages and no page-number buttons, and Next is enabled on page 1 |
| `Navigation.AlignedCharacterization` | pages/index.js:23-26 | a state is aligned if and only if its window is the one computed from its page, and if and only if the window is full width, holds the page and starts one past a multiple of 5 |
| `Navigation.InitialAligned` | pages/index.js:24-26 | the initial state, page 1 in window [1,5], is aligned |
| `Navigation.StepsFollowWindowFor` | pages/index.js:39-53 | from an aligned state, Next and Prev (away from page 1) land on the window computed from the new page alone |
| `Navigation.NumberClickFollowsWindowFor` | pages/index.js:85-89 | a rendered page-number button is for a page between 1 and the page count, and clicking it lands on the window computed from that page |
| `Navigation.EnabledStepKeepsAligned` | pages/index.js:83-96 | a click on any enabled button keeps the window aligned |
| `Navigation.GuardedRunKeepsAligned` | pages/index.js:83-96 | any run of enabled clicks keeps the window aligned, whatever lists are swapped in between |
| `Navigation.ReachableWindowIsAligned` | pages/index.js:24-53 | every state reachable from the initial one by enabled clicks has the window computed from its page |
| `Navigation.GuardedRunStaysInRange` | pages/index.js:83-96 | while one list is shown, enabled clicks keep the page between 1 and the page count and the window aligned |
| `Navigation.ReachableStateOnOneList` | pages/index.js:70-96 | from the initial state, on one non-empty list, the page stays between 1 and the page count, inside a full-width window starting one past a multiple of 5, and always has its own button among at most five |
| `Navigation.EmptyListNextIsNeverDisabled` | pages/index.js:96 | while the list is empty, any number of Next clicks are all enabled and each moves on one page, so the page leaves the list's range of pages |

## Left out

- Fetching the job and story lists (`getJobs`, `getNewsStories`): network I/O, JSON parsing and `Promise.all` against an external API.
- React mechanics: `useState`, the `useEffect` dependency arrays, and handing the page slice to the parent through `setPagePosts`. The hooks are one explicit state value and the setters are pure transitions.
- Rendering, styles, `Head`, and the display of each post's title and link.
- Tab switching: it is present only as the page count each click carries, which may change between clicks without resetting the state.
- A page size of 0, which JavaScript turns into an `Infinity` or `NaN` page count; `PageCount` requires a positive page size, and the page always passes 10.
- JavaScript numbers are doubles; the model uses unbounded integers, so page numbers beyond 2^53 are not modelled.
- Pagination.PageData: for page numbers below 0, which only unguarded Prev clicks reach, the contract says only that the page holds at most `postsPerPage` posts; `slice` then counts back from the end of the list.
