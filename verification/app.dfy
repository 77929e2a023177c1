/** The list view's state machine in src/App.tsx. Every handler is an
    atomic transition; a fetch the handler starts itself is returned next
    to the new state, and the fetch the `[currentPage, viewMode]` effect
    starts after a render is computed separately by `ListEffect`. The
    request itself and its answer are separate steps (FetchStart, then
    FetchSucceeded or FetchFailed). */
module App {
  import opened Types
  import Pagination

  datatype ViewMode = List | Detail | New

  datatype AppState = AppState(
    postLines: seq<PostLine>,
    pageState: PageState,
    isLoading: bool,
    error: Option<string>,
    currentPage: int,
    viewMode: ViewMode,
    selectedPostId: Option<int>)

  /** A transition's new state and the page the handler fetches directly,
      if any. */
  datatype Step = Step(state: AppState, fetch: Option<int>)

  /** `initialPageState`: no pages, an empty block. */
  const InitialPageState := PageState(1, 0, 1, 1, 1, 0)

  const FetchFailedMessage := "게시글을 불러오는데 실패했습니다. 잠시 후 다시 시도해주세요."

  /** The state on mount. */
  function Initial(): (s: AppState)
    ensures s.currentPage == 1 && s.viewMode == List && s.pageState.totalPages == 0
  {
    AppState([], InitialPageState, true, None, 1, List, None)
  }

  /** The `[currentPage, viewMode]` effect: after a transition that changes
      either, a list view fetches its current page. */
  function ListEffect(before: AppState, after: AppState): (r: Option<int>)
    ensures r.Some? <==> (after.viewMode == List && (before.currentPage != after.currentPage || before.viewMode != after.viewMode))
    ensures r.Some? ==> r.value == after.currentPage
  {
    if after.viewMode == List && (before.currentPage != after.currentPage || before.viewMode != after.viewMode)
    then Some(after.currentPage)
    else None
  }

  /** The same effect on the first render, where React runs it whatever
      the dependencies: a list view fetches its current page. */
  function MountEffect(s: AppState): (r: Option<int>)
    ensures r.Some? <==> s.viewMode == List
    ensures r.Some? ==> r.value == s.currentPage
  {
    if s.viewMode == List then Some(s.currentPage) else None
  }

  /** The app's first fetch is the mount run of the effect, for page 1. */
  lemma FirstRenderFetchesPageOne()
    ensures MountEffect(Initial()) == Some(1)
  {
  }

  /** The synchronous start of `fetchPosts`. */
  function FetchStart(s: AppState): (r: AppState)
    ensures r.isLoading && r.error.None?
    ensures r.(isLoading := s.isLoading, error := s.error) == s
  {
    s.(isLoading := true, error := None)
  }

  /** A successful `fetchPosts`: the server's page state is adopted and the
      current page follows the page the server reports. */
  function FetchSucceeded(s: AppState, response: PostsResponse): (r: AppState)
    ensures r.postLines == response.postLines && r.pageState == response.pageState
    ensures r.currentPage == response.pageState.currentPage
    ensures !r.isLoading && r.error == s.error
    ensures r.viewMode == s.viewMode && r.selectedPostId == s.selectedPostId
  {
    s.(postLines := response.postLines, pageState := response.pageState,
       currentPage := response.pageState.currentPage, isLoading := false)
  }

  /** A failed `fetchPosts`: error set, list emptied, page state reset;
      the current page is kept. */
  function FetchFailed(s: AppState): (r: AppState)
    ensures r.error == Some(FetchFailedMessage) && r.postLines == [] && r.pageState == InitialPageState
    ensures !r.isLoading && r.currentPage == s.currentPage
    ensures r.viewMode == s.viewMode && r.selectedPostId == s.selectedPostId
  {
    s.(error := Some(FetchFailedMessage), postLines := [], pageState := InitialPageState, isLoading := false)
  }

  /** `handlePageChange(p)`: the only range check on the way from a page
      button to a request. */
  function PageChange(s: AppState, p: int): (r: AppState)
    ensures r.currentPage == p || r == s
    ensures r != s ==> 1 <= p <= s.pageState.totalPages
    ensures 1 <= p <= s.pageState.totalPages ==> r == s.(currentPage := p)
  {
    if 1 <= p <= s.pageState.totalPages then s.(currentPage := p) else s
  }

  /** Until a fetch succeeds every page change is rejected, and after a
      failed fetch it is rejected again. */
  lemma PageChangeInertWithoutPages(s: AppState, p: int)
    ensures PageChange(Initial(), p) == Initial()
    ensures PageChange(FetchFailed(s), p) == FetchFailed(s)
  {
  }

  /** A page change never moves the list to a page outside 1..totalPages. */
  lemma PageChangeStaysInRange(s: AppState, p: int)
    requires 1 <= s.currentPage <= s.pageState.totalPages
    ensures 1 <= PageChange(s, p).currentPage <= s.pageState.totalPages
  {
  }

  /** In a list with a well-formed page state, a click on any rendered page
      button moves to that page, and a block jump is followed exactly when
      its target is a real page. */
  lemma RenderedClicksNavigate(s: AppState, c: Pagination.Control)
    requires s.pageState.totalPages > 1
    requires 1 <= s.pageState.startPage && s.pageState.endPage <= s.pageState.totalPages
    ensures var v := Pagination.Render(s.pageState, s.pageState.totalPages).value;
      var target := Pagination.Click(v, c);
      && (target.Some? && (c.PageAt? || 1 <= target.value <= s.pageState.totalPages) ==>
            PageChange(s, target.value) == s.(currentPage := target.value))
      && (target.Some? && !(1 <= target.value <= s.pageState.totalPages) ==>
            !c.PageAt? && PageChange(s, target.value) == s)
  {
    var v := Pagination.Render(s.pageState, s.pageState.totalPages).value;
    if c.PageAt? && c.index < |v.buttons| {
      assert v.buttons[c.index].number == s.pageState.startPage + c.index;
    }
  }

  function NewPostClick(s: AppState): (r: AppState)
    ensures r.viewMode == New && r.(viewMode := s.viewMode) == s
  {
    s.(viewMode := New)
  }

  function CancelNewPost(s: AppState): (r: AppState)
    ensures r.viewMode == List && r.(viewMode := s.viewMode) == s
  {
    s.(viewMode := List)
  }

  /** `handleSubmitNewPost`: back to the list on page 1; the handler fetches
      page 1 itself only when it is already on page 1. */
  function SubmitNewPost(s: AppState): (r: Step)
    ensures r.state.viewMode == List && r.state.currentPage == 1
    ensures r.fetch.Some? <==> s.currentPage == 1
    ensures r.fetch.Some? ==> r.fetch.value == 1
  {
    if s.currentPage != 1 then Step(s.(viewMode := List, currentPage := 1), None)
    else Step(s.(viewMode := List), Some(1))
  }

  /** Submitting from the new-post form always requests page 1: through
      the effect when the page changes, and through both the handler and
      the effect (page 1 twice) when it was already page 1. */
  lemma SubmitNewPostRequestsPageOne(s: AppState)
    requires s.viewMode == New
    ensures ListEffect(s, SubmitNewPost(s).state) == Some(1)
    ensures SubmitNewPost(s).fetch.Some? <==> s.currentPage == 1
  {
  }

  /** `handlePostClick(id)`: select the post and show its detail. */
  function PostClick(s: AppState, postId: int): (r: AppState)
    ensures r.selectedPostId == Some(postId) && r.viewMode == Detail
    ensures r.currentPage == s.currentPage && r.pageState == s.pageState && r.postLines == s.postLines
  {
    s.(selectedPostId := Some(postId), viewMode := Detail)
  }

  /** `handleBackToList`: clear the selection, return to the list, and
      fetch the current page directly iff the list is empty, there is an
      error, or the loaded page is not the current one. */
  function BackToList(s: AppState): (r: Step)
    ensures r.state.viewMode == List && r.state.selectedPostId.None?
    ensures r.state.currentPage == s.currentPage
    ensures r.fetch.Some? <==> |s.postLines| == 0 || s.error.Some? || s.pageState.currentPage != s.currentPage
    ensures r.fetch.Some? ==> r.fetch.value == s.currentPage
  {
    var fetch := if |s.postLines| == 0 || s.error.Some? || s.pageState.currentPage != s.currentPage
      then Some(s.currentPage) else None;
    Step(s.(viewMode := List, selectedPostId := None), fetch)
  }

  /** Leaving the detail view always refetches the current page through
      the effect, whether or not the handler fetched it too. */
  lemma BackToListAlwaysRefetches(s: AppState)
    requires s.viewMode == Detail
    ensures ListEffect(s, BackToList(s).state) == Some(s.currentPage)
  {
  }

  /** `handlePostUpdated`: refetch only when the list is showing. */
  function PostUpdated(s: AppState): (r: Step)
    ensures r.state == s
    ensures r.fetch.Some? <==> s.viewMode == List
    ensures r.fetch.Some? ==> r.fetch.value == s.currentPage
  {
    Step(s, if s.viewMode == List then Some(s.currentPage) else None)
  }

  /** The pagination is rendered only for a loaded, error-free, non-empty
      list. */
  predicate ShowsPagination(s: AppState)
  {
    s.viewMode == List && !s.isLoading && s.error.None? && |s.postLines| > 0
  }

  /** No pagination before the first answer or after a failed fetch. */
  lemma NoPaginationWithoutData(s: AppState)
    ensures !ShowsPagination(Initial())
    ensures !ShowsPagination(FetchStart(s))
    ensures !ShowsPagination(FetchFailed(s))
  {
  }

  /** The detail view always has a post to show; while this holds the
      fallback branch of `renderContent` (detail with no selection) is
      never taken. */
  predicate SelectionConsistent(s: AppState)
  {
    s.viewMode == Detail ==> s.selectedPostId.Some?
  }

  /** Every transition keeps the selection consistent, starting from the
      initial state. */
  lemma SelectionStaysConsistent(s: AppState, p: int, postId: int, response: PostsResponse)
    requires SelectionConsistent(s)
    ensures SelectionConsistent(Initial())
    ensures SelectionConsistent(FetchStart(s)) && SelectionConsistent(FetchSucceeded(s, response))
    ensures SelectionConsistent(FetchFailed(s)) && SelectionConsistent(PageChange(s, p))
    ensures SelectionConsistent(NewPostClick(s)) && SelectionConsistent(CancelNewPost(s))
    ensures SelectionConsistent(SubmitNewPost(s).state) && SelectionConsistent(PostClick(s, postId))
    ensures SelectionConsistent(BackToList(s).state) && SelectionConsistent(PostUpdated(s).state)
  {
  }
}
