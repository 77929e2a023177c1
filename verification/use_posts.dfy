/** The `usePosts` hook (src/hooks/usePosts.ts): list/search mode
    selection, the failure reset, and the page and search setters, each
    as an atomic transition. `loadPosts` is split into its synchronous
    start (which chooses the request) and its two endings. */
module UsePosts {
  import opened Types
  import opened Text
  import opened ApiErrors
  import opened PostApi

  datatype HookState = HookState(
    posts: seq<PostLine>,
    pageState: Option<PageState>,
    isLoading: bool,
    error: Option<string>,
    currentPage: int,
    searchQuery: string,
    searchType: SearchType,
    isSearching: bool)

  /** The request `loadPosts` makes. */
  datatype Fetch = ListFetch(page: int) | SearchFetch(searchType: SearchType, query: string, page: int)

  const LoadFailedMessage := "게시글을 불러오는 데 실패했습니다."

  /** The hook's state on mount. */
  function Initial(): (s: HookState)
    ensures s.currentPage == 1 && s.searchQuery == "" && s.searchType == TitleContents
    ensures s.pageState.None? && s.posts == [] && s.isLoading && !s.isSearching
  {
    HookState([], None, true, None, 1, "", TitleContents, false)
  }

  /** `!!(q && q.trim())`: the query selects search mode. */
  function SearchMode(query: string): (r: bool)
    ensures r <==> exists i :: 0 <= i < |query| && !IsJsWhitespace(query[i])
  {
    query != "" && !IsBlank(query)
  }

  /** The synchronous part of `loadPosts(page, type?, query?)`: omitted
      arguments default to the hook's search type and query; the request
      is a search iff the query is non-blank, and the list otherwise. */
  function LoadStart(s: HookState, page: int, typeArg: Option<SearchType>, queryArg: Option<string>): (r: (HookState, Fetch))
    ensures r.0.isLoading && r.0.error.None?
    ensures r.0.isSearching <==> !IsBlank(if queryArg.Some? then queryArg.value else s.searchQuery)
    ensures r.1.SearchFetch? <==> r.0.isSearching
    ensures r.1.page == page
    ensures r.1.SearchFetch? ==> r.1.query == (if queryArg.Some? then queryArg.value else s.searchQuery)
    ensures r.1.SearchFetch? ==> r.1.searchType == (if typeArg.Some? then typeArg.value else s.searchType)
    ensures r.0.(isLoading := s.isLoading, error := s.error, isSearching := s.isSearching) == s
  {
    var searchType := match typeArg case Some(t) => t case None => s.searchType;
    var query := match queryArg case Some(q) => q case None => s.searchQuery;
    var searching := SearchMode(query);
    var fetch := if searching then SearchFetch(searchType, query, page) else ListFetch(page);
    (s.(isLoading := true, error := None, isSearching := searching), fetch)
  }

  /** A search request from the hook always reaches the network: the
      service's blank-query short-circuit never applies to it. */
  lemma LoadSearchIsAlwaysSent(s: HookState, page: int, typeArg: Option<SearchType>, queryArg: Option<string>)
    ensures var f := LoadStart(s, page, typeArg, queryArg).1;
      f.SearchFetch? ==> SearchPostsAPI(f.searchType, f.query, f.page) == Send(SearchPosts(f.searchType, f.query, f.page))
  {
  }

  /** `loadPosts` succeeding: posts and page state adopted, flags cleared. */
  function LoadSucceeded(s: HookState, data: PostsResponse): (r: HookState)
    ensures r.posts == data.postLines && r.pageState == Some(data.pageState)
    ensures !r.isLoading && !r.isSearching
    ensures r.currentPage == s.currentPage && r.searchQuery == s.searchQuery && r.error == s.error
  {
    s.(posts := data.postLines, pageState := Some(data.pageState), isLoading := false, isSearching := false)
  }

  /** `err.backendMessage || default`. */
  function FailureText(t: Thrown): (m: string)
    ensures t.ApiFailure? && t.error.backendMessage != "" ==> m == t.error.backendMessage
    ensures !(t.ApiFailure? && t.error.backendMessage != "") ==> m == LoadFailedMessage
  {
    match t
    case ApiFailure(e) => if e.backendMessage != "" then e.backendMessage else LoadFailedMessage
    case _ => LoadFailedMessage
  }

  /** `loadPosts` failing: the error text, no posts, no page state, flags
      cleared. */
  function LoadFailed(s: HookState, t: Thrown): (r: HookState)
    ensures r.error == Some(FailureText(t)) && r.posts == [] && r.pageState.None?
    ensures !r.isLoading && !r.isSearching
    ensures r.currentPage == s.currentPage && r.searchQuery == s.searchQuery && r.searchType == s.searchType
  {
    s.(error := Some(FailureText(t)), posts := [], pageState := None, isLoading := false, isSearching := false)
  }

  /** A rejected response shows the backend's body text when it sent one
      and the call's own default message otherwise; the hook's generic
      message is never reached for a rejected response. */
  lemma RejectedLoadShowsBackendText(s: HookState, call: Call, status: int, body: Option<string>)
    requires !Accepts(call, status)
    ensures var e := Complete(call, status, body).error;
      && LoadFailed(s, ApiFailure(e)).error ==
           Some(if body.Some? && body.value != "" then body.value else DefaultMessage(call))
  {
    var e := Complete(call, status, body).error;
    assert DefaultMessage(call) != "";
  }

  /** `handlePageChange(p)`: the page is set with no range check. */
  function PageChange(s: HookState, p: int): (r: HookState)
    ensures r.currentPage == p && r.(currentPage := s.currentPage) == s
  {
    s.(currentPage := p)
  }

  /** `handleSearch(type, query)`: type and query set, back to page 1. */
  function Search(s: HookState, searchType: SearchType, query: string): (r: HookState)
    ensures r.searchType == searchType && r.searchQuery == query && r.currentPage == 1
    ensures r.posts == s.posts && r.pageState == s.pageState && r.error == s.error
  {
    s.(searchType := searchType, searchQuery := query, currentPage := 1)
  }
}
