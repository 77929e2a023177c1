/** The search form (src/components/SearchBar.tsx). */
module SearchBar {
  import opened Types
  import opened Text
  import opened PostApi
  import UsePosts

  datatype BarState = BarState(query: string, searchType: SearchType)

  /** What submitting the form does: alert on a blank query, otherwise
      call `onSearch`. */
  datatype Submission = BlankAlert | OnSearch(searchType: SearchType, query: string)

  /** The form on mount: empty query, the combined title/contents type. */
  function Initial(): (s: BarState)
    ensures s.query == "" && s.searchType == TitleContents
  {
    BarState("", TitleContents)
  }

  /** `handleSubmit`: a blank query only alerts; otherwise `onSearch`
      receives the selected type and the trimmed query. */
  function Submit(s: BarState): (r: Submission)
    ensures r.BlankAlert? <==> IsBlank(s.query)
    ensures r.OnSearch? ==> r.searchType == s.searchType && r.query == Trim(s.query)
  {
    if IsBlank(s.query) then BlankAlert else OnSearch(s.searchType, Trim(s.query))
  }

  /** The submit button is enabled iff no search is running and the query
      is not blank. */
  function SubmitEnabled(s: BarState, isSearching: bool): (r: bool)
    ensures r <==> !isSearching && exists i :: 0 <= i < |s.query| && !IsJsWhitespace(s.query[i])
  {
    !isSearching && !IsBlank(s.query)
  }

  /** An enabled button always leads to `onSearch`, with a query that is
      non-empty and has no whitespace at either end. */
  lemma EnabledSubmitSearches(s: BarState, isSearching: bool)
    ensures SubmitEnabled(s, isSearching) ==> Submit(s).OnSearch?
    ensures Submit(s).OnSearch? <==> SubmitEnabled(s, false)
    ensures Submit(s).OnSearch? ==>
              var q := Submit(s).query;
              q != [] && !IsJsWhitespace(q[0]) && !IsJsWhitespace(q[|q| - 1]) && Trim(q) == q
  {
    TrimIdempotent(s.query);
  }

  /** A search submitted through the form and handed to the hook's
      `handleSearch` starts on page 1, and the next load is a search
      request for exactly the submitted type and trimmed query. */
  lemma SubmittedSearchLoadsPageOne(s: BarState, h: UsePosts.HookState)
    requires Submit(s).OnSearch?
    ensures var sub := Submit(s);
      var h' := UsePosts.Search(h, sub.searchType, sub.query);
      && h'.currentPage == 1
      && UsePosts.LoadStart(h', h'.currentPage, None, None).1
           == UsePosts.SearchFetch(s.searchType, Trim(s.query), 1)
  {
    TrimIdempotent(s.query);
  }
}
