/** The request/response rules of src/services/post.api.ts, without the
    transport: which statuses each call accepts, the default message of
    each failure, and the client-side short-circuit of blank searches. */
module PostApi {
  import opened Types
  import opened Text
  import opened ApiErrors
  import opened ApiClient

  /** `SearchType`. */
  datatype SearchType = Title | Contents | TitleContents

  /** The query-string value of a search type. */
  function SearchTypeName(t: SearchType): string
  {
    match t
    case Title => "title"
    case Contents => "contents"
    case TitleContents => "title_contents"
  }

  /** The search type a string names, if it names one. */
  function ParseSearchType(s: string): (r: Option<SearchType>)
    ensures r.Some? <==> s == "title" || s == "contents" || s == "title_contents"
    ensures r.Some? ==> SearchTypeName(r.value) == s
  {
    if s == "title" then Some(Title)
    else if s == "contents" then Some(Contents)
    else if s == "title_contents" then Some(TitleContents)
    else None
  }

  /** Every search type has its own name and is recovered from it. */
  lemma SearchTypeRoundTrip(t: SearchType)
    ensures ParseSearchType(SearchTypeName(t)) == Some(t)
  {
  }

  /** The calls of the post service. */
  datatype Call =
    | FetchPosts(page: int)
    | FetchPostDetail(postId: int)
    | UpdatePost(postId: int)
    | DeletePost(postId: int)
    | CreatePost
    | SearchPosts(searchType: SearchType, query: string, page: int)

  /** `response.ok`: a 2xx status. */
  predicate ResponseOk(status: int)
  {
    200 <= status <= 299
  }

  /** Whether a call returns normally for a response status: create wants
      exactly 201, delete takes an ok response or 204, the others an ok
      response. */
  function Accepts(call: Call, status: int): (r: bool)
    ensures r ==> ResponseOk(status)
    ensures call.CreatePost? ==> (r <==> status == 201)
    ensures !call.CreatePost? ==> (r <==> 200 <= status < 300)
  {
    match call
    case CreatePost => status == 201
    case DeletePost(_) => ResponseOk(status) || status == 204
    case _ => ResponseOk(status)
  }

  /** The default message each call hands to `handleApiResponseError`. */
  function DefaultMessage(call: Call): string
  {
    match call
    case FetchPosts(_) => "게시글 목록을 불러오는 데 실패했습니다."
    case FetchPostDetail(id) => "ID " + DecimalString(id) + " 게시글 상세 정보를 불러오는 데 실패했습니다."
    case UpdatePost(id) => "ID " + DecimalString(id) + " 게시글 수정에 실패했습니다."
    case DeletePost(id) => "ID " + DecimalString(id) + " 게시글 삭제에 실패했습니다."
    case CreatePost => "게시글 생성에 실패했습니다."
    case SearchPosts(_, _, _) => "게시글 검색에 실패했습니다."
  }

  /** How a sent call ends for a response status and body read: it returns,
      or it throws the `ApiError` built from the response. */
  function Complete(call: Call, status: int, body: Option<string>): (r: Result<(), ApiError>)
    ensures r.Success? <==> Accepts(call, status)
    ensures r.Failure? ==> r.error.statusCode == status && r.error.message == DefaultMessage(call)
    ensures r.Failure? && body.Some? && body.value != "" ==> r.error.backendMessage == body.value
  {
    if Accepts(call, status) then Success(())
    else Failure(HandleApiResponseError(status, body, DefaultMessage(call)))
  }

  /** Delete's extra 204 test adds nothing: 204 is already an ok status. */
  lemma DeleteAcceptsExactlyOk(id: int, status: int)
    ensures Accepts(DeletePost(id), status) <==> ResponseOk(status)
  {
  }

  /** Create is stricter than every other call: a 200, or any ok status
      other than 201, is an error. */
  lemma CreateRejectsOtherOk(status: int)
    ensures Accepts(CreatePost, status) ==> ResponseOk(status)
    ensures ResponseOk(status) && status != 201 ==> !Accepts(CreatePost, status)
  {
  }

  /** The page state a blank search answers with. */
  const EmptySearchPageState := PageState(1, 0, 1, 1, 0, 0)

  /** What `searchPostsAPI` does before any network activity: answer
      immediately, or send the request. */
  datatype SearchStart = Immediate(response: PostsResponse) | Send(call: Call)

  /** `searchPostsAPI(type, query, page)`: a query that is blank after
      trimming is answered with an empty page and no request; any other
      query is sent as typed. */
  function SearchPostsAPI(searchType: SearchType, query: string, page: int): (r: SearchStart)
    ensures r.Immediate? <==> IsBlank(query)
    ensures r.Immediate? ==>
              && r.response.postLines == []
              && r.response.pageState.currentPage == 1 && r.response.pageState.totalPages == 0
              && r.response.pageState.startPage == 1 && r.response.pageState.endPage == 0
              && r.response.pageState.prevBlockPage == 1 && r.response.pageState.nextBlockPage == 0
    ensures r.Send? ==> r.call == SearchPosts(searchType, query, page)
  {
    if IsBlank(query) then Immediate(PostsResponse([], EmptySearchPageState))
    else Send(SearchPosts(searchType, query, page))
  }
}
