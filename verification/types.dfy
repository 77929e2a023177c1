/** Shared data model of the board client (src/types.ts): the flat comment,
    the page-state descriptor sent by the backend, and the small sum types
    used for optional values and call outcomes. */
module Types {

  /** An absent or present value; `null`/`undefined` in the source are None. */
  datatype Option<+T> = None | Some(value: T)

  /** The outcome of a call that either produces a value or throws. */
  datatype Result<+R, +E> = Success(value: R) | Failure(error: E)

  /** A comment in flat form, as the backend delivers it. A `null`
      parentId is None. */
  datatype Comment = Comment(id: int, postId: int, contents: string, parentId: Option<int>)

  /** The pagination descriptor the backend returns with every list page. */
  datatype PageState = PageState(
    startPage: int,
    endPage: int,
    currentPage: int,
    prevBlockPage: int,
    nextBlockPage: int,
    totalPages: int)

  /** One row of the post list. */
  datatype PostLine = PostLine(postId: int, postTitle: string, commentCount: int)

  /** The body of a list or search response. */
  datatype PostsResponse = PostsResponse(postLines: seq<PostLine>, pageState: PageState)

  /** The comment requests the views send to the backend. */
  datatype CommentRequest =
    | CreateComment(contents: string, parentId: Option<int>)
    | UpdateComment(commentId: int, newContents: string)
    | DeleteComment(commentId: int)

  /** The set of ids occurring in a flat comment list. */
  function Ids(cs: seq<Comment>): set<int>
  {
    set c | c in cs :: c.id
  }

  /** No two comments of the list share an id (the backend's uniqueness promise). */
  predicate DistinctIds(cs: seq<Comment>)
  {
    forall i, j :: 0 <= i < j < |cs| ==> cs[i].id != cs[j].id
  }
}
