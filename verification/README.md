# SuperBoard-FE core, modelled in Dafny

SuperBoard-FE is the React front end of a small bulletin board. Its list
view shows a page of posts with a block-based pagination bar. Its detail
view shows a post with a comment thread. The thread is one level deep:
top-level comments, and replies to them.

This project models the logic behind those views:

- **`buildCommentTree`** turns the flat comment list from the backend into
  a forest. Module `CommentUtils`.
- **The comment thread.** It keeps an authoritative flat list, patches it
  locally after create, edit and delete, and rebuilds the tree each time.
  Module `CommentList`.
- **Each comment item.** It decides what is drawn at which level and
  handles edit, delete and reply. Module `CommentItem`.
- **The pagination bar.** This covers the window of page buttons, the
  block-jump buttons and the corner-rounding rules. Module `Pagination`.
- **The list/detail/new state machine of the main screen.** Module `App`.
- **The `usePosts` hook.** Module `UsePosts`.
- **The post service's status rules and its blank-search short-circuit.**
  Module `PostApi`.
- **Error construction.** This covers `handleApiResponseError` and the
  `ApiError` class. Modules `ApiClient` and `ApiErrors`.
- **The search bar's submit.** Module `SearchBar`.

Shared pieces live in three modules:

- `Types` holds comments, page state, post lines and the comment requests
  a handler can issue.
- `Text` holds JavaScript's `String.prototype.trim`, over the ECMAScript
  WhiteSpace and LineTerminator code points.
- `Sequences` defines a subsequence relation.

How the model represents the program:

- **The comment tree.** In JavaScript the tree is a set of shared node
  objects. Here it is an arena: `Forest(roots, nodes)`, where `nodes` maps
  each comment id to its comment and its ordered child ids.
- **The reference definition.** `BuildTree` states declaratively which ids
  are roots and which are children of which node, in list order. The
  imperative two-pass `BuildCommentTree` method is proved to compute
  exactly `BuildTree`.
- **Truthiness.** The parent test keeps JavaScript truthiness: a
  `parentId` of `0` counts as "no parent" (`HasParent`).
- **Duplicate ids.** When ids repeat, the later comment overwrites the
  earlier one in the id map (`Find` picks the last one). The roots and
  children lists still mention every occurrence.
- **React handlers.** Every handler is a pure function from state to
  state. A handler that talks to the backend returns the request it would
  send, as a value. The awaited answer is a separate transition, on
  success or on failure.
- **The `[currentPage, viewMode]` effect of `App`.** React runs it on the
  first render and again whenever a dependency changes. `App.MountEffect`
  is the first run; `App.ListEffect(before, after)` says whether every
  later render triggers a fetch.
- **HTTP responses.** Reduced to a status code and an optional body text.
  A thrown value is an `ApiError`, some other `Error` with a message, or a
  non-`Error` (`ApiErrors.Thrown`).

Three behaviours of the code worth knowing:

- **Comment order.** A created comment or reply is put in front of the
  flat list (`[newComment, ...flatComments]`), not appended.
- **Corner caps.** A page button's corner classes follow the exact
  expression in the component. A cap appears only on the start or end
  button, and depends on whether the block-jump target lies inside the
  window.
- **Navigation.** The pagination component offers block jumps and page
  buttons only; there is no input for jumping to a typed page number.

## Model

| member | source | states |
|---|---|---|
| CommentUtils.BuildTree | src/utils/commentUtils.ts:3-23 | the forest has one node per distinct id of the input, never more roots than comments, and nothing for an empty list |
| CommentUtils.IndexById | src/utils/commentUtils.ts:8-10 | the first pass maps every id to a childless node holding the last comment with that id |
| CommentUtils.BuildCommentTree | src/utils/commentUtils.ts:3-23 | the two-pass loop builds exactly the reference forest: roots and children in input order, with the truthy-parent test of line 15 |
| CommentUtils.Find | src/utils/commentUtils.ts:8-10 | the comment stored for an id is one of the input comments carrying that id |
| CommentUtils.FindLastWins | src/utils/commentUtils.ts:8-10 | later writes win: the stored comment is at or after any comment with that id, and no later comment carries the id |
| CommentUtils.HasParent | src/utils/commentUtils.ts:15 | the parent test is false exactly for the falsy parent ids, null and 0 |
| CommentUtils.LinkComment | src/utils/commentUtils.ts:14-19 | the body of the second pass keeps the invariant: after each comment the arena holds exactly the links the reference forest makes from the scanned prefix |
| CommentUtils.LinkStep | src/utils/commentUtils.ts:14-19 | one iteration pushes the comment under its parent when the parent id is truthy and known, and onto the roots otherwise |
| CommentUtils.MapStep | src/utils/commentUtils.ts:9 | one first-pass write adds the id, and a later comment with the same id overwrites the earlier one |
| CommentUtils.LinkStart | src/utils/commentUtils.ts:5 | before the second pass nothing is linked and the root list is empty |
| CommentUtils.LinkedAll | src/utils/commentUtils.ts:22 | after the last comment the links are the finished forest |
| CommentUtils.SelectSnoc | src/utils/commentUtils.ts:13-20 | scanning one more comment appends its id to exactly the one list it is pushed to |
| CommentUtils.SelectMembers | src/utils/commentUtils.ts:15-19 | an id is in a push list iff some scanned comment with that id satisfies the push condition |
| CommentUtils.SelectNone | src/utils/commentUtils.ts:15-19 | a push list is empty when no scanned comment satisfies its condition |
| CommentUtils.SelectInOrder | src/utils/commentUtils.ts:13-20 | every push list keeps the input order: it is a subsequence of the input ids |
| CommentUtils.SelectCons | src/utils/commentUtils.ts:13-20 | a comment placed in front of the input lands in front of its push list |
| CommentUtils.SelectCongruent | src/utils/commentUtils.ts:13-20 | two inputs with the same ids and the same push decisions at every position give the same push list |
| CommentUtils.SameIdSameComment | src/utils/commentUtils.ts:8-10 | with distinct ids, a comment is determined by its id |
| CommentUtils.RootsExact | src/utils/commentUtils.ts:15-18 | with distinct ids, a comment is a root iff its parent id is missing, 0, or not an id of the list; roots keep input order |
| CommentUtils.ChildrenExact | src/utils/commentUtils.ts:15-16 | with distinct ids, a comment is a child of p iff its parent id is p and p is truthy; children keep input order |
| CommentUtils.NodesCarryComments | src/utils/commentUtils.ts:9 | with distinct ids, every comment's node carries that very comment |
| CommentUtils.ZeroParentIsRoot | src/utils/commentUtils.ts:15 | a parent id of 0 is falsy: such a comment is a root, and a comment with id 0 never gets children |
| CommentUtils.SelfParentNeverRoot | src/utils/commentUtils.ts:15-16 | a comment with a non-zero id naming itself as parent is not a root but a child of its own node |
| CommentUtils.ChildTotalSnoc | src/utils/commentUtils.ts:13-20 | scanning one more comment adds exactly the number of nodes it is pushed under |
| CommentUtils.ParentCountDistinct | src/utils/commentUtils.ts:15-16 | with distinct ids a comment is pushed under one node if it links into the map, under none otherwise |
| CommentUtils.PlacementCount | src/utils/commentUtils.ts:13-20 | with distinct ids, roots plus child links of any scanned prefix equal its length |
| CommentUtils.ChildTotalNothingLinked | src/utils/commentUtils.ts:5 | nothing is linked before the second pass starts |
| CommentUtils.ForestChildCountIsTotal | src/utils/commentUtils.ts:13-20 | the children lists of the forest hold exactly the links the second pass created |
| CommentUtils.PlacedExactlyOnce | src/utils/commentUtils.ts:3-23 | with distinct ids, every comment is placed exactly once: roots plus all children equal the input length |
| CommentList.Mount | src/components/CommentList.tsx:14-23 | after mount, the flat list is the prop, the tree is its rebuild, and the form is empty |
| CommentList.InitialCommentsChanged | src/components/CommentList.tsx:20-23 | a new prop replaces the flat list and rebuilds the tree, and the draft and error stay |
| CommentList.ReplaceById | src/components/CommentList.tsx:53 | every entry with the edited id becomes the edited comment, every other entry is untouched, and the length is kept |
| CommentList.RemoveById | src/components/CommentList.tsx:60 | a comment survives the filter iff it was in the list and its id differs |
| CommentList.RemoveCounts | src/components/CommentList.tsx:60 | the filter keeps every entry with another id exactly as often as it occurs, and none with the removed id |
| CommentList.RemoveSnoc | src/components/CommentList.tsx:60 | filtering commutes with extending the list at the back |
| CommentList.RemoveKeepsOrder | src/components/CommentList.tsx:60 | the filter keeps the survivors in their order |
| CommentList.RemoveKeepsDistinct | src/components/CommentList.tsx:60 | the filter keeps distinct ids distinct |
| CommentList.DistinctCons | src/components/CommentList.tsx:26 | a comment with a fresh id put in front keeps ids distinct |
| CommentList.Created | src/components/CommentList.tsx:25-30 | the new comment is first and the old list follows unchanged; the tree is the rebuild, and the parent is told the new list |
| CommentList.Updated | src/components/CommentList.tsx:52-57 | position by position, entries with the edited id become the edit and the others stay; the tree is rebuilt and the parent told |
| CommentList.Deleted | src/components/CommentList.tsx:59-64 | exactly the comments with other ids survive, each as often as before and in their order; the tree is rebuilt and the parent told |
| CommentList.SubmitNew | src/components/CommentList.tsx:32-39 | a blank draft sets the error and sends nothing; any other draft requests a top-level comment with the draft as typed |
| CommentList.SubmitSucceeded | src/components/CommentList.tsx:40-43 | the created comment is prepended as on create, and the draft is cleared |
| CommentList.SubmitFailed | src/components/CommentList.tsx:44-49 | the error is the thrown Error's message or the fallback, and list and draft are kept |
| CommentList.HeaderCount | src/components/CommentList.tsx:68 | the header count, the flat list's length, is with distinct ids the number of nodes the tree places |
| CommentList.HeaderCountMatchesTree | src/components/CommentList.tsx:68 | with distinct ids, the header count equals the number of nodes the tree places, roots plus children |
| CommentList.RootsIgnoreUnreferencedId | src/utils/commentUtils.ts:15 | adding an id that no comment names as parent changes no root |
| CommentList.ReplyBecomesFirstChild | src/components/CommentList.tsx:25-30 | a created reply under a comment with a non-zero id becomes its first child, and the roots stay as they were |
| CommentList.TopLevelCommentBecomesFirstRoot | src/components/CommentList.tsx:25-30 | a created top-level comment becomes the first root |
| CommentList.ReplyIsShownUnderItsRoot | src/components/CommentItem.tsx:76-98 | a reply sent from a top-level item, once created, is drawn one level below that item |
| CommentList.ReplyToCommentZeroIsTopLevel | src/components/CommentItem.tsx:85-88 | a reply to a comment whose id is 0 carries a falsy parent id and is drawn as a top-level comment |
| CommentList.DeleteOrphansBecomeRoots | src/components/CommentList.tsx:59-64 | after a delete the deleted comment's replies are roots, and the deleted id has no node |
| CommentList.EditKeepsShape | src/components/CommentList.tsx:52-57 | an edit that keeps the parent keeps the roots, the node ids and every children list, and the edited node carries the edit |
| CommentList.EditKeepsLinks | src/components/CommentList.tsx:53 | such an edit keeps every entry's id and parent id |
| CommentList.EditStoresComment | src/components/CommentList.tsx:53-55 | after an edit, the tree's node for the edited id holds the edited comment |
| CommentList.SameIdsPointwise | src/components/CommentList.tsx:53 | lists with the same id at each position have the same id set |
| CommentList.FindUnique | src/utils/commentUtils.ts:8-10 | when every entry with an id equals u, the map holds u for that id |
| CommentList.MutationsKeepIdsDistinct | src/components/CommentList.tsx:25-64 | create with a fresh id, edit and delete all keep ids distinct |
| CommentList.ReplaceKeepsDistinct | src/components/CommentList.tsx:53 | an edit keeps every id in place, so distinct ids stay distinct |
| CommentList.SavedEditShowsInPlace | src/components/CommentItem.tsx:43-44 | an item's saved edit, echoed with the same id and parent, keeps the roots and nodes of the thread and shows the new text at that node |
| CommentList.ConfirmedDeleteRemovesComment | src/components/CommentItem.tsx:55-60 | a confirmed delete requests this comment's removal; once applied, the comment and its node are gone and its replies are roots |
| CommentItem.Initial | src/components/CommentItem.tsx:15-22 | a fresh item is not editing, its edit box holds the comment text, and its reply form is closed and empty |
| CommentItem.MarginLeft | src/components/CommentItem.tsx:100 | the indent is a multiple of 25 pixels, 25 per level |
| CommentItem.RenderItem | src/components/CommentItem.tsx:149-163 | an item draws itself first, adds only items one level deeper, and below level 0 draws nothing but itself |
| CommentItem.RenderAll | src/components/CommentItem.tsx:151 | mapping over ids draws at least one item per id, at the given level or one deeper, and only the given ids below level 0 |
| CommentItem.Visible | src/components/CommentList.tsx:100-110 | the thread draws at least every root and nothing deeper than level 1 |
| CommentItem.RenderAllBelowTop | src/components/CommentItem.tsx:149-163 | below level 0 an item draws itself and none of its children |
| CommentItem.RenderAllTop | src/components/CommentItem.tsx:149-163 | from level 0 exactly the given ids are drawn at level 0 and exactly their children at level 1, and nothing deeper |
| CommentItem.VisibleShape | src/components/CommentList.tsx:100-110 | the thread draws roots at level 0 with margin 0 and their children at level 1 with margin 25, and nothing else |
| CommentItem.RootComment | src/utils/commentUtils.ts:17-18 | every root id belongs to a comment that does not link into the list |
| CommentItem.GrandchildHidden | src/components/CommentItem.tsx:149 | a reply whose parent itself links into the list is drawn nowhere |
| CommentItem.RootOrChildOfRootShown | src/components/CommentItem.tsx:149-163 | a root, or a comment whose parent is a root, is drawn |
| CommentItem.VisibleIffRootOrChildOfRoot | src/components/CommentItem.tsx:149-163 | with distinct ids, a comment is drawn iff it is a root or a reply to a root |
| CommentItem.StartEdit | src/components/CommentItem.tsx:24-28 | editing starts with the comment's current text and no error |
| CommentItem.CancelEdit | src/components/CommentItem.tsx:30-33 | cancel leaves edit mode and clears the error but keeps the typed text |
| CommentItem.Save | src/components/CommentItem.tsx:35-43 | a blank edit sets the error and sends nothing; any other edit requests the update of this comment with the text as typed |
| CommentItem.SaveSucceeded | src/components/CommentItem.tsx:44-50 | a saved edit leaves edit mode |
| CommentItem.SaveFailed | src/components/CommentItem.tsx:46-51 | a failed save stays in edit mode and shows the Error's message or the fallback |
| CommentItem.Delete | src/components/CommentItem.tsx:54-58 | the delete request is sent iff the user confirms, and nothing changes otherwise |
| CommentItem.DeleteSettled | src/components/CommentItem.tsx:59-67 | a failed delete shows the Error's message or the fallback; the loading flag is always cleared |
| CommentItem.ToggleReplyForm | src/components/CommentItem.tsx:70-74 | the reply form flips and its text and error are cleared |
| CommentItem.ReplyFormShown | src/components/CommentItem.tsx:129 | the reply form is drawn iff it is toggled on and the item has no indent, that is, sits at level 0 |
| CommentItem.SubmitReply | src/components/CommentItem.tsx:76-88 | a reply is requested iff the form is shown on a level-0 item and the text is not blank, with this comment as parent |
| CommentItem.ReplySucceeded | src/components/CommentItem.tsx:89-96 | a sent reply closes and empties the form |
| CommentItem.ReplyFailed | src/components/CommentItem.tsx:92-97 | a failed reply keeps the form and shows the Error's message or the fallback |
| Pagination.PageNumbers | src/components/Pagination.tsx:13-16 | the window is the consecutive pages from start to end, empty when start exceeds end |
| Pagination.ButtonFor | src/components/Pagination.tsx:39-44 | a button shows its page, is current iff that page is current, is fully rounded iff alone, gets a left cap only on the start page and a right cap only on the end page, and always gets the cap at page 1 and at the last page |
| Pagination.Render | src/components/Pagination.tsx:10-61 | nothing is drawn for at most one page; otherwise the previous-block jump appears iff start > 1, the next-block jump iff end < total, and one button per window page in order |
| Pagination.Click | src/components/Pagination.tsx:28-51 | each control hands its page or its block target to the page-change handler |
| Pagination.ButtonsAreWindow | src/components/Pagination.tsx:13-16 | the buttons show exactly the pages from start to end, strictly increasing |
| Pagination.CurrentMarker | src/components/Pagination.tsx:39-44 | a button is highlighted iff it is the current page; at most one is, and one is iff the current page is in the window |
| Pagination.CornerCaps | src/components/Pagination.tsx:42 | a lone button is fully rounded; otherwise a left cap sits only on the start button, iff the block starts at page 1 or the previous target is outside the window, and symmetrically on the right |
| Pagination.CapsOnEndsOfUsualBlock | src/components/Pagination.tsx:42 | for a block with neighbours on both sides, the first button gets the left cap, the last the right, and none in between |
| App.Initial | src/App.tsx:13-29 | the screen starts in list mode on page 1 with no pages known |
| App.ListEffect | src/App.tsx:49-53 | every render after the first fetches iff the view is the list and the page or the view changed, and then it fetches the current page |
| App.MountEffect | src/App.tsx:49-53 | on the first render the effect fetches iff the view is the list, and then the current page |
| App.FirstRenderFetchesPageOne | src/App.tsx:27-53 | the app's first fetch is the mount run of the effect, for page 1 |
| App.FetchStart | src/App.tsx:31-33 | a fetch sets loading and clears the error, and nothing else |
| App.FetchSucceeded | src/App.tsx:34-38 | the posts and page state come from the response, and the current page follows the server's page |
| App.FetchFailed | src/App.tsx:39-45 | a failed fetch shows the fixed message, empties the list and resets the page state, and keeps the current page |
| App.PageChange | src/App.tsx:55-59 | the page moves iff the target is between 1 and the total page count; otherwise nothing changes |
| App.PageChangeInertWithoutPages | src/App.tsx:55-59 | before any data and after a failed fetch, every page change is ignored |
| App.PageChangeStaysInRange | src/App.tsx:55-59 | a current page in range stays in range |
| App.RenderedClicksNavigate | src/App.tsx:109-113 | a page button moves to its page; a block jump moves exactly when its target is a real page and is ignored otherwise |
| App.NewPostClick | src/App.tsx:61-63 | only the view changes, to the new-post form |
| App.CancelNewPost | src/App.tsx:65-67 | only the view changes, back to the list |
| App.SubmitNewPost | src/App.tsx:69-78 | the view returns to the list on page 1; the handler fetches directly iff it was already on page 1 |
| App.SubmitNewPostRequestsPageOne | src/App.tsx:49-53 | from the new-post form, the effect always fetches page 1 after submit, so on page 1 that page is fetched twice |
| App.PostClick | src/App.tsx:80-83 | the post is selected and the detail view opens; the list data stays |
| App.BackToList | src/App.tsx:85-91 | the view returns to the list with no selection; the handler fetches the current page iff the list is empty, there is an error, or the loaded page is stale |
| App.BackToListAlwaysRefetches | src/App.tsx:49-53 | leaving the detail view always fetches the current page through the effect, whatever the handler did |
| App.PostUpdated | src/App.tsx:93-97 | the handler fetches iff the view is the list, and changes no state |
| App.ShowsPagination | src/App.tsx:106 | pagination is drawn only for a loaded, error-free, non-empty list |
| App.NoPaginationWithoutData | src/App.tsx:106-115 | no pagination is drawn initially, while loading, or after a failed fetch |
| App.SelectionStaysConsistent | src/App.tsx:125-130 | every transition keeps a post selected whenever the detail view is open |
| UsePosts.Initial | src/hooks/usePosts.ts:24-31 | the hook starts loading on page 1 with an empty title+contents search |
| UsePosts.SearchMode | src/hooks/usePosts.ts:36 | a load is a search iff the query has a character that is not whitespace |
| UsePosts.LoadStart | src/hooks/usePosts.ts:33-46 | the arguments default to the hook's search; the load is a search iff the query is not blank, and otherwise the plain list of that page |
| UsePosts.LoadSearchIsAlwaysSent | src/services/post.api.ts:60-62 | a search the hook starts always has a non-blank query, so the service's short-circuit never answers it |
| UsePosts.LoadSucceeded | src/hooks/usePosts.ts:46-55 | the posts and page state come from the response and the flags are cleared |
| UsePosts.FailureText | src/hooks/usePosts.ts:50 | the error text is the thrown error's non-empty backend message, else the hook's generic message |
| UsePosts.LoadFailed | src/hooks/usePosts.ts:49-55 | a failed load shows that text, empties the posts and forgets the page state |
| UsePosts.RejectedLoadShowsBackendText | src/services/apiClient.ts:5-16 | a rejected response shows its body text if non-empty, and the call's own default message otherwise, never the hook's generic one |
| UsePosts.PageChange | src/hooks/usePosts.ts:59-61 | only the current page changes, with no range check |
| UsePosts.Search | src/hooks/usePosts.ts:63-67 | type and query are stored and the page returns to 1 |
| SearchBar.Initial | src/components/SearchBar.tsx:10-11 | the bar starts empty with the title+contents search type |
| SearchBar.Submit | src/components/SearchBar.tsx:13-20 | a blank query raises the alert; any other calls the search with the chosen type and the trimmed query |
| SearchBar.SubmitEnabled | src/components/SearchBar.tsx:54 | the button is enabled iff no search runs and the query has a character that is not whitespace |
| SearchBar.EnabledSubmitSearches | src/components/SearchBar.tsx:54 | the submit button is enabled iff a submit searches, and the query sent is already trimmed |
| SearchBar.SubmittedSearchLoadsPageOne | src/hooks/usePosts.ts:63-67 | a submitted search makes the hook's next load a search for that type and trimmed query on page 1 |
| PostApi.ParseSearchType | src/services/post.api.ts:58 | exactly the three wire names parse, each to the type that prints back to it |
| PostApi.SearchTypeRoundTrip | src/services/post.api.ts:58 | every search type parses back from its wire name |
| PostApi.Accepts | src/services/post.api.ts:6-56 | every accepted status is an ok status; create accepts exactly 201, every other call exactly the 2xx statuses |
| PostApi.Complete | src/services/post.api.ts:6-56 | a call succeeds iff its status rule accepts; on failure the error carries the status, the call's default message, and the body text when non-empty |
| PostApi.DeleteAcceptsExactlyOk | src/services/post.api.ts:34-39 | the extra 204 test of delete changes nothing: delete accepts exactly the ok statuses |
| PostApi.CreateRejectsOtherOk | src/services/post.api.ts:41-49 | create accepts only 201, so any other ok status is an error |
| PostApi.SearchPostsAPI | src/services/post.api.ts:60-69 | a blank query is answered with an empty page and no request; any other is sent as typed |
| ApiClient.HandleApiResponseError | src/services/apiClient.ts:5-16 | the message is the default, the status is copied, and the backend message is the body text when non-empty, else the default |
| ApiClient.BackendMessageSource | src/services/apiClient.ts:5-16 | the backend message comes from the body or the default, and is empty only when both are |
| ApiErrors.NewApiError | src/services/apiErrors.ts:5-12 | name, message and status are stored; the backend message falls back to the message when missing or empty |
| ApiErrors.CaughtMessage | src/components/CommentItem.tsx:48 | a caught Error yields its message, anything else the fallback |
| Text.LeadingWhitespace | src/hooks/usePosts.ts:36 | the whitespace prefix that trim removes is maximal |
| Text.TrailingWhitespace | src/hooks/usePosts.ts:36 | the whitespace suffix that trim removes is maximal |
| Text.Trim | src/components/SearchBar.tsx:15-19 | the result is the input with a whitespace-only prefix and suffix cut off, empty iff the input is all whitespace, and otherwise without whitespace at either end |
| Text.IsBlank | src/components/SearchBar.tsx:15 | the blank test `!s.trim()` holds iff every character is whitespace |
| Text.TrimIdempotent | src/components/SearchBar.tsx:15-19 | trimming twice is trimming once |

## Left out

- HTTP transport: URLs, headers, JSON bodies and `fetch` itself. A response is a status and an optional body text. A failure to read the body is an absent body.
- Asynchrony: a request in flight and the awaited answer are two transitions. Interleavings of several requests are not modelled.
- The loading flags shown while a request is in flight exist only as state fields. Disabled buttons are not modelled, except the search bar's submit.
- Markup, CSS classes and text other than the page-button corner classes, the highlighted page, and the indent of comments.
- `window.alert`, `console` output and `window.scrollTo` (`usePosts.ts:48`) have no effect on state. `window.confirm` is a parameter of `CommentItem.Delete`.
- The `useCallback` dependency array of `usePosts` is not modelled. Each load reads the hook state it is given.
- The thin shells are not part of this model: `BoardHeader`, `BoardFooter`, `NewPostButton`, `PostTable`, `NewPostForm`, `PostDetailView`, `ErrorBoundary`, and the ranking views. The other service files and the newer components under `components/domain/` are not part of it either.
- JavaScript numbers are unbounded integers here. Pages and ids are never fractional, `NaN` or beyond 2^53.
- CommentUtils.PlacedExactlyOnce: requires distinct ids. With repeated ids, the nodes for one id collapse into one, so "placed once" cannot be stated per node.
- CommentList.ReplyBecomesFirstChild: requires that no comment already names the reply's fresh id as parent. The backend assigns new ids, so that holds for fresh comments.

## Notes on behaviour

These consequences of the code are proved as written; none is claimed as a defect:

- A reply to a comment with id 0 is shown as a top-level comment (`CommentList.ReplyToCommentZeroIsTopLevel`).
- Delete's separate 204 test is redundant (`PostApi.DeleteAcceptsExactlyOk`).
- Page 1 is requested twice after submitting a post from page 1 (`App.SubmitNewPostRequestsPageOne`).
