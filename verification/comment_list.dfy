/** The comment thread of a post (src/components/CommentList.tsx): an
    authoritative flat list, patched locally on create, edit and delete,
    with the tree rebuilt from scratch after every change and the new flat
    list handed to the parent's `onCommentsUpdatedInList`. */
module CommentList {
  import opened Types
  import opened Text
  import opened Sequences
  import opened ApiErrors
  import opened CommentUtils
  import CommentItem

  datatype ListState = ListState(
    flat: seq<Comment>,
    tree: Forest,
    newCommentContents: string,
    isSubmitting: bool,
    submitError: Option<string>)

  /** A handler's new state and the flat list it passes to the parent. */
  datatype Update = Update(state: ListState, notified: seq<Comment>)

  const BlankCommentError := "댓글 내용을 입력해주세요."
  const CreateFailedMessage := "댓글 등록에 실패했습니다."

  /** The rebuild discipline: the tree is always the tree of the flat list. */
  predicate Consistent(s: ListState)
  {
    s.tree == BuildTree(s.flat)
  }

  /** The list once mounted and its `[initialComments]` effect has run. */
  function Mount(initial: seq<Comment>): (s: ListState)
    ensures s.flat == initial && Consistent(s)
    ensures s.newCommentContents == "" && !s.isSubmitting && s.submitError.None?
  {
    ListState(initial, BuildTree(initial), "", false, None)
  }

  /** The `[initialComments]` effect on a later change of the prop: the
      flat list is replaced and the tree rebuilt; the form is untouched. */
  function InitialCommentsChanged(s: ListState, initial: seq<Comment>): (r: ListState)
    ensures r.flat == initial && Consistent(r)
    ensures r.newCommentContents == s.newCommentContents && r.submitError == s.submitError
  {
    s.(flat := initial, tree := BuildTree(initial))
  }

  /** `flat.map(c => c.id === u.id ? u : c)`. */
  function ReplaceById(flat: seq<Comment>, u: Comment): (r: seq<Comment>)
    ensures |r| == |flat|
    ensures forall i :: 0 <= i < |r| ==> r[i] == (if flat[i].id == u.id then u else flat[i])
  {
    if flat == [] then []
    else [if flat[0].id == u.id then u else flat[0]] + ReplaceById(flat[1..], u)
  }

  /** `flat.filter(c => c.id !== x)`. */
  function RemoveById(flat: seq<Comment>, x: int): (r: seq<Comment>)
    ensures forall c :: c in r <==> c in flat && c.id != x
  {
    if flat == [] then []
    else if flat[0].id == x then RemoveById(flat[1..], x)
    else [flat[0]] + RemoveById(flat[1..], x)
  }

  /** The filter keeps every surviving entry as often as it occurs, and no
      entry carrying the removed id. */
  lemma {:induction false} RemoveCounts(flat: seq<Comment>, x: int)
    ensures forall c :: multiset(RemoveById(flat, x))[c] == if c.id != x then multiset(flat)[c] else 0
    decreases |flat|
  {
    if flat != [] {
      assert flat == [flat[0]] + flat[1..];
      RemoveCounts(flat[1..], x);
    }
  }

  /** The filter keeps the survivors in their order. */
  lemma {:induction false} RemoveKeepsOrder(flat: seq<Comment>, x: int)
    ensures IsSubseq(RemoveById(flat, x), flat)
    decreases |flat|
  {
    if flat != [] {
      var init := flat[..|flat| - 1];
      var last := flat[|flat| - 1];
      assert flat == init + [last];
      RemoveSnoc(init, last, x);
      RemoveKeepsOrder(init, x);
      if last.id != x {
        SubseqSnoc(RemoveById(init, x), init, last);
      } else {
        assert RemoveById(flat, x) == RemoveById(init, x);
        SubseqSkip(RemoveById(init, x), init, last);
      }
    }
  }

  /** The filter keeps distinct ids distinct. */
  lemma {:induction false} RemoveKeepsDistinct(flat: seq<Comment>, x: int)
    requires DistinctIds(flat)
    ensures DistinctIds(RemoveById(flat, x))
    decreases |flat|
  {
    if flat != [] {
      var t := flat[1..];
      assert DistinctIds(t) by {
        forall i, j | 0 <= i < j < |t| ensures t[i].id != t[j].id {
          assert t[i] == flat[i + 1] && t[j] == flat[j + 1];
        }
      }
      RemoveKeepsDistinct(t, x);
      if flat[0].id != x {
        DistinctCons(flat[0], RemoveById(t, x));
      }
    }
  }

  /** Putting a comment with a fresh id in front keeps ids distinct. */
  lemma DistinctCons(c: Comment, rest: seq<Comment>)
    requires DistinctIds(rest) && c.id !in Ids(rest)
    ensures DistinctIds([c] + rest)
  {
    var flat := [c] + rest;
    forall i, j | 0 <= i < j < |flat| ensures flat[i].id != flat[j].id {
      assert flat[j] == rest[j - 1] && flat[j] in rest;
      if i > 0 {
        assert flat[i] == rest[i - 1];
      }
    }
  }

  /** Filtering a list extended at the back. */
  lemma {:induction false} RemoveSnoc(init: seq<Comment>, last: Comment, x: int)
    ensures RemoveById(init + [last], x) == RemoveById(init, x) + (if last.id != x then [last] else [])
    decreases |init|
  {
    if init != [] {
      var whole := init + [last];
      assert whole[0] == init[0] && whole[1..] == init[1..] + [last];
      assert RemoveById(whole, x) == (if init[0].id == x then [] else [init[0]]) + RemoveById(init[1..] + [last], x);
      assert RemoveById(init, x) == (if init[0].id == x then [] else [init[0]]) + RemoveById(init[1..], x);
      RemoveSnoc(init[1..], last, x);
    }
  }

  /** `handleCommentCreated(c)`: the new comment goes first, the others
      shift by one unchanged; the tree is rebuilt and the parent told. */
  function Created(s: ListState, c: Comment): (r: Update)
    ensures |r.state.flat| == |s.flat| + 1 && r.state.flat[0] == c && r.state.flat[1..] == s.flat
    ensures Consistent(r.state) && r.notified == r.state.flat
    ensures r.state.newCommentContents == s.newCommentContents && r.state.submitError == s.submitError
  {
    var flat := [c] + s.flat;
    Update(s.(flat := flat, tree := BuildTree(flat)), flat)
  }

  /** `handleCommentUpdated(u)`: every entry with u's id is replaced in
      place, the rest are untouched; the tree is rebuilt and the parent
      told. */
  function Updated(s: ListState, u: Comment): (r: Update)
    ensures |r.state.flat| == |s.flat|
    ensures forall i :: 0 <= i < |s.flat| ==>
              (s.flat[i].id == u.id ==> r.state.flat[i] == u) && (s.flat[i].id != u.id ==> r.state.flat[i] == s.flat[i])
    ensures Consistent(r.state) && r.notified == r.state.flat
  {
    var flat := ReplaceById(s.flat, u);
    Update(s.(flat := flat, tree := BuildTree(flat)), flat)
  }

  /** `handleCommentDeleted(x)`: every entry with id x is dropped, the rest
      keep their order; the tree is rebuilt and the parent told. */
  function Deleted(s: ListState, x: int): (r: Update)
    ensures forall c :: c in r.state.flat <==> c in s.flat && c.id != x
    ensures forall c :: multiset(r.state.flat)[c] == if c.id != x then multiset(s.flat)[c] else 0
    ensures IsSubseq(r.state.flat, s.flat)
    ensures Consistent(r.state) && r.notified == r.state.flat
  {
    var flat := RemoveById(s.flat, x);
    RemoveKeepsOrder(s.flat, x);
    RemoveCounts(s.flat, x);
    Update(s.(flat := flat, tree := BuildTree(flat)), flat)
  }

  /** `handleNewCommentSubmit`: a blank draft sets the error and sends
      nothing; otherwise a top-level comment (no parent) is requested with
      the draft as typed. The flat list is not touched either way. */
  function SubmitNew(s: ListState): (r: (ListState, Option<CommentRequest>))
    ensures r.1.None? <==> IsBlank(s.newCommentContents)
    ensures r.1.None? ==> r.0 == s.(submitError := Some(BlankCommentError))
    ensures r.1.Some? ==> r.1.value == CreateComment(s.newCommentContents, None) && r.0.isSubmitting && r.0.submitError.None?
    ensures r.0.flat == s.flat && r.0.tree == s.tree
  {
    if IsBlank(s.newCommentContents) then (s.(submitError := Some(BlankCommentError)), None)
    else (s.(isSubmitting := true, submitError := None), Some(CreateComment(s.newCommentContents, None)))
  }

  /** The create request answered with comment `c`: prepend it as
      `handleCommentCreated` does, then clear the draft. */
  function SubmitSucceeded(s: ListState, c: Comment): (r: Update)
    ensures r.state.flat == Created(s, c).state.flat && Consistent(r.state) && r.notified == r.state.flat
    ensures r.state.newCommentContents == "" && !r.state.isSubmitting
  {
    var u := Created(s, c);
    Update(u.state.(newCommentContents := "", isSubmitting := false), u.notified)
  }

  /** The create request failed: error shown, list and draft kept. */
  function SubmitFailed(s: ListState, t: Thrown): (r: ListState)
    ensures r.submitError == Some(CaughtMessage(t, CreateFailedMessage)) && !r.isSubmitting
    ensures r.flat == s.flat && r.tree == s.tree && r.newCommentContents == s.newCommentContents
  {
    s.(submitError := Some(CaughtMessage(t, CreateFailedMessage)), isSubmitting := false)
  }

  /** The count in the header, `flatComments.length`: with distinct ids,
      the number of nodes the tree places. */
  function HeaderCount(s: ListState): (n: nat)
    ensures Consistent(s) && DistinctIds(s.flat) ==> n == |s.tree.roots| + ForestChildCount(s.tree, IdList(s.flat))
  {
    if DistinctIds(s.flat) then PlacedExactlyOnce(s.flat); |s.flat| else |s.flat|
  }

  // ---------------------------------------------------------------------
  // What each mutation does to the tree

  /** The header count is the number of nodes the tree places: roots plus
      all children. */
  lemma HeaderCountMatchesTree(s: ListState)
    requires Consistent(s) && DistinctIds(s.flat)
    ensures HeaderCount(s) == |s.tree.roots| + ForestChildCount(s.tree, IdList(s.flat))
  {
    PlacedExactlyOnce(s.flat);
  }

  /** Extending the id set by an id nobody refers to changes no root. */
  lemma {:induction false} RootsIgnoreUnreferencedId(flat: seq<Comment>, x: int)
    requires forall d :: d in flat ==> !ChildOf(d, x)
    ensures Select(flat, IsRootIn(Ids(flat) + {x})) == Select(flat, IsRootIn(Ids(flat)))
  {
    forall i | 0 <= i < |flat|
      ensures IsRootIn(Ids(flat) + {x})(flat[i]) == IsRootIn(Ids(flat))(flat[i])
    {
      assert flat[i] in flat;
    }
    SelectCongruent(flat, flat, IsRootIn(Ids(flat) + {x}), IsRootIn(Ids(flat)));
  }

  /** A reply created under comment p (id not 0) lands first among p's
      children; when nobody refers to the reply's fresh id, the roots do
      not change. */
  lemma ReplyBecomesFirstChild(s: ListState, c: Comment, p: Comment)
    requires Consistent(s)
    requires p in s.flat && p.id != 0 && c.parentId == Some(p.id)
    requires forall d :: d in s.flat ==> !ChildOf(d, c.id)
    ensures var t := Created(s, c).state.tree;
      && t.nodes[p.id].children == [c.id] + s.tree.nodes[p.id].children
      && t.roots == s.tree.roots
  {
    var flat := [c] + s.flat;
    assert Ids(flat) == Ids(s.flat) + {c.id};
    assert p.id in Ids(s.flat);
    SelectCons(c, s.flat, IsChildOf(p.id));
    SelectCons(c, s.flat, IsRootIn(Ids(flat)));
    RootsIgnoreUnreferencedId(s.flat, c.id);
  }

  /** A top-level comment that nobody refers to becomes the first root. */
  lemma TopLevelCommentBecomesFirstRoot(s: ListState, c: Comment)
    requires Consistent(s)
    requires c.parentId.None?
    requires forall d :: d in s.flat ==> !ChildOf(d, c.id)
    ensures Created(s, c).state.tree.roots == [c.id] + s.tree.roots
  {
    var flat := [c] + s.flat;
    assert Ids(flat) == Ids(s.flat) + {c.id};
    SelectCons(c, s.flat, IsRootIn(Ids(flat)));
    RootsIgnoreUnreferencedId(s.flat, c.id);
  }

  /** A reply submitted from a top-level item of the thread, once the
      backend answers with the created comment, is drawn one level below
      that item. */
  lemma ReplyIsShownUnderItsRoot(s: ListState, item: CommentItem.ItemState, p: Comment, c: Comment)
    requires Consistent(s) && DistinctIds(s.flat)
    requires p in s.flat && p.id != 0 && p.id in s.tree.roots
    requires CommentItem.SubmitReply(item, p, 0).1.Some?
    requires c.parentId == CommentItem.SubmitReply(item, p, 0).1.value.parentId
    requires forall d :: d in s.flat ==> !ChildOf(d, c.id)
    ensures CommentItem.Item(c.id, 1) in CommentItem.Visible(Created(s, c).state.tree)
  {
    ReplyBecomesFirstChild(s, c, p);
    var t := Created(s, c).state.tree;
    assert p.id in t.nodes;
    CommentItem.VisibleShape(t);
    assert c.id in t.nodes[p.id].children;
  }

  /** A reply to a comment whose id is 0 carries parentId 0, which the
      tree treats as "no parent": it is drawn as a top-level comment. */
  lemma ReplyToCommentZeroIsTopLevel(s: ListState, item: CommentItem.ItemState, p: Comment, c: Comment)
    requires p.id == 0
    requires CommentItem.SubmitReply(item, p, 0).1.Some?
    requires c.parentId == CommentItem.SubmitReply(item, p, 0).1.value.parentId
    ensures c.id in Created(s, c).state.tree.roots
  {
    SelectCons(c, s.flat, IsRootIn(Ids([c] + s.flat)));
  }

  /** After a delete, the former replies of the deleted comment are roots
      and the deleted id has no node. */
  lemma DeleteOrphansBecomeRoots(s: ListState, x: int, d: Comment)
    requires d in s.flat && d.id != x && ChildOf(d, x)
    ensures d.id in Deleted(s, x).state.tree.roots
    ensures x !in Deleted(s, x).state.tree.nodes
  {
    var flat := RemoveById(s.flat, x);
    SelectMembers(flat, IsRootIn(Ids(flat)));
  }

  /** An edit that keeps the parent keeps the shape of the tree: the same
      roots, the same node ids and children, and the edited node carries
      the new comment. */
  lemma EditKeepsShape(s: ListState, u: Comment)
    requires Consistent(s)
    requires u.id in Ids(s.flat)
    requires forall i :: 0 <= i < |s.flat| && s.flat[i].id == u.id ==> s.flat[i].parentId == u.parentId
    ensures var t := Updated(s, u).state.tree;
      && t.roots == s.tree.roots
      && t.nodes.Keys == s.tree.nodes.Keys
      && (forall id :: id in t.nodes ==> t.nodes[id].children == s.tree.nodes[id].children)
      && t.nodes[u.id].comment == u
  {
    var flat := ReplaceById(s.flat, u);
    EditKeepsLinks(s.flat, u);
    SameIdsPointwise(flat, s.flat);
    SelectCongruent(flat, s.flat, IsRootIn(Ids(flat)), IsRootIn(Ids(s.flat)));
    forall id | id in Ids(flat)
      ensures Select(flat, IsChildOf(id)) == Select(s.flat, IsChildOf(id))
    {
      SelectCongruent(flat, s.flat, IsChildOf(id), IsChildOf(id));
    }
    EditStoresComment(s.flat, u);
  }

  /** Position by position, the edit keeps every id and parent. */
  lemma EditKeepsLinks(flat: seq<Comment>, u: Comment)
    requires forall i :: 0 <= i < |flat| && flat[i].id == u.id ==> flat[i].parentId == u.parentId
    ensures forall i :: 0 <= i < |flat| ==>
              ReplaceById(flat, u)[i].id == flat[i].id && ReplaceById(flat, u)[i].parentId == flat[i].parentId
  {
  }

  /** After the edit, looking up the edited id finds the new comment. */
  lemma EditStoresComment(flat: seq<Comment>, u: Comment)
    requires u.id in Ids(flat)
    ensures u.id in Ids(ReplaceById(flat, u)) && Find(ReplaceById(flat, u), u.id) == u
  {
    var r := ReplaceById(flat, u);
    var i :| 0 <= i < |flat| && flat[i].id == u.id;
    assert r[i] == u;
    FindUnique(r, u);
  }

  /** Two lists with the same ids position by position have the same id set. */
  lemma SameIdsPointwise(a: seq<Comment>, b: seq<Comment>)
    requires |a| == |b|
    requires forall i :: 0 <= i < |a| ==> a[i].id == b[i].id
    ensures Ids(a) == Ids(b)
  {
    forall id | id in Ids(b) ensures id in Ids(a) {
      var i :| 0 <= i < |b| && b[i].id == id;
      assert a[i] in a;
    }
    forall id | id in Ids(a) ensures id in Ids(b) {
      var i :| 0 <= i < |a| && a[i].id == id;
      assert b[i] in b;
    }
  }

  /** Every entry with the looked-up id equals u, so the map holds u. */
  lemma {:induction false} FindUnique(flat: seq<Comment>, u: Comment)
    requires u in flat
    requires forall c :: c in flat && c.id == u.id ==> c == u
    ensures Find(flat, u.id) == u
  {
    assert u.id in Ids(flat);
  }

  /** Distinct ids survive every mutation (a created comment with a fresh
      id, any edit, any delete). */
  lemma MutationsKeepIdsDistinct(s: ListState, c: Comment, u: Comment, x: int)
    requires DistinctIds(s.flat)
    ensures c.id !in Ids(s.flat) ==> DistinctIds(Created(s, c).state.flat)
    ensures DistinctIds(Updated(s, u).state.flat)
    ensures DistinctIds(Deleted(s, x).state.flat)
  {
    RemoveKeepsDistinct(s.flat, x);
    if c.id !in Ids(s.flat) {
      assert Created(s, c).state.flat == [c] + s.flat;
      DistinctCons(c, s.flat);
    }
    ReplaceKeepsDistinct(s.flat, u);
  }

  /** An edit keeps every id in place, so distinct ids stay distinct. */
  lemma ReplaceKeepsDistinct(flat: seq<Comment>, u: Comment)
    requires DistinctIds(flat)
    ensures DistinctIds(ReplaceById(flat, u))
  {
    var r := ReplaceById(flat, u);
    assert forall i :: 0 <= i < |r| ==> r[i].id == flat[i].id;
  }

  // ---------------------------------------------------------------------
  // An item's requests, answered and applied to the thread

  /** An item's saved edit, echoed by the backend with the same id and
      parent, keeps the thread's shape and shows the new text in place. */
  lemma SavedEditShowsInPlace(s: ListState, item: CommentItem.ItemState, c: Comment, u: Comment)
    requires Consistent(s) && DistinctIds(s.flat) && c in s.flat
    requires CommentItem.Save(item, c).1.Some?
    requires u.id == CommentItem.Save(item, c).1.value.commentId && u.parentId == c.parentId
    requires u.contents == CommentItem.Save(item, c).1.value.newContents
    ensures var t := Updated(s, u).state.tree;
      && t.roots == s.tree.roots
      && t.nodes.Keys == s.tree.nodes.Keys
      && t.nodes[c.id].comment.contents == item.editedContents
  {
    forall i | 0 <= i < |s.flat| && s.flat[i].id == u.id
      ensures s.flat[i].parentId == u.parentId
    {
      SameIdSameComment(s.flat, s.flat[i], c);
    }
    EditKeepsShape(s, u);
  }

  /** An item's confirmed delete, once applied, removes the comment and its
      node and turns its replies into roots. */
  lemma ConfirmedDeleteRemovesComment(s: ListState, item: CommentItem.ItemState, c: Comment)
    requires c in s.flat
    ensures var req := CommentItem.Delete(item, c, true).1;
      && req == Some(DeleteComment(c.id))
      && c !in Deleted(s, c.id).state.flat
      && c.id !in Deleted(s, c.id).state.tree.nodes
      && (forall d :: d in s.flat && d.id != c.id && ChildOf(d, c.id) ==> d.id in Deleted(s, c.id).state.tree.roots)
  {
    forall d | d in s.flat && d.id != c.id && ChildOf(d, c.id)
      ensures d.id in Deleted(s, c.id).state.tree.roots
    {
      DeleteOrphansBecomeRoots(s, c.id, d);
    }
  }
}
