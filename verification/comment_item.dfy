/** One comment of the thread (src/components/CommentItem.tsx): the
    one-level render policy, the reply controls that exist only at the
    top level, and the edit, delete and reply handlers. `window.confirm`
    is a parameter; requests are returned, and their outcomes are
    separate transitions. */
module CommentItem {
  import opened Types
  import opened Text
  import opened Sequences
  import opened ApiErrors
  import opened CommentUtils

  /** The item's own UI state. */
  datatype ItemState = ItemState(
    isEditing: bool,
    editedContents: string,
    error: Option<string>,
    isLoading: bool,
    showReplyForm: bool,
    replyContents: string,
    isSubmittingReply: bool,
    replyError: Option<string>)

  const BlankEditError := "댓글 내용을 입력해주세요."
  const BlankReplyError := "대댓글 내용을 입력해주세요."
  const UpdateFailedMessage := "댓글 수정에 실패했습니다."
  const DeleteFailedMessage := "댓글 삭제에 실패했습니다."
  const ReplyFailedMessage := "대댓글 등록에 실패했습니다."

  /** The state of a freshly mounted item for comment `c`. */
  function Initial(c: Comment): (s: ItemState)
    ensures !s.isEditing && s.editedContents == c.contents && !s.showReplyForm && s.replyContents == ""
  {
    ItemState(false, c.contents, None, false, false, "", false, None)
  }

  // ---------------------------------------------------------------------
  // Render policy

  /** The left indent in pixels: 25 per level. */
  function MarginLeft(level: nat): (m: nat)
    ensures m % 25 == 0 && m / 25 == level
  {
    level * 25
  }

  /** The reply button, the reply form and the children exist only at the
      top level. */
  predicate TopLevel(level: nat)
  {
    level == 0
  }

  /** A rendered item: a node id and the level it is drawn at. */
  datatype Item = Item(id: int, level: nat)

  /** `<CommentItem comment level />` for the node `id`: the item itself,
      then, at the top level only, its children one level deeper. */
  function RenderItem(f: Forest, id: int, level: nat): (r: seq<Item>)
    decreases if level == 0 then 1 else 0, 1, 0
    ensures r != [] && r[0] == Item(id, level)
    ensures forall it :: it in r ==> it.level == level || it.level == level + 1
    ensures level > 0 ==> forall it :: it in r ==> it == Item(id, level)
  {
    [Item(id, level)]
      + (if TopLevel(level) && id in f.nodes then RenderAll(f, f.nodes[id].children, level + 1) else [])
  }

  /** `ids.map(id => <CommentItem ... level />)`. */
  function RenderAll(f: Forest, ids: seq<int>, level: nat): (r: seq<Item>)
    decreases if level == 0 then 1 else 0, 2, |ids|
    ensures |r| >= |ids|
    ensures forall it :: it in r ==> it.level == level || it.level == level + 1
    ensures level > 0 ==> forall it :: it in r ==> it.level == level && it.id in ids
  {
    if ids == [] then [] else RenderItem(f, ids[0], level) + RenderAll(f, ids[1..], level)
  }

  /** What the comment list draws: every root at level 0. */
  function Visible(f: Forest): (r: seq<Item>)
    ensures |r| >= |f.roots|
    ensures forall it :: it in r ==> it.level <= 1
  {
    RenderAll(f, f.roots, 0)
  }

  /** Below the top level nothing but the item itself is drawn. */
  lemma {:induction false} RenderAllBelowTop(f: Forest, ids: seq<int>, level: nat)
    requires level > 0
    ensures forall it :: it in RenderAll(f, ids, level) <==> it.level == level && it.id in ids
    decreases |ids|
  {
    if ids != [] {
      RenderAllBelowTop(f, ids[1..], level);
      assert forall x :: x in ids <==> x == ids[0] || x in ids[1..];
    }
  }

  /** Items drawn from the top level: the listed ids at level 0, and the
      children of those of them that have a node at level 1. */
  lemma {:induction false} RenderAllTop(f: Forest, ids: seq<int>)
    ensures forall it :: it in RenderAll(f, ids, 0) ==> it.level <= 1
    ensures forall x :: Item(x, 0) in RenderAll(f, ids, 0) <==> x in ids
    ensures forall x :: Item(x, 1) in RenderAll(f, ids, 0) <==>
              exists r :: r in ids && r in f.nodes && x in f.nodes[r].children
    decreases |ids|
  {
    if ids != [] {
      RenderAllTop(f, ids[1..]);
      var r := ids[0];
      if r in f.nodes {
        RenderAllBelowTop(f, f.nodes[r].children, 1);
      }
      assert forall x :: x in ids <==> x == r || x in ids[1..];
    }
  }

  /** The one-level policy on any forest: items are drawn at level 0 or 1,
      level 0 holds exactly the roots, level 1 exactly the children of
      roots, the indent is 0 or 25 px, and only root items offer a reply. */
  lemma VisibleShape(f: Forest)
    ensures forall it :: it in Visible(f) ==> it.level <= 1 && (MarginLeft(it.level) == 0 || MarginLeft(it.level) == 25)
    ensures forall x :: Item(x, 0) in Visible(f) <==> x in f.roots
    ensures forall x :: Item(x, 1) in Visible(f) <==>
              exists r :: r in f.roots && r in f.nodes && x in f.nodes[r].children
    ensures forall it :: it in Visible(f) && TopLevel(it.level) ==> it.id in f.roots
  {
    RenderAllTop(f, f.roots);
  }

  /** A root of a built tree is the id of a comment whose parent does not
      resolve. */
  lemma RootComment(cs: seq<Comment>, r: int) returns (rc: Comment)
    requires r in BuildTree(cs).roots
    ensures rc in cs && rc.id == r && !LinksInto(rc, Ids(cs))
  {
    SelectMembers(cs, IsRootIn(Ids(cs)));
    rc :| rc in cs && IsRootIn(Ids(cs))(rc) && rc.id == r;
  }

  /** A comment whose parent resolves to a non-root comment is not drawn. */
  lemma GrandchildHidden(cs: seq<Comment>, d: Comment)
    requires DistinctIds(cs)
    requires d in cs && LinksInto(d, Ids(cs)) && LinksInto(Find(cs, d.parentId.value), Ids(cs))
    ensures Item(d.id, 0) !in Visible(BuildTree(cs)) && Item(d.id, 1) !in Visible(BuildTree(cs))
  {
    var f := BuildTree(cs);
    VisibleShape(f);
    RootsExact(cs);
    if Item(d.id, 1) in Visible(f) {
      var r :| r in f.roots && r in f.nodes && d.id in f.nodes[r].children;
      var rc := RootComment(cs, r);
      ChildrenExact(cs, rc);
      assert false;
    }
  }

  /** A root, or a comment whose parent is a root, is drawn. */
  lemma RootOrChildOfRootShown(cs: seq<Comment>, d: Comment)
    requires DistinctIds(cs)
    requires d in cs
    requires !LinksInto(d, Ids(cs)) || !LinksInto(Find(cs, d.parentId.value), Ids(cs))
    ensures Item(d.id, 0) in Visible(BuildTree(cs)) || Item(d.id, 1) in Visible(BuildTree(cs))
  {
    var f := BuildTree(cs);
    VisibleShape(f);
    RootsExact(cs);
    if LinksInto(d, Ids(cs)) {
      var p := Find(cs, d.parentId.value);
      ChildrenExact(cs, p);
      assert p.id in f.roots && p.id in f.nodes && d.id in f.nodes[p.id].children;
    }
  }

  /** On a tree built from a list with distinct ids, a comment is drawn iff
      it is a root or its parent is a root: deeper descendants stay in the
      tree but are not shown. */
  lemma VisibleIffRootOrChildOfRoot(cs: seq<Comment>, d: Comment)
    requires DistinctIds(cs)
    requires d in cs
    ensures (Item(d.id, 0) in Visible(BuildTree(cs)) || Item(d.id, 1) in Visible(BuildTree(cs))) <==>
              (!LinksInto(d, Ids(cs)) || !LinksInto(Find(cs, d.parentId.value), Ids(cs)))
  {
    if !LinksInto(d, Ids(cs)) || !LinksInto(Find(cs, d.parentId.value), Ids(cs)) {
      RootOrChildOfRootShown(cs, d);
    } else {
      GrandchildHidden(cs, d);
    }
  }

  // ---------------------------------------------------------------------
  // Handlers

  /** `handleEdit`: open the editor on the comment's current text. */
  function StartEdit(s: ItemState, c: Comment): (r: ItemState)
    ensures r.isEditing && r.editedContents == c.contents && r.error.None?
    ensures r.showReplyForm == s.showReplyForm && r.replyContents == s.replyContents
  {
    s.(isEditing := true, editedContents := c.contents, error := None)
  }

  /** `handleCancelEdit`: close the editor; the draft is not reset and no
      request is made, so the comment is unchanged. */
  function CancelEdit(s: ItemState): (r: ItemState)
    ensures !r.isEditing && r.error.None? && r.editedContents == s.editedContents
  {
    s.(isEditing := false, error := None)
  }

  /** `handleSave`: a blank draft only sets the error; otherwise the draft
      is sent as typed (untrimmed) as the new contents of this comment. */
  function Save(s: ItemState, c: Comment): (r: (ItemState, Option<CommentRequest>))
    ensures r.1.None? <==> IsBlank(s.editedContents)
    ensures r.1.None? ==> r.0 == s.(error := Some(BlankEditError))
    ensures r.1.Some? ==> r.1.value == UpdateComment(c.id, s.editedContents) && r.0.isLoading && r.0.error.None?
  {
    if IsBlank(s.editedContents) then (s.(error := Some(BlankEditError)), None)
    else (s.(isLoading := true, error := None), Some(UpdateComment(c.id, s.editedContents)))
  }

  /** The update request answered: the list is told, the editor closes. */
  function SaveSucceeded(s: ItemState): (r: ItemState)
    ensures !r.isEditing && !r.isLoading && r.error == s.error
  {
    s.(isEditing := false, isLoading := false)
  }

  /** The update request failed: the editor stays open with the error. */
  function SaveFailed(s: ItemState, t: Thrown): (r: ItemState)
    ensures r.isEditing == s.isEditing && !r.isLoading
    ensures r.error == Some(CaughtMessage(t, UpdateFailedMessage))
  {
    s.(isLoading := false, error := Some(CaughtMessage(t, UpdateFailedMessage)))
  }

  /** `handleDelete`: only a confirmed delete sends a request. */
  function Delete(s: ItemState, c: Comment, confirmed: bool): (r: (ItemState, Option<CommentRequest>))
    ensures r.1.Some? <==> confirmed
    ensures r.1.Some? ==> r.1.value == DeleteComment(c.id) && r.0.isLoading
    ensures !confirmed ==> r.0 == s
  {
    if confirmed then (s.(isLoading := true, error := None), Some(DeleteComment(c.id))) else (s, None)
  }

  function DeleteSettled(s: ItemState, failure: Option<Thrown>): (r: ItemState)
    ensures !r.isLoading
    ensures failure.Some? ==> r.error == Some(CaughtMessage(failure.value, DeleteFailedMessage))
    ensures failure.None? ==> r.error == s.error
  {
    match failure
    case Some(t) => s.(isLoading := false, error := Some(CaughtMessage(t, DeleteFailedMessage)))
    case None => s.(isLoading := false)
  }

  /** `toggleReplyForm`: flip the form and reset its draft and error. */
  function ToggleReplyForm(s: ItemState): (r: ItemState)
    ensures r.showReplyForm == !s.showReplyForm && r.replyContents == "" && r.replyError.None?
  {
    s.(showReplyForm := !s.showReplyForm, replyContents := "", replyError := None)
  }

  /** The reply form is rendered only when opened on a top-level item. */
  function ReplyFormShown(s: ItemState, level: nat): (r: bool)
    ensures r <==> s.showReplyForm && MarginLeft(level) == 0
  {
    s.showReplyForm && TopLevel(level)
  }

  /** `handleReplySubmit` from the rendered form: a blank reply only sets
      the reply error; otherwise a reply is requested whose parent is this
      comment. Without a rendered form nothing can be submitted. */
  function SubmitReply(s: ItemState, c: Comment, level: nat): (r: (ItemState, Option<CommentRequest>))
    ensures r.1.Some? <==> ReplyFormShown(s, level) && !IsBlank(s.replyContents)
    ensures r.1.Some? ==> r.1.value == CreateComment(s.replyContents, Some(c.id)) && level == 0
    ensures ReplyFormShown(s, level) && IsBlank(s.replyContents) ==> r.0 == s.(replyError := Some(BlankReplyError))
    ensures !ReplyFormShown(s, level) ==> r.0 == s
  {
    if !ReplyFormShown(s, level) then (s, None)
    else if IsBlank(s.replyContents) then (s.(replyError := Some(BlankReplyError)), None)
    else (s.(isSubmittingReply := true, replyError := None), Some(CreateComment(s.replyContents, Some(c.id))))
  }

  /** The reply request answered: the form closes and its draft clears. */
  function ReplySucceeded(s: ItemState): (r: ItemState)
    ensures !r.showReplyForm && r.replyContents == "" && !r.isSubmittingReply
  {
    s.(showReplyForm := false, replyContents := "", isSubmittingReply := false)
  }

  /** The reply request failed: the form stays with the error. */
  function ReplyFailed(s: ItemState, t: Thrown): (r: ItemState)
    ensures r.showReplyForm == s.showReplyForm && r.replyContents == s.replyContents && !r.isSubmittingReply
    ensures r.replyError == Some(CaughtMessage(t, ReplyFailedMessage))
  {
    s.(isSubmittingReply := false, replyError := Some(CaughtMessage(t, ReplyFailedMessage)))
  }
}
