/** `buildCommentTree` (src/utils/commentUtils.ts): the two-pass,
    map-then-link reconstruction of the reply tree from a flat list.

    The source's nodes are objects shared by reference: the id map and
    every `children` array point at the same node objects. The model keeps
    that sharing explicit as an arena: every node is stored once under its
    id, and `roots` and `children` hold ids. */
module CommentUtils {
  import opened Types
  import opened Sequences

  /** A `CommentWithChildren`: the comment's own fields plus the ids of its
      children, in the order they were linked. */
  datatype Node = Node(comment: Comment, children: seq<int>)

  /** The built tree: root ids in order, and the node of every id. */
  datatype Forest = Forest(roots: seq<int>, nodes: map<int, Node>)

  /** The truthiness test `comment.parentId && ...`: null and 0 both mean
      "no parent". */
  function HasParent(c: Comment): (r: bool)
    ensures r <==> c.parentId !in {None, Some(0)}
  {
    c.parentId.Some? && c.parentId.value != 0
  }

  /** `c` is linked under the node `p`. */
  predicate ChildOf(c: Comment, p: int)
  {
    HasParent(c) && c.parentId.value == p
  }

  /** `c`'s parent resolves among the ids `ids`. */
  predicate LinksInto(c: Comment, ids: set<int>)
  {
    HasParent(c) && c.parentId.value in ids
  }

  /** The selection rule for roots when the id map holds `ids`. */
  function IsRootIn(ids: set<int>): Comment -> bool
  {
    c => !LinksInto(c, ids)
  }

  /** The selection rule for the children of node `p`. */
  function IsChildOf(p: int): Comment -> bool
  {
    c => ChildOf(c, p)
  }

  /** The ids of a flat list, in list order. */
  function IdList(cs: seq<Comment>): (r: seq<int>)
    ensures |r| == |cs|
  {
    if cs == [] then [] else IdList(cs[..|cs| - 1]) + [cs[|cs| - 1].id]
  }

  /** The ids of the comments of `done` that `keep` selects, in list order:
      what a `forEach` that pushes the selected nodes produces. */
  function Select(done: seq<Comment>, keep: Comment -> bool): (r: seq<int>)
    ensures |r| <= |done|
  {
    if done == [] then []
    else
      var c := done[|done| - 1];
      Select(done[..|done| - 1], keep) + (if keep(c) then [c.id] else [])
  }

  /** The node object the id map holds for `id` after the first pass: the
      last comment carrying that id, since later writes overwrite. */
  function Find(cs: seq<Comment>, id: int): (c: Comment)
    requires id in Ids(cs)
    ensures c in cs && c.id == id
  {
    var last := cs[|cs| - 1];
    if last.id == id then last
    else
      assert cs == cs[..|cs| - 1] + [last];
      assert id in Ids(cs[..|cs| - 1]);
      Find(cs[..|cs| - 1], id)
  }

  /** Later writes win: for any comment carrying `id`, the stored one sits
      at or after it, and no comment after the stored one carries `id`. */
  lemma {:induction false} FindLastWins(cs: seq<Comment>, id: int, j: nat) returns (k: nat)
    requires j < |cs| && cs[j].id == id
    ensures j <= k < |cs| && cs[k] == Find(cs, id)
    ensures forall i :: k < i < |cs| ==> cs[i].id != id
    decreases |cs|
  {
    assert cs[j] in cs;
    var init := cs[..|cs| - 1];
    if cs[|cs| - 1].id == id {
      k := |cs| - 1;
    } else {
      assert init[j] == cs[j];
      k := FindLastWins(init, id, j);
      assert init[k] == cs[k];
      forall i | k < i < |cs| ensures cs[i].id != id {
        if i < |cs| - 1 {
          assert init[i] == cs[i];
        }
      }
    }
  }

  /** Reference definition of `buildCommentTree(cs)`: a node per id whose
      children are the comments linked under it, and as roots every
      comment whose parent is absent, 0, or not in the list. */
  function BuildTree(cs: seq<Comment>): (f: Forest)
    ensures f.nodes.Keys == Ids(cs)
    ensures |f.roots| <= |cs|
    ensures cs == [] ==> f.roots == [] && f.nodes == map[]
  {
    Forest(
      Select(cs, IsRootIn(Ids(cs))),
      map id | id in Ids(cs) :: Node(Find(cs, id), Select(cs, IsChildOf(id))))
  }

  /** Pass 1 of the algorithm: the id map, every comment copied into a
      node with empty children; a later comment overwrites an earlier one
      with the same id. */
  method IndexById(cs: seq<Comment>) returns (nodes: map<int, Node>)
    ensures nodes.Keys == Ids(cs)
    ensures forall id :: id in nodes ==> nodes[id] == Node(Find(cs, id), [])
  {
    nodes := map[];
    var i := 0;
    while i < |cs|
      invariant 0 <= i <= |cs|
      invariant nodes.Keys == Ids(cs[..i])
      invariant forall id :: id in nodes ==> nodes[id] == Node(Find(cs[..i], id), [])
    {
      MapStep(cs[..i], cs[i], nodes);
      assert cs[..i + 1] == cs[..i] + [cs[i]];
      nodes := nodes[cs[i].id := Node(cs[i], [])];
      i := i + 1;
    }
    assert cs[..|cs|] == cs;
  }

  /** The two-pass algorithm as written: pass 1 builds the id map, pass 2
      links each comment under its resolved parent or pushes it to the
      roots. It computes exactly the reference tree. */
  method BuildCommentTree(cs: seq<Comment>) returns (f: Forest)
    ensures f == BuildTree(cs)
  {
    var nodes := IndexById(cs);
    var roots: seq<int> := [];
    LinkStart(cs, nodes);
    var k := 0;
    while k < |cs|
      invariant 0 <= k <= |cs|
      invariant Linked(cs, cs[..k], roots, nodes)
    {
      roots, nodes := LinkComment(cs, k, roots, nodes);
      k := k + 1;
    }
    LinkedAll(cs, roots, nodes);
    f := Forest(roots, nodes);
  }

  /** Pass 2, the body of the second `forEach`: `c` is pushed under its
      parent's node when its parent id is truthy and present in the map,
      and onto the roots otherwise. */
  method LinkComment(cs: seq<Comment>, k: nat, roots: seq<int>, nodes: map<int, Node>)
    returns (roots': seq<int>, nodes': map<int, Node>)
    requires k < |cs| && Linked(cs, cs[..k], roots, nodes)
    ensures Linked(cs, cs[..k + 1], roots', nodes')
  {
    var c := cs[k];
    assert cs[..k + 1] == cs[..k] + [c];
    LinkStep(cs, cs[..k], c, roots, nodes);
    if c.parentId.Some? && c.parentId.value != 0 && c.parentId.value in nodes {
      var p := c.parentId.value;
      roots', nodes' := roots, nodes[p := nodes[p].(children := nodes[p].children + [c.id])];
    } else {
      roots', nodes' := roots + [c.id], nodes;
    }
  }

  /** Pass 2's invariant: after linking the prefix `done`, the arena holds
      the reference tree of `cs` restricted to the links made from `done`. */
  predicate Linked(cs: seq<Comment>, done: seq<Comment>, roots: seq<int>, nodes: map<int, Node>)
  {
    && nodes.Keys == Ids(cs)
    && (forall id :: id in nodes ==> nodes[id] == Node(Find(cs, id), Select(done, IsChildOf(id))))
    && roots == Select(done, IsRootIn(Ids(cs)))
  }

  /** Pass 2 starts from pass 1's map and no roots. */
  lemma LinkStart(cs: seq<Comment>, nodes: map<int, Node>)
    requires nodes.Keys == Ids(cs)
    requires forall id :: id in nodes ==> nodes[id] == Node(Find(cs, id), [])
    ensures Linked(cs, cs[..0], [], nodes)
  {
    assert cs[..0] == [];
  }

  /** Once every comment is linked, the arena is the reference tree. */
  lemma LinkedAll(cs: seq<Comment>, roots: seq<int>, nodes: map<int, Node>)
    requires Linked(cs, cs[..|cs|], roots, nodes)
    ensures Forest(roots, nodes) == BuildTree(cs)
  {
    assert cs[..|cs|] == cs;
  }

  /** Pass 1, one step: storing `c` under its id extends the map of the
      processed prefix. */
  lemma MapStep(done: seq<Comment>, c: Comment, nodes: map<int, Node>)
    requires nodes.Keys == Ids(done)
    requires forall id :: id in nodes ==> nodes[id] == Node(Find(done, id), [])
    ensures nodes[c.id := Node(c, [])].Keys == Ids(done + [c])
    ensures forall id :: id in nodes[c.id := Node(c, [])] ==>
      nodes[c.id := Node(c, [])][id] == Node(Find(done + [c], id), [])
  {
    assert Ids(done + [c]) == Ids(done) + {c.id};
    forall id | id in Ids(done + [c])
      ensures Find(done + [c], id) == if id == c.id then c else Find(done, id)
    {
      assert (done + [c])[..|done|] == done;
    }
  }

  /** Pass 2, one step: `c` is pushed under its parent's node when its
      parent resolves in the map and onto the roots otherwise. */
  lemma LinkStep(cs: seq<Comment>, done: seq<Comment>, c: Comment, roots: seq<int>, nodes: map<int, Node>)
    requires Linked(cs, done, roots, nodes)
    ensures c.parentId.Some? && c.parentId.value != 0 && c.parentId.value in nodes ==>
      var p := c.parentId.value;
      Linked(cs, done + [c], roots, nodes[p := nodes[p].(children := nodes[p].children + [c.id])])
    ensures !(c.parentId.Some? && c.parentId.value != 0 && c.parentId.value in nodes) ==>
      Linked(cs, done + [c], roots + [c.id], nodes)
  {
    SelectSnoc(done, c, IsRootIn(Ids(cs)));
    forall id | id in nodes
      ensures Select(done + [c], IsChildOf(id)) == Select(done, IsChildOf(id)) + (if ChildOf(c, id) then [c.id] else [])
    {
      SelectSnoc(done, c, IsChildOf(id));
    }
  }

  /** Selecting over a list with one more comment at the end. */
  lemma SelectSnoc(done: seq<Comment>, c: Comment, keep: Comment -> bool)
    ensures Select(done + [c], keep) == Select(done, keep) + (if keep(c) then [c.id] else [])
  {
    assert (done + [c])[..|done|] == done;
  }

  // ---------------------------------------------------------------------
  // Selection lemmas

  /** A comment is selected exactly when `keep` accepts it. */
  lemma {:induction false} SelectMembers(done: seq<Comment>, keep: Comment -> bool)
    ensures forall c :: c in done && keep(c) ==> c.id in Select(done, keep)
    ensures forall x :: x in Select(done, keep) ==> exists c :: c in done && keep(c) && c.id == x
  {
    if done != [] {
      var init := done[..|done| - 1];
      SelectMembers(init, keep);
      assert done == init + [done[|done| - 1]];
    }
  }

  /** Nothing is selected when `keep` accepts no comment of the list. */
  lemma {:induction false} SelectNone(done: seq<Comment>, keep: Comment -> bool)
    requires forall c :: c in done ==> !keep(c)
    ensures Select(done, keep) == []
  {
    if done != [] {
      var init := done[..|done| - 1];
      assert forall c :: c in init ==> c in done;
      SelectNone(init, keep);
    }
  }

  /** Selected ids keep their relative order in the list. */
  lemma {:induction false} SelectInOrder(done: seq<Comment>, keep: Comment -> bool)
    ensures IsSubseq(Select(done, keep), IdList(done))
  {
    if done != [] {
      var init := done[..|done| - 1];
      var c := done[|done| - 1];
      SelectInOrder(init, keep);
      assert done == init + [c];
      assert IdList(done) == IdList(init) + [c.id];
      if keep(c) {
        SubseqSnoc(Select(init, keep), IdList(init), c.id);
      } else {
        assert Select(done, keep) == Select(init, keep);
        SubseqSkip(Select(init, keep), IdList(init), c.id);
      }
    }
  }

  /** Selecting over a list with a comment in front. */
  lemma {:induction false} SelectCons(c: Comment, rest: seq<Comment>, keep: Comment -> bool)
    ensures Select([c] + rest, keep) == (if keep(c) then [c.id] else []) + Select(rest, keep)
    decreases |rest|
  {
    if rest != [] {
      var init := rest[..|rest| - 1];
      assert ([c] + rest)[..|rest|] == [c] + init;
      SelectCons(c, init, keep);
    } else {
      assert ([c] + rest)[..0] == [];
    }
  }

  /** Two lists that agree position by position on ids and on the
      selection decision give the same selection. */
  lemma {:induction false} SelectCongruent(a: seq<Comment>, b: seq<Comment>, ka: Comment -> bool, kb: Comment -> bool)
    requires |a| == |b|
    requires forall i :: 0 <= i < |a| ==> a[i].id == b[i].id && ka(a[i]) == kb(b[i])
    ensures Select(a, ka) == Select(b, kb)
  {
    if a != [] {
      SelectCongruent(a[..|a| - 1], b[..|b| - 1], ka, kb);
    }
  }

  /** With distinct ids, two list members with one id are the same comment. */
  lemma SameIdSameComment(cs: seq<Comment>, c: Comment, d: Comment)
    requires DistinctIds(cs)
    requires c in cs && d in cs && c.id == d.id
    ensures c == d
  {
    var i :| 0 <= i < |cs| && cs[i] == c;
    var j :| 0 <= j < |cs| && cs[j] == d;
  }

  // ---------------------------------------------------------------------
  // Properties of the built tree

  /** Roots are exactly the comments whose parent is null, 0, or matches
      no id of the list, and they keep their input order. */
  lemma RootsExact(cs: seq<Comment>)
    requires DistinctIds(cs)
    ensures forall c :: c in cs ==> (c.id in BuildTree(cs).roots <==> !LinksInto(c, Ids(cs)))
    ensures IsSubseq(BuildTree(cs).roots, IdList(cs))
  {
    var keep := IsRootIn(Ids(cs));
    SelectMembers(cs, keep);
    SelectInOrder(cs, keep);
    forall c | c in cs && c.id in BuildTree(cs).roots
      ensures !LinksInto(c, Ids(cs))
    {
      var d :| d in cs && keep(d) && d.id == c.id;
      SameIdSameComment(cs, c, d);
    }
  }

  /** The children of a node are exactly the comments whose parent is that
      node's id, in input order. */
  lemma ChildrenExact(cs: seq<Comment>, p: Comment)
    requires DistinctIds(cs)
    requires p in cs
    ensures forall d :: d in cs ==> (d.id in BuildTree(cs).nodes[p.id].children <==> ChildOf(d, p.id))
    ensures IsSubseq(BuildTree(cs).nodes[p.id].children, IdList(cs))
  {
    var keep := IsChildOf(p.id);
    assert p.id in Ids(cs);
    SelectMembers(cs, keep);
    SelectInOrder(cs, keep);
    forall d | d in cs && d.id in BuildTree(cs).nodes[p.id].children
      ensures ChildOf(d, p.id)
    {
      var e :| e in cs && keep(e) && e.id == d.id;
      SameIdSameComment(cs, d, e);
    }
  }

  /** Every node carries the original comment's fields unchanged. */
  lemma NodesCarryComments(cs: seq<Comment>)
    requires DistinctIds(cs)
    ensures forall c :: c in cs ==> c.id in BuildTree(cs).nodes && BuildTree(cs).nodes[c.id].comment == c
  {
    forall c | c in cs
      ensures c.id in BuildTree(cs).nodes && BuildTree(cs).nodes[c.id].comment == c
    {
      assert c.id in Ids(cs);
      SameIdSameComment(cs, c, Find(cs, c.id));
    }
  }

  /** parentId 0 means "no parent", even when a comment with id 0 exists:
      such a comment is a root, and node 0 never gets children. */
  lemma ZeroParentIsRoot(cs: seq<Comment>, c: Comment)
    requires DistinctIds(cs)
    requires c in cs && c.parentId == Some(0)
    ensures c.id in BuildTree(cs).roots
    ensures 0 in Ids(cs) ==> BuildTree(cs).nodes[0].children == []
  {
    RootsExact(cs);
    SelectNone(cs, IsChildOf(0));
  }

  /** A self-parented comment resolves in the id map: it is never a root,
      and it is listed among its own children. */
  lemma SelfParentNeverRoot(cs: seq<Comment>, c: Comment)
    requires DistinctIds(cs)
    requires c in cs && c.id != 0 && c.parentId == Some(c.id)
    ensures c.id !in BuildTree(cs).roots
    ensures c.id in BuildTree(cs).nodes[c.id].children
  {
    RootsExact(cs);
    ChildrenExact(cs, c);
  }

  // ---------------------------------------------------------------------
  // Every comment is placed exactly once

  /** Sum over the nodes `ns` of the number of children linked from `done`. */
  function ChildTotal(ns: seq<Comment>, done: seq<Comment>): nat
  {
    if ns == [] then 0
    else ChildTotal(ns[..|ns| - 1], done) + |Select(done, IsChildOf(ns[|ns| - 1].id))|
  }

  /** The number of nodes in `ns` under which `d` would be linked. */
  function ParentCount(ns: seq<Comment>, d: Comment): nat
  {
    if ns == [] then 0
    else ParentCount(ns[..|ns| - 1], d) + (if ChildOf(d, ns[|ns| - 1].id) then 1 else 0)
  }

  /** Linking one more comment adds one child under each matching node. */
  lemma {:induction false} ChildTotalSnoc(ns: seq<Comment>, done: seq<Comment>, d: Comment)
    ensures ChildTotal(ns, done + [d]) == ChildTotal(ns, done) + ParentCount(ns, d)
  {
    if ns != [] {
      ChildTotalSnoc(ns[..|ns| - 1], done, d);
      assert (done + [d])[..|done|] == done;
    }
  }

  /** With distinct ids, a comment has one parent node if its parent
      resolves and none otherwise. */
  lemma {:induction false} ParentCountDistinct(ns: seq<Comment>, d: Comment)
    requires DistinctIds(ns)
    ensures ParentCount(ns, d) == if LinksInto(d, Ids(ns)) then 1 else 0
  {
    if ns != [] {
      var init := ns[..|ns| - 1];
      var n := ns[|ns| - 1];
      assert ns == init + [n];
      assert Ids(ns) == Ids(init) + {n.id};
      ParentCountDistinct(init, d);
      if ChildOf(d, n.id) {
        assert n.id !in Ids(init);
      }
    }
  }

  /** Each comment of `done` is counted once: as a root or as one child. */
  lemma {:induction false} PlacementCount(ns: seq<Comment>, done: seq<Comment>)
    requires DistinctIds(ns)
    ensures |Select(done, IsRootIn(Ids(ns)))| + ChildTotal(ns, done) == |done|
  {
    if done != [] {
      var init := done[..|done| - 1];
      var d := done[|done| - 1];
      var keep := IsRootIn(Ids(ns));
      assert done == init + [d];
      SelectSnoc(init, d, keep);
      assert keep(d) == !LinksInto(d, Ids(ns));
      PlacementCount(ns, init);
      ChildTotalSnoc(ns, init, d);
      ParentCountDistinct(ns, d);
    } else {
      ChildTotalNothingLinked(ns);
    }
  }

  /** Before any comment is linked, no node has children. */
  lemma {:induction false} ChildTotalNothingLinked(ns: seq<Comment>)
    ensures ChildTotal(ns, []) == 0
  {
    if ns != [] {
      ChildTotalNothingLinked(ns[..|ns| - 1]);
    }
  }

  /** Sum of the children counts the forest records for the ids `ids`. */
  function ForestChildCount(f: Forest, ids: seq<int>): nat
  {
    if ids == [] then 0
    else
      var id := ids[|ids| - 1];
      ForestChildCount(f, ids[..|ids| - 1]) + (if id in f.nodes then |f.nodes[id].children| else 0)
  }

  lemma {:induction false} ForestChildCountIsTotal(cs: seq<Comment>, ns: seq<Comment>)
    requires forall n :: n in ns ==> n in cs
    ensures ForestChildCount(BuildTree(cs), IdList(ns)) == ChildTotal(ns, cs)
  {
    if ns != [] {
      var init := ns[..|ns| - 1];
      assert ns[|ns| - 1] in ns;
      assert ns[|ns| - 1].id in Ids(cs);
      assert forall n :: n in init ==> n in ns;
      ForestChildCountIsTotal(cs, init);
    }
  }

  /** With distinct ids, no comment is dropped or duplicated: the number of
      roots plus the sum of all children counts is the input length. */
  lemma PlacedExactlyOnce(cs: seq<Comment>)
    requires DistinctIds(cs)
    ensures |BuildTree(cs).roots| + ForestChildCount(BuildTree(cs), IdList(cs)) == |cs|
  {
    PlacementCount(cs, cs);
    ForestChildCountIsTotal(cs, cs);
  }
}
