/** The pagination control (src/components/Pagination.tsx) as a pure
    function from the page state to what is rendered: the previous-block
    jump, one button per page of the block, the next-block jump, and the
    current marker and corner caps of every button. */
module Pagination {
  import opened Types

  /** One page-number button: its number, whether it is marked current,
      and which corner-rounding classes it gets. */
  datatype PageButton = PageButton(number: int, isCurrent: bool, roundedAll: bool, roundedLeft: bool, roundedRight: bool)

  /** The rendered control. A block jump is Some(target) when it is shown;
      the target is the page its click hands to `onPageChange`. */
  datatype PaginationView = PaginationView(prevTarget: Option<int>, buttons: seq<PageButton>, nextTarget: Option<int>)

  /** The `for (i = startPage; i <= endPage; i++)` list of page numbers. */
  function PageNumbers(startPage: int, endPage: int): (r: seq<int>)
    ensures |r| == if startPage <= endPage then endPage - startPage + 1 else 0
    ensures forall i :: 0 <= i < |r| ==> r[i] == startPage + i
    decreases endPage - startPage
  {
    if startPage > endPage then [] else PageNumbers(startPage, endPage - 1) + [endPage]
  }

  /** The button for page `n` of the window `nums`: current marker, full
      rounding for a lone button, a left cap on the start button when the
      block starts at page 1 or the previous-block target lies outside the
      window, and the symmetric right cap on the end button. */
  function ButtonFor(ps: PageState, totalPages: int, nums: seq<int>, n: int): (b: PageButton)
    ensures b.number == n && (b.isCurrent <==> n == ps.currentPage)
    ensures b.roundedAll <==> |nums| == 1
    ensures b.roundedLeft ==> n == ps.startPage && !b.roundedAll
    ensures b.roundedRight ==> n == ps.endPage
    ensures n == ps.startPage && ps.startPage == 1 && |nums| != 1 ==> b.roundedLeft
    ensures n == ps.endPage && ps.endPage == totalPages ==> b.roundedRight
  {
    var single := |nums| == 1;
    var left := (n == ps.startPage && ps.startPage == 1)
             || (n == ps.startPage && ps.startPage > 1 && ps.prevBlockPage !in nums);
    var right := (n == ps.endPage && ps.endPage == totalPages)
              || (n == ps.endPage && ps.endPage < totalPages && ps.nextBlockPage !in nums);
    PageButton(n, ps.currentPage == n, single, !single && left, right)
  }

  /** `<Pagination pageState totalPages />`: nothing when there is at most
      one page; otherwise the block jumps and the buttons of the window. */
  function Render(ps: PageState, totalPages: int): (r: Option<PaginationView>)
    ensures r.None? <==> totalPages <= 1
    ensures r.Some? ==> (r.value.prevTarget.Some? <==> ps.startPage > 1)
    ensures r.Some? && r.value.prevTarget.Some? ==> r.value.prevTarget.value == ps.prevBlockPage
    ensures r.Some? ==> (r.value.nextTarget.Some? <==> ps.endPage < totalPages)
    ensures r.Some? && r.value.nextTarget.Some? ==> r.value.nextTarget.value == ps.nextBlockPage
    ensures r.Some? ==> |r.value.buttons| == if ps.startPage <= ps.endPage then ps.endPage - ps.startPage + 1 else 0
    ensures r.Some? ==> forall i :: 0 <= i < |r.value.buttons| ==> r.value.buttons[i].number == ps.startPage + i
  {
    if totalPages <= 1 then None
    else
      var nums := PageNumbers(ps.startPage, ps.endPage);
      Some(PaginationView(
        if ps.startPage > 1 then Some(ps.prevBlockPage) else None,
        seq(|nums|, i requires 0 <= i < |nums| => ButtonFor(ps, totalPages, nums, nums[i])),
        if ps.endPage < totalPages then Some(ps.nextBlockPage) else None))
  }

  /** A control of the rendered view. */
  datatype Control = PrevBlock | PageAt(index: nat) | NextBlock

  /** The value a click hands to `onPageChange`, or None when the control
      is not rendered. The component itself does no range check. */
  function Click(v: PaginationView, c: Control): (r: Option<int>)
    ensures c.PageAt? && c.index < |v.buttons| ==> r == Some(v.buttons[c.index].number)
    ensures c.PrevBlock? ==> r == v.prevTarget
    ensures c.NextBlock? ==> r == v.nextTarget
  {
    match c
    case PrevBlock => v.prevTarget
    case NextBlock => v.nextTarget
    case PageAt(i) => if i < |v.buttons| then Some(v.buttons[i].number) else None
  }

  /** The page numbers shown on a row of buttons, left to right. */
  function ButtonNumbers(bs: seq<PageButton>): seq<int>
  {
    seq(|bs|, i requires 0 <= i < |bs| => bs[i].number)
  }

  /** The buttons are exactly the pages startPage..endPage, ascending, and
      none at all when startPage > endPage. */
  lemma ButtonsAreWindow(ps: PageState, totalPages: int)
    requires totalPages > 1
    ensures var ns := ButtonNumbers(Render(ps, totalPages).value.buttons);
      && (forall n :: n in ns <==> ps.startPage <= n <= ps.endPage)
      && (forall i, j :: 0 <= i < j < |ns| ==> ns[i] < ns[j])
      && (ps.startPage > ps.endPage ==> ns == [])
  {
    var ns := ButtonNumbers(Render(ps, totalPages).value.buttons);
    forall n | ps.startPage <= n <= ps.endPage
      ensures n in ns
    {
      assert ns[n - ps.startPage] == n;
    }
  }

  /** A button is marked current exactly when its number is the current
      page, so at most one is, and one is iff the current page lies in the
      window. */
  lemma CurrentMarker(ps: PageState, totalPages: int)
    requires totalPages > 1
    ensures var bs := Render(ps, totalPages).value.buttons;
      && (forall i :: 0 <= i < |bs| ==> (bs[i].isCurrent <==> bs[i].number == ps.currentPage))
      && (forall i, j :: 0 <= i < |bs| && 0 <= j < |bs| && bs[i].isCurrent && bs[j].isCurrent ==> i == j)
      && ((exists i :: 0 <= i < |bs| && bs[i].isCurrent) <==> ps.startPage <= ps.currentPage <= ps.endPage)
  {
    var bs := Render(ps, totalPages).value.buttons;
    if ps.startPage <= ps.currentPage <= ps.endPage {
      assert bs[ps.currentPage - ps.startPage].isCurrent;
    }
  }

  /** The corner-cap rule, with `includes` on the window read as an
      interval test: a lone button is fully rounded; otherwise only the
      start button can get a left cap, which it gets iff the block starts
      at page 1 or past it with the previous-block target outside the
      window; only the end button can get a right cap, which it gets iff
      the block ends at the last page or before it with the next-block
      target outside the window. */
  lemma CornerCaps(ps: PageState, totalPages: int)
    requires totalPages > 1
    ensures var bs := Render(ps, totalPages).value.buttons;
      forall i :: 0 <= i < |bs| ==>
        && (bs[i].roundedAll <==> |bs| == 1)
        && (bs[i].roundedLeft <==>
              |bs| != 1 && bs[i].number == ps.startPage
              && (ps.startPage == 1
                  || (ps.startPage > 1 && !(ps.startPage <= ps.prevBlockPage <= ps.endPage))))
        && (bs[i].roundedRight <==>
              bs[i].number == ps.endPage
              && (ps.endPage == totalPages
                  || (ps.endPage < totalPages && !(ps.startPage <= ps.nextBlockPage <= ps.endPage))))
  {
    var nums := PageNumbers(ps.startPage, ps.endPage);
    forall n | ps.startPage <= n <= ps.endPage
      ensures n in nums
    {
      assert nums[n - ps.startPage] == n;
    }
  }

  /** For a block shaped as the backend builds it (targets one page outside
      either end, at least two buttons), the caps fall on the two ends of
      the group: the first button gets the left cap, the last the right
      cap, and no button in between gets either. */
  lemma CapsOnEndsOfUsualBlock(ps: PageState, totalPages: int)
    requires totalPages > 1
    requires 1 <= ps.startPage < ps.endPage <= totalPages
    requires ps.prevBlockPage == ps.startPage - 1 && ps.nextBlockPage == ps.endPage + 1
    ensures var bs := Render(ps, totalPages).value.buttons;
      && bs[0].roundedLeft && bs[|bs| - 1].roundedRight
      && (forall i :: 0 < i < |bs| - 1 ==> !bs[i].roundedLeft && !bs[i].roundedRight)
      && (forall i :: 0 <= i < |bs| ==> !bs[i].roundedAll)
  {
    CornerCaps(ps, totalPages);
  }
}
