/** The current pagination component: navigation with `usize::clamp` and
    a page window whose front ellipsis jumps back with a saturating
    subtraction. */
module Pagination {
  import opened Wrappers
  import opened PageState
  import opened PageWindow

  /** `usize::clamp`; it panics when `lo > hi`, which the precondition rules out. */
  function Clamp(x: nat, lo: nat, hi: nat): (r: nat)
    requires lo <= hi
    ensures lo <= r <= hi
    ensures lo <= x <= hi ==> r == x
    ensures x < lo ==> r == lo
    ensures hi < x ==> r == hi
  {
    if x < lo then lo else if x > hi then hi else x
  }

  /** `usize::from(bool)`. */
  function FromBool(b: bool): nat {
    if b then 1 else 0
  }

  /** `create`: an absent `total_pages` counts as 0; the first page is
      current, or page 0 when there are no pages. */
  function Create(totalPages: Option<nat>): (p: Paginator)
    ensures Valid(p)
    ensures p.totalPages == totalPages.GetOr(0)
    ensures p.totalPages > 0 ==> p.currentPage == 1
  {
    var total := totalPages.GetOr(0);
    Paginator(total, FromBool(total > 0))
  }

  /** The creation cases exercised for 0, 1 and 100 pages. */
  lemma CreateExamples()
    ensures Create(Some(0)).currentPage == 0
    ensures Create(None).currentPage == 0
    ensures Create(Some(1)).currentPage == 1
    ensures Create(Some(100)).currentPage == 1
  {
  }

  /** `set_page`: moves to `page` clamped into `[1, totalPages]` and reports
      whether that moved anything. With no pages `clamp(1, 0)` panics, so
      the caller must guarantee a page exists. */
  function SetPage(p: Paginator, page: nat): (s: Step)
    requires p.totalPages >= 1
    ensures s.next.totalPages == p.totalPages
    ensures 1 <= s.next.currentPage <= p.totalPages
    ensures 1 <= page <= p.totalPages ==> s.next.currentPage == page
    ensures page < 1 ==> s.next.currentPage == 1
    ensures p.totalPages < page ==> s.next.currentPage == p.totalPages
    ensures s.changed <==> s.next.currentPage != p.currentPage
    ensures !s.changed ==> s.next == p
  {
    var target := Clamp(page, 1, p.totalPages);
    if target != p.currentPage then Step(Paginator(p.totalPages, target), true)
    else Step(p, false)
  }

  /** `first_page`, which is `set_page(1)`. */
  function FirstPage(p: Paginator): (s: Step)
    requires p.totalPages >= 1
    ensures s.next == Paginator(p.totalPages, 1)
    ensures s.changed <==> p.currentPage != 1
  {
    SetPage(p, 1)
  }

  /** `last_page`, which is `set_page(total_pages)`. */
  function LastPage(p: Paginator): (s: Step)
    requires p.totalPages >= 1
    ensures s.next == Paginator(p.totalPages, p.totalPages)
    ensures s.changed <==> p.currentPage != p.totalPages
  {
    SetPage(p, p.totalPages)
  }

  /** `next_page`: one page forward unless already at or past the last. */
  function NextPage(p: Paginator): (s: Step)
    ensures s.changed <==> p.currentPage < p.totalPages
    ensures s.changed ==> s.next == Paginator(p.totalPages, p.currentPage + 1)
    ensures !s.changed ==> s.next == p
    ensures Valid(p) ==> Valid(s.next)
  {
    if p.currentPage < p.totalPages then Step(Paginator(p.totalPages, p.currentPage + 1), true)
    else Step(p, false)
  }

  /** `prev_page`: one page back unless already at or before the first. */
  function PrevPage(p: Paginator): (s: Step)
    ensures s.changed <==> p.currentPage > 1
    ensures s.changed ==> s.next == Paginator(p.totalPages, p.currentPage - 1)
    ensures !s.changed ==> s.next == p
    ensures Valid(p) ==> Valid(s.next)
  {
    if p.currentPage > 1 then Step(Paginator(p.totalPages, p.currentPage - 1), true)
    else Step(p, false)
  }

  /** Messages whose handling does not panic in state `p`: everything that
      goes through `set_page` needs a page to exist. */
  predicate Handles(p: Paginator, msg: Message) {
    msg.Next? || msg.Prev? || p.totalPages >= 1
  }

  /** `update`: runs the operation the message names; emits the new current
      page and asks for a re-render exactly when the page moved. */
  function Update(p: Paginator, msg: Message): (o: Outcome)
    requires Handles(p, msg)
    ensures o.next.totalPages == p.totalPages
    ensures o.rerender <==> o.next.currentPage != p.currentPage
    ensures o.emitted == (if o.rerender then Some(o.next.currentPage) else None)
    ensures !o.rerender ==> o.next == p
    ensures Valid(p) ==> Valid(o.next)
    ensures msg.First? ==> o.next == FirstPage(p).next && o.rerender == FirstPage(p).changed
    ensures msg.Last? ==> o.next == LastPage(p).next && o.rerender == LastPage(p).changed
    ensures msg.Next? ==> o.next == NextPage(p).next && o.rerender == NextPage(p).changed
    ensures msg.Prev? ==> o.next == PrevPage(p).next && o.rerender == PrevPage(p).changed
    ensures msg.Set? ==> o.next == SetPage(p, msg.page).next && o.rerender == SetPage(p, msg.page).changed
  {
    match msg
    case First => Notify(FirstPage(p))
    case Last => Notify(LastPage(p))
    case Next => Notify(NextPage(p))
    case Prev => Notify(PrevPage(p))
    case Set(page) => Notify(SetPage(p, page))
  }

  /** With no pages the state is inert under the two operations that can
      run there. */
  lemma EmptyIsInert(p: Paginator)
    requires Valid(p) && p.totalPages == 0
    ensures NextPage(p) == Step(p, false)
    ensures PrevPage(p) == Step(p, false)
    ensures !Update(p, Next).rerender && Update(p, Next).emitted == None
    ensures !Update(p, Prev).rerender && Update(p, Prev).emitted == None
  {
  }

  /** Setting the page that is already current never notifies. */
  lemma SetCurrentIsSilent(p: Paginator)
    requires Valid(p) && p.totalPages >= 1
    ensures Update(p, Set(p.currentPage)) == Outcome(p, false, None)
  {
  }

  /** The scripted navigation on five pages: prev, next, prev, first, last. */
  lemma ScriptedNavigation()
    ensures var p0 := Paginator(5, 1);
      var p1 := PrevPage(p0).next;
      var p2 := NextPage(p1).next;
      var p3 := PrevPage(p2).next;
      var p4 := FirstPage(p3).next;
      var p5 := LastPage(p4).next;
      p1.currentPage == 1 && p2.currentPage == 2 && p3.currentPage == 1
      && p4.currentPage == 1 && p5.currentPage == 5
  {
  }

  // ---------------------------------------------------------------------
  // The page window of `view`.

  /** `mid_page`: the current page, pulled up to the front breakpoint (but
      not past the last page) or down to the rear breakpoint. */
  function MidPage(p: Paginator, c: Config): nat {
    var front := FrontBreakpoint(c);
    var rear := RearBreakpoint(p.totalPages, c);
    if p.currentPage < front then Min(front, p.totalPages)
    else if p.currentPage > rear then rear
    else p.currentPage
  }

  /** The argument the front ellipsis sends to `Set`: `current_page.saturating_sub(5)`. */
  function FrontJump(currentPage: nat): nat {
    SaturatingSub(currentPage, 5)
  }

  /** The argument the rear ellipsis sends to `Set`: `current_page + 5`. */
  function RearJump(currentPage: nat): nat {
    currentPage + 5
  }

  /** The buttons between Prev and Next. */
  function View(p: Paginator, c: Config): seq<Item> {
    Window(p.totalPages, p.currentPage, MidPage(p, c), c, FrontJump(p.currentPage), RearJump(p.currentPage))
  }

  /** Twenty pages, one edge page, two siblings, page ten current. */
  lemma WindowExample()
    ensures View(Paginator(20, 10), Config(1, 2))
            == [Page(1, false), Ellipsis(5), Page(8, false), Page(9, false), Page(10, true),
                Page(11, false), Page(12, false), Ellipsis(15), Page(20, false)]
  {
  }

  /** The mid page never passes the last page, and it lies between the
      breakpoints on whichever side is truncated. */
  lemma MidPageBounds(p: Paginator, c: Config)
    ensures MidPage(p, c) <= p.totalPages
    ensures FrontTruncated(MidPage(p, c), c) ==> MidPage(p, c) <= RearBreakpoint(p.totalPages, c)
    ensures RearTruncated(p.totalPages, MidPage(p, c), c) ==> FrontBreakpoint(c) <= MidPage(p, c)
    ensures 1 <= p.currentPage <= p.totalPages ==>
      if p.currentPage < FrontBreakpoint(c) then p.currentPage <= MidPage(p, c)
      else if p.currentPage > RearBreakpoint(p.totalPages, c) then MidPage(p, c) < p.currentPage
      else MidPage(p, c) == p.currentPage
  {
  }

  /** The window, for any state: page buttons in strictly increasing order
      within `[1, totalPages]`; the edge pages and the mid page's siblings
      always shown; one ellipsis per truncated side, each standing for at
      least two hidden pages and carrying that side's jump; the whole range
      `1..=totalPages` when nothing is truncated; nothing when there are no
      pages. */
  lemma ViewLayout(p: Paginator, c: Config)
    ensures var w := View(p, c);
      var mid := MidPage(p, c);
      && Ordering.IncreasingWithin(PageNumbers(w), 1, p.totalPages)
      && EllipsisTargets(w)
         == (if FrontTruncated(mid, c) then [FrontJump(p.currentPage)] else [])
            + (if RearTruncated(p.totalPages, mid, c) then [RearJump(p.currentPage)] else [])
      && (forall n :: 1 <= n <= p.totalPages
            && (n <= c.edgePageCount || p.totalPages - c.edgePageCount < n
                || mid - c.siblingPageCount <= n <= mid + c.siblingPageCount)
            ==> n in PageNumbers(w))
      && (FrontTruncated(mid, c) ==>
            forall n :: c.edgePageCount < n < mid - c.siblingPageCount ==> n !in PageNumbers(w))
      && (RearTruncated(p.totalPages, mid, c) ==>
            forall n :: mid + c.siblingPageCount < n <= p.totalPages - c.edgePageCount
              ==> n !in PageNumbers(w))
      && (!FrontTruncated(mid, c) ==> forall n :: 1 <= n <= mid ==> n in PageNumbers(w))
      && (!RearTruncated(p.totalPages, mid, c) ==>
            forall n :: mid < n <= p.totalPages ==> n in PageNumbers(w))
      && ((!FrontTruncated(mid, c) && !RearTruncated(p.totalPages, mid, c))
            ==> w == Pages(1, p.totalPages, p.currentPage))
      && (p.totalPages == 0 ==> w == [])
  {
    MidPageBounds(p, c);
    WindowLayout(p.totalPages, p.currentPage, MidPage(p, c), c,
                 FrontJump(p.currentPage), RearJump(p.currentPage));
  }

  /** Where the front ellipsis sits in the view: right after the edge
      pages, with every later page at least `mid - sibling`. */
  lemma ViewFrontEllipsis(p: Paginator, c: Config)
    requires FrontTruncated(MidPage(p, c), c)
    ensures var w := View(p, c);
      c.edgePageCount < |w| && w[c.edgePageCount] == Ellipsis(FrontJump(p.currentPage))
    ensures PageNumbers(View(p, c)[..c.edgePageCount]) == Range(1, c.edgePageCount)
    ensures Ordering.IncreasingWithin(PageNumbers(View(p, c)[c.edgePageCount + 1..]),
                                      MidPage(p, c) - c.siblingPageCount, p.totalPages)
  {
    var mid := MidPage(p, c);
    assert mid <= p.totalPages by {
      MidPageBounds(p, c);
    }
    FrontEllipsisPlacement(View(p, c), p.totalPages, p.currentPage, mid, c,
                           FrontJump(p.currentPage), RearJump(p.currentPage));
  }

  /** Where the rear ellipsis sits in the view: right before the last edge
      pages, with every earlier page at most `mid + sibling`. */
  lemma ViewRearEllipsis(p: Paginator, c: Config)
    requires RearTruncated(p.totalPages, MidPage(p, c), c)
    ensures var w := View(p, c);
      c.edgePageCount < |w| && w[RearIndex(w, c)] == Ellipsis(RearJump(p.currentPage))
    ensures var w := View(p, c);
      Ordering.IncreasingWithin(PageNumbers(w[..RearIndex(w, c)]), 1, MidPage(p, c) + c.siblingPageCount)
    ensures var w := View(p, c);
      PageNumbers(w[RearIndex(w, c) + 1..]) == Range(p.totalPages - c.edgePageCount + 1, p.totalPages)
  {
    RearEllipsisPlacement(View(p, c), p.totalPages, p.currentPage, MidPage(p, c), c,
                          FrontJump(p.currentPage), RearJump(p.currentPage));
  }

  /** With at least one page, the current page is shown, exactly once, and
      it is the only page button marked active. */
  lemma CurrentPageShownOnce(p: Paginator, c: Config)
    requires Valid(p) && p.totalPages >= 1
    ensures p.currentPage in PageNumbers(View(p, c))
    ensures forall i, j :: 0 <= i < |PageNumbers(View(p, c))| && 0 <= j < |PageNumbers(View(p, c))|
              && PageNumbers(View(p, c))[i] == p.currentPage && PageNumbers(View(p, c))[j] == p.currentPage
              ==> i == j
    ensures ActivePages(View(p, c)) == [p.currentPage]
  {
    var mid := MidPage(p, c);
    MidPageBounds(p, c);
    WindowLayout(p.totalPages, p.currentPage, mid, c, FrontJump(p.currentPage), RearJump(p.currentPage));
    ActiveLayout(p.totalPages, p.currentPage, mid, c, FrontJump(p.currentPage), RearJump(p.currentPage));
    var ns := PageNumbers(View(p, c));
    if p.currentPage < FrontBreakpoint(c) {
      assert !FrontTruncated(mid, c);
    } else if p.currentPage > RearBreakpoint(p.totalPages, c) {
      assert !RearTruncated(p.totalPages, mid, c);
    }
    assert p.currentPage in ns;
    forall i, j | 0 <= i < |ns| && 0 <= j < |ns| && ns[i] == p.currentPage && ns[j] == p.currentPage
      ensures i == j
    {
      Ordering.OccursOnce(ns, p.currentPage, i, j);
    }
  }

  /** Where the ellipsis jumps land once `set_page` clamps them: the front
      one five pages back but not before page 1, the rear one five pages
      forward but not past the last page. Both are always moves to a valid
      page. */
  lemma EllipsisJumpLanding(p: Paginator)
    requires Valid(p) && p.totalPages >= 1
    ensures SetPage(p, FrontJump(p.currentPage)).next.currentPage
            == if p.currentPage > 5 then p.currentPage - 5 else 1
    ensures SetPage(p, RearJump(p.currentPage)).next.currentPage
            == if p.currentPage + 5 < p.totalPages then p.currentPage + 5 else p.totalPages
  {
  }

  // ---------------------------------------------------------------------
  // The First/Prev/Next/Last buttons.

  datatype Controls = Controls(firstDisabled: bool, prevDisabled: bool,
                               nextDisabled: bool, lastDisabled: bool)

  /** The `disabled` attributes of the four navigation buttons. */
  function NavControls(p: Paginator): Controls {
    Controls(p.currentPage <= 1, p.currentPage <= 1,
             p.currentPage == p.totalPages, p.currentPage == p.totalPages)
  }

  /** In a valid state a navigation button is disabled exactly when
      pressing it would change nothing; with no pages all four are
      disabled, so the panicking operations are never offered. */
  lemma DisabledExactlyWhenInert(p: Paginator)
    requires Valid(p)
    ensures NavControls(p).prevDisabled <==> !PrevPage(p).changed
    ensures NavControls(p).nextDisabled <==> !NextPage(p).changed
    ensures p.totalPages >= 1 ==> (NavControls(p).firstDisabled <==> !FirstPage(p).changed)
    ensures p.totalPages >= 1 ==> (NavControls(p).lastDisabled <==> !LastPage(p).changed)
    ensures p.totalPages == 0 ==> NavControls(p) == Controls(true, true, true, true)
  {
  }
}
