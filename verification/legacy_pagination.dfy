/** The older pagination component: the same navigation and window, but
    with a hand-written clamp in `set_page` and an unchecked
    `current_page - 5` behind the front ellipsis. */
module LegacyPagination {
  import opened Wrappers
  import opened PageState
  import opened PageWindow
  import Pagination

  /** `create`: the first page is current, or page 0 when there are none. */
  function Create(totalPages: Option<nat>): (p: Paginator)
    ensures Valid(p)
    ensures p.totalPages == totalPages.GetOr(0)
    ensures p.totalPages > 0 ==> p.currentPage == 1
  {
    var total := totalPages.GetOr(0);
    Paginator(total, if total > 0 then 1 else 0)
  }

  /** `set_page`: page 0 is relocated to 1, a page past the end to the last
      page, and any other page is taken as is. Nothing panics, but with no
      pages the relocation of 0 lands on page 1, which does not exist. */
  function SetPage(p: Paginator, page: nat): (s: Step)
    ensures s.next.totalPages == p.totalPages
    ensures page == 0 ==> s.next.currentPage == 1
    ensures 0 < page <= p.totalPages ==> s.next.currentPage == page
    ensures 0 < page && p.totalPages < page ==> s.next.currentPage == p.totalPages
    ensures s.changed <==> s.next.currentPage != p.currentPage
    ensures !s.changed ==> s.next == p
  {
    var target := if page <= 0 then 1 else if page > p.totalPages then p.totalPages else page;
    if target != p.currentPage then Step(Paginator(p.totalPages, target), true)
    else Step(p, false)
  }

  function NextPage(p: Paginator): (s: Step)
    ensures s.changed <==> p.currentPage < p.totalPages
    ensures s.changed ==> s.next == Paginator(p.totalPages, p.currentPage + 1)
    ensures !s.changed ==> s.next == p
  {
    if p.currentPage < p.totalPages then Step(Paginator(p.totalPages, p.currentPage + 1), true)
    else Step(p, false)
  }

  function PrevPage(p: Paginator): (s: Step)
    ensures s.changed <==> p.currentPage > 1
    ensures s.changed ==> s.next == Paginator(p.totalPages, p.currentPage - 1)
    ensures !s.changed ==> s.next == p
  {
    if p.currentPage > 1 then Step(Paginator(p.totalPages, p.currentPage - 1), true)
    else Step(p, false)
  }

  /** `first_page`, which is `set_page(1)`. */
  function FirstPage(p: Paginator): (s: Step)
    ensures p.totalPages >= 1 ==> s.next == Paginator(p.totalPages, 1)
    ensures p.totalPages == 0 ==> s.next == Paginator(0, 0)
    ensures s.changed <==> s.next.currentPage != p.currentPage
  {
    SetPage(p, 1)
  }

  /** `last_page`, which is `set_page(total_pages)`. */
  function LastPage(p: Paginator): (s: Step)
    ensures p.totalPages >= 1 ==> s.next == Paginator(p.totalPages, p.totalPages)
    ensures p.totalPages == 0 ==> s.next == Paginator(0, 1)
    ensures s.changed <==> s.next.currentPage != p.currentPage
  {
    SetPage(p, p.totalPages)
  }

  /** `update`: emits the new current page and re-renders exactly when the
      operation reports a change; no message panics. */
  function Update(p: Paginator, msg: Message): (o: Outcome)
    ensures o.next.totalPages == p.totalPages
    ensures o.rerender <==> o.next.currentPage != p.currentPage
    ensures o.emitted == (if o.rerender then Some(o.next.currentPage) else None)
    ensures !o.rerender ==> o.next == p
    ensures Valid(p) && p.totalPages >= 1 ==> Valid(o.next)
    ensures msg.First? ==> o.next == FirstPage(p).next && o.rerender == FirstPage(p).changed
    ensures msg.Last? ==> o.next == LastPage(p).next && o.rerender == LastPage(p).changed
    ensures msg.Next? ==> o.next == NextPage(p).next && o.rerender == NextPage(p).changed
    ensures msg.Prev? ==> o.next == PrevPage(p).next && o.rerender == PrevPage(p).changed
    ensures msg.Set? ==> o.next == SetPage(p, msg.page).next && o.rerender == SetPage(p, msg.page).changed
  {
    match msg
    case Next => Notify(NextPage(p))
    case Prev => Notify(PrevPage(p))
    case First => Notify(FirstPage(p))
    case Last => Notify(LastPage(p))
    case Set(page) => Notify(SetPage(p, page))
  }

  /** The scripted navigation on five pages: prev, next, prev, first, last. */
  lemma ScriptedNavigation()
    ensures var p0 := Paginator(5, 1);
      var p1 := PrevPage(p0).next;
      var p2 := NextPage(p1).next;
      var p3 := PrevPage(p2).next;
      var p4 := FirstPage(p3).next;
      var p5 := LastPage(p4).next;
      p1.currentPage == 1 && p2.currentPage == 2 && p3.currentPage == 1
      && p4.currentPage == 1 && p5.currentPage == 5
  {
  }

  // ---------------------------------------------------------------------
  // Agreement with the current version.

  /** Both versions create the same state. */
  lemma CreateAgrees(totalPages: Option<nat>)
    ensures Create(totalPages) == Pagination.Create(totalPages)
  {
  }

  /** With at least one page the hand-written clamp is `clamp(page, 1, total)`. */
  lemma SetPageAgrees(p: Paginator, page: nat)
    requires p.totalPages >= 1
    ensures SetPage(p, page) == Pagination.SetPage(p, page)
  {
  }

  /** With at least one page every message is handled exactly as the
      current version handles it. */
  lemma UpdateAgrees(p: Paginator, msg: Message)
    requires p.totalPages >= 1
    ensures Update(p, msg) == Pagination.Update(p, msg)
  {
  }

  /** Next and Prev never went through the clamp: they agree everywhere,
      including with no pages. */
  lemma StepAgrees(p: Paginator)
    ensures NextPage(p) == Pagination.NextPage(p)
    ensures PrevPage(p) == Pagination.PrevPage(p)
  {
  }

  /** The empty-state divergence: with no pages, Last (which is `set_page(0)`)
      moves from page 0 to the non-existent page 1 and notifies, breaking the
      invariant, while First changes nothing. The current version panics on
      both instead. */
  lemma EmptyStateQuirk(p: Paginator)
    requires Valid(p) && p.totalPages == 0
    ensures LastPage(p) == Step(Paginator(0, 1), true)
    ensures Update(p, Last) == Outcome(Paginator(0, 1), true, Some(1))
    ensures !Valid(Update(p, Last).next)
    ensures FirstPage(p) == Step(p, false)
    ensures !Pagination.Handles(p, Last) && !Pagination.Handles(p, First)
  {
  }

  // ---------------------------------------------------------------------
  // The page window.

  /** `mid_page`, written with nested conditionals instead of `min`. */
  function MidPage(p: Paginator, c: Config): nat {
    var front := FrontBreakpoint(c);
    var rear := RearBreakpoint(p.totalPages, c);
    if p.currentPage < front then
      if front < p.totalPages then front else p.totalPages
    else if p.currentPage > rear then rear
    else p.currentPage
  }

  /** The front ellipsis target `current_page - 5` as a mathematical
      integer; a negative value is an underflow of the `usize` subtraction
      (a panic in a debug build, a wrap to a huge page in a release build). */
  function FrontJump(currentPage: nat): int {
    currentPage - 5
  }

  function View(p: Paginator, c: Config): seq<Item> {
    Window(p.totalPages, p.currentPage, MidPage(p, c), c, FrontJump(p.currentPage), p.currentPage + 5)
  }

  /** Both ways of writing the mid page compute the same page. */
  lemma MidPageAgrees(p: Paginator, c: Config)
    ensures MidPage(p, c) == Pagination.MidPage(p, c)
  {
  }

  /** Front truncation only happens once the current page is past the
      front breakpoint, so with at least two edge-plus-sibling pages (the
      defaults give two) the unchecked subtraction cannot underflow. */
  lemma FrontJumpSafe(p: Paginator, c: Config)
    requires c.edgePageCount + c.siblingPageCount >= 2
    requires FrontTruncated(MidPage(p, c), c)
    ensures FrontJump(p.currentPage) >= 0
    ensures FrontJump(p.currentPage) == Pagination.FrontJump(p.currentPage)
  {
  }

  /** Whenever the legacy front jump cannot underflow, the two versions
      render the same window; in particular they always do for the
      default configuration. */
  lemma {:induction false} ViewAgrees(p: Paginator, c: Config)
    requires c.edgePageCount + c.siblingPageCount >= 2
    ensures View(p, c) == Pagination.View(p, c)
  {
    MidPageAgrees(p, c);
    var mid := MidPage(p, c);
    if FrontTruncated(mid, c) {
      FrontJumpSafe(p, c);
    }
    assert FrontSegment(p.currentPage, mid, c, FrontJump(p.currentPage))
        == FrontSegment(p.currentPage, mid, c, Pagination.FrontJump(p.currentPage));
  }

  /** With the default of one edge page and one sibling the two versions
      render the same window in every state. */
  lemma DefaultViewsAgree(p: Paginator)
    ensures View(p, DefaultConfig) == Pagination.View(p, DefaultConfig)
  {
    ViewAgrees(p, DefaultConfig);
  }

  /** The underflow: with no edge or sibling pages, four pages and page 3
      current, the front is truncated and its ellipsis jumps to page -2,
      i.e. `3 - 5` in `usize`. The current version's saturating jump from
      the same state lands on page 1. */
  lemma FrontJumpUnderflows()
    ensures var p := Paginator(4, 3);
      && Valid(p)
      && FrontTruncated(MidPage(p, Config(0, 0)), Config(0, 0))
      && View(p, Config(0, 0))[0] == Ellipsis(-2)
      && FrontJump(p.currentPage) < 0
      && Pagination.View(p, Config(0, 0))[0] == Ellipsis(0)
      && Pagination.SetPage(p, Pagination.FrontJump(p.currentPage)).next.currentPage == 1
  {
  }
}
