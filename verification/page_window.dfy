/** The page-window computation that both versions of the pagination
    component inline in `view`: two breakpoints, a mid page, two truncation
    flags, and the ordered run of page buttons and ellipsis buttons built
    from them. Markup is not modelled; a button becomes an `Item`. */
module PageWindow {
  import opened Ordering

  /** `edge_page_count` and `sibling_page_count`. */
  datatype Config = Config(edgePageCount: nat, siblingPageCount: nat)

  /** Both versions default each count to 1 (`#[prop_or(1)]`). */
  const DefaultConfig := Config(1, 1)

  /** A page button (with its "active" marker) or an ellipsis button that
      sends `Set(target)` when pressed. The target is an `int` so that an
      unchecked subtraction that would wrap in `usize` shows up as a
      negative number. */
  datatype Item = Page(number: nat, active: bool) | Ellipsis(target: int)

  /** `usize::saturating_sub`. */
  function SaturatingSub(a: nat, b: nat): (r: nat)
    ensures a >= b ==> r + b == a
    ensures a < b ==> r == 0
  {
    if a >= b then a - b else 0
  }

  /** Plain `usize` subtraction, which panics when `b > a`: the precondition
      is the obligation that it never underflows. */
  function Sub(a: nat, b: nat): nat
    requires b <= a
  {
    a - b
  }

  /** `usize::min`. */
  function Min(a: nat, b: nat): nat {
    if a <= b then a else b
  }

  function FrontBreakpoint(c: Config): nat {
    c.edgePageCount + 2 + c.siblingPageCount
  }

  function RearBreakpoint(totalPages: nat, c: Config): nat {
    SaturatingSub(totalPages, c.edgePageCount + 2 - 1 + c.siblingPageCount)
  }

  predicate FrontTruncated(midPage: nat, c: Config) {
    midPage > FrontBreakpoint(c)
  }

  predicate RearTruncated(totalPages: nat, midPage: nat, c: Config) {
    midPage < RearBreakpoint(totalPages, c)
  }

  function Count(lo: nat, hi: nat): nat {
    if lo <= hi then hi - lo + 1 else 0
  }

  /** The buttons for pages `lo..=hi`, each active iff it is the current page. */
  function Pages(lo: nat, hi: nat, currentPage: nat): seq<Item> {
    seq(Count(lo, hi), i requires 0 <= i => Page(lo + i, lo + i == currentPage))
  }

  /** The page numbers `lo..=hi`. */
  function Range(lo: nat, hi: nat): seq<nat> {
    seq(Count(lo, hi), i requires 0 <= i => lo + i)
  }

  /** The front segment (`front_items`): the pages up to `midPage`, with
      the run between the edge pages and the siblings replaced by an
      ellipsis that jumps to `frontTarget` when the front is truncated. */
  function FrontSegment(currentPage: nat, midPage: nat, c: Config, frontTarget: int): seq<Item> {
    if FrontTruncated(midPage, c) then
      Pages(1, c.edgePageCount, currentPage) + [Ellipsis(frontTarget)]
      + Pages(Sub(midPage, c.siblingPageCount), midPage, currentPage)
    else
      Pages(1, midPage, currentPage)
  }

  /** The rear segment (`rear_items`): the pages after `midPage`, with the
      run between the siblings and the last edge pages replaced by an
      ellipsis that jumps to `rearTarget` when the rear is truncated. */
  function RearSegment(totalPages: nat, currentPage: nat, midPage: nat, c: Config, rearTarget: int): seq<Item> {
    if RearTruncated(totalPages, midPage, c) then
      Pages(midPage + 1, midPage + c.siblingPageCount, currentPage) + [Ellipsis(rearTarget)]
      + Pages(Sub(totalPages, c.edgePageCount) + 1, totalPages, currentPage)
    else
      Pages(midPage + 1, totalPages, currentPage)
  }

  /** The window: front segment then rear segment. `midPage` is the last
      page of the front segment; each version computes it its own way. */
  function Window(totalPages: nat, currentPage: nat, midPage: nat, c: Config,
                  frontTarget: int, rearTarget: int): seq<Item>
  {
    FrontSegment(currentPage, midPage, c, frontTarget)
    + RearSegment(totalPages, currentPage, midPage, c, rearTarget)
  }

  // ---------------------------------------------------------------------
  // Projections of a window: what a reader of the rendered buttons sees.

  /** The page numbers shown, left to right. */
  function PageNumbers(w: seq<Item>): seq<nat> {
    if |w| == 0 then []
    else (if w[0].Page? then [w[0].number] else []) + PageNumbers(w[1..])
  }

  /** The numbers of the page buttons marked active, left to right. */
  function ActivePages(w: seq<Item>): seq<nat> {
    if |w| == 0 then []
    else (if w[0].Page? && w[0].active then [w[0].number] else []) + ActivePages(w[1..])
  }

  /** The jump targets of the ellipsis buttons, left to right. */
  function EllipsisTargets(w: seq<Item>): seq<int> {
    if |w| == 0 then []
    else (if w[0].Ellipsis? then [w[0].target] else []) + EllipsisTargets(w[1..])
  }

  lemma {:induction false} PageNumbersAppend(a: seq<Item>, b: seq<Item>)
    ensures PageNumbers(a + b) == PageNumbers(a) + PageNumbers(b)
    decreases |a|
  {
    if |a| == 0 {
      assert a + b == b;
    } else {
      assert (a + b)[0] == a[0];
      assert (a + b)[1..] == a[1..] + b;
      PageNumbersAppend(a[1..], b);
    }
  }

  lemma {:induction false} ActivePagesAppend(a: seq<Item>, b: seq<Item>)
    ensures ActivePages(a + b) == ActivePages(a) + ActivePages(b)
    decreases |a|
  {
    if |a| == 0 {
      assert a + b == b;
    } else {
      assert (a + b)[0] == a[0];
      assert (a + b)[1..] == a[1..] + b;
      ActivePagesAppend(a[1..], b);
    }
  }

  lemma {:induction false} EllipsisTargetsAppend(a: seq<Item>, b: seq<Item>)
    ensures EllipsisTargets(a + b) == EllipsisTargets(a) + EllipsisTargets(b)
    decreases |a|
  {
    if |a| == 0 {
      assert a + b == b;
    } else {
      assert (a + b)[0] == a[0];
      assert (a + b)[1..] == a[1..] + b;
      EllipsisTargetsAppend(a[1..], b);
    }
  }

  lemma ProjectAppend(a: seq<Item>, b: seq<Item>)
    ensures PageNumbers(a + b) == PageNumbers(a) + PageNumbers(b)
    ensures ActivePages(a + b) == ActivePages(a) + ActivePages(b)
    ensures EllipsisTargets(a + b) == EllipsisTargets(a) + EllipsisTargets(b)
  {
    PageNumbersAppend(a, b);
    ActivePagesAppend(a, b);
    EllipsisTargetsAppend(a, b);
  }

  /** A run of page buttons shows exactly the pages `lo..=hi`, marks only
      the current page active, and holds no ellipsis. */
  lemma {:induction false} ProjectPages(lo: nat, hi: nat, currentPage: nat)
    ensures PageNumbers(Pages(lo, hi, currentPage)) == Range(lo, hi)
    ensures ActivePages(Pages(lo, hi, currentPage))
            == if lo <= currentPage <= hi then [currentPage] else []
    ensures EllipsisTargets(Pages(lo, hi, currentPage)) == []
    decreases Count(lo, hi)
  {
    var w := Pages(lo, hi, currentPage);
    if lo <= hi {
      assert w[1..] == Pages(lo + 1, hi, currentPage);
      assert Range(lo, hi) == [lo] + Range(lo + 1, hi);
      ProjectPages(lo + 1, hi, currentPage);
    } else {
      assert w == [];
    }
  }

  lemma ProjectEllipsis(t: int)
    ensures PageNumbers([Ellipsis(t)]) == []
    ensures ActivePages([Ellipsis(t)]) == []
    ensures EllipsisTargets([Ellipsis(t)]) == [t]
  {
    assert [Ellipsis(t)][1..] == [];
  }

  lemma RangeFacts(lo: nat, hi: nat)
    ensures IncreasingWithin(Range(lo, hi), lo, hi)
    ensures forall n :: n in Range(lo, hi) <==> lo <= n <= hi
  {
    forall n | lo <= n <= hi
      ensures n in Range(lo, hi)
    {
      assert Range(lo, hi)[n - lo] == n;
    }
  }

  /** Two adjacent runs of page buttons make one run. */
  lemma PagesSplit(lo: nat, mid: nat, hi: nat, currentPage: nat)
    requires lo <= mid + 1 <= hi + 1
    ensures Pages(lo, mid, currentPage) + Pages(mid + 1, hi, currentPage) == Pages(lo, hi, currentPage)
  {
  }

  // ---------------------------------------------------------------------
  // The layout theorems.

  /** The projections of two windows joined by one ellipsis. */
  lemma ProjectAround(a: seq<Item>, t: int, b: seq<Item>)
    ensures PageNumbers(a + [Ellipsis(t)] + b) == PageNumbers(a) + PageNumbers(b)
    ensures ActivePages(a + [Ellipsis(t)] + b) == ActivePages(a) + ActivePages(b)
    ensures EllipsisTargets(a + [Ellipsis(t)] + b) == EllipsisTargets(a) + [t] + EllipsisTargets(b)
  {
    ProjectEllipsis(t);
    ProjectAppend(a, [Ellipsis(t)]);
    ProjectAppend(a + [Ellipsis(t)], b);
  }

  /** A truncated front segment as its three parts. */
  lemma FrontParts(currentPage: nat, midPage: nat, c: Config, frontTarget: int)
    requires FrontTruncated(midPage, c)
    ensures FrontSegment(currentPage, midPage, c, frontTarget)
            == Pages(1, c.edgePageCount, currentPage) + [Ellipsis(frontTarget)]
               + Pages(midPage - c.siblingPageCount, midPage, currentPage)
  {
    assert Sub(midPage, c.siblingPageCount) == midPage - c.siblingPageCount;
  }

  /** A truncated rear segment as its three parts. */
  lemma RearParts(totalPages: nat, currentPage: nat, midPage: nat, c: Config, rearTarget: int)
    requires RearTruncated(totalPages, midPage, c)
    ensures RearSegment(totalPages, currentPage, midPage, c, rearTarget)
            == Pages(midPage + 1, midPage + c.siblingPageCount, currentPage) + [Ellipsis(rearTarget)]
               + Pages(totalPages - c.edgePageCount + 1, totalPages, currentPage)
  {
    assert Sub(totalPages, c.edgePageCount) + 1 == totalPages - c.edgePageCount + 1;
  }

  /** The page numbers of the front segment, as runs. */
  lemma FrontNumbers(currentPage: nat, midPage: nat, c: Config, frontTarget: int)
    ensures PageNumbers(FrontSegment(currentPage, midPage, c, frontTarget))
            == if FrontTruncated(midPage, c)
               then Range(1, c.edgePageCount) + Range(midPage - c.siblingPageCount, midPage)
               else Range(1, midPage)
    ensures EllipsisTargets(FrontSegment(currentPage, midPage, c, frontTarget))
            == if FrontTruncated(midPage, c) then [frontTarget] else []
  {
    if FrontTruncated(midPage, c) {
      var f1 := Pages(1, c.edgePageCount, currentPage);
      var f2 := Pages(midPage - c.siblingPageCount, midPage, currentPage);
      FrontParts(currentPage, midPage, c, frontTarget);
      ProjectAround(f1, frontTarget, f2);
      ProjectPages(1, c.edgePageCount, currentPage);
      ProjectPages(midPage - c.siblingPageCount, midPage, currentPage);
      assert [] + [frontTarget] + [] == [frontTarget];
    } else {
      ProjectPages(1, midPage, currentPage);
    }
  }

  /** The active page buttons of the front segment. */
  lemma FrontActive(currentPage: nat, midPage: nat, c: Config, frontTarget: int)
    ensures ActivePages(FrontSegment(currentPage, midPage, c, frontTarget))
            == if FrontTruncated(midPage, c)
               then (if 1 <= currentPage <= c.edgePageCount
                       || midPage - c.siblingPageCount <= currentPage <= midPage
                     then [currentPage] else [])
               else (if 1 <= currentPage <= midPage then [currentPage] else [])
  {
    if FrontTruncated(midPage, c) {
      var f1 := Pages(1, c.edgePageCount, currentPage);
      var f2 := Pages(midPage - c.siblingPageCount, midPage, currentPage);
      FrontParts(currentPage, midPage, c, frontTarget);
      ProjectAround(f1, frontTarget, f2);
      ProjectPages(1, c.edgePageCount, currentPage);
      ProjectPages(midPage - c.siblingPageCount, midPage, currentPage);
    } else {
      ProjectPages(1, midPage, currentPage);
    }
  }

  /** The page numbers of the rear segment, as runs. */
  lemma RearNumbers(totalPages: nat, currentPage: nat, midPage: nat, c: Config, rearTarget: int)
    ensures PageNumbers(RearSegment(totalPages, currentPage, midPage, c, rearTarget))
            == if RearTruncated(totalPages, midPage, c)
               then Range(midPage + 1, midPage + c.siblingPageCount)
                    + Range(totalPages - c.edgePageCount + 1, totalPages)
               else Range(midPage + 1, totalPages)
    ensures EllipsisTargets(RearSegment(totalPages, currentPage, midPage, c, rearTarget))
            == if RearTruncated(totalPages, midPage, c) then [rearTarget] else []
  {
    if RearTruncated(totalPages, midPage, c) {
      var r1 := Pages(midPage + 1, midPage + c.siblingPageCount, currentPage);
      var r2 := Pages(totalPages - c.edgePageCount + 1, totalPages, currentPage);
      RearParts(totalPages, currentPage, midPage, c, rearTarget);
      ProjectAround(r1, rearTarget, r2);
      ProjectPages(midPage + 1, midPage + c.siblingPageCount, currentPage);
      ProjectPages(totalPages - c.edgePageCount + 1, totalPages, currentPage);
      assert [] + [rearTarget] + [] == [rearTarget];
    } else {
      ProjectPages(midPage + 1, totalPages, currentPage);
    }
  }

  /** The active page buttons of the rear segment. */
  lemma RearActive(totalPages: nat, currentPage: nat, midPage: nat, c: Config, rearTarget: int)
    ensures ActivePages(RearSegment(totalPages, currentPage, midPage, c, rearTarget))
            == if RearTruncated(totalPages, midPage, c)
               then (if midPage < currentPage <= midPage + c.siblingPageCount
                       || totalPages - c.edgePageCount < currentPage <= totalPages
                     then [currentPage] else [])
               else (if midPage < currentPage <= totalPages then [currentPage] else [])
  {
    if RearTruncated(totalPages, midPage, c) {
      var r1 := Pages(midPage + 1, midPage + c.siblingPageCount, currentPage);
      var r2 := Pages(totalPages - c.edgePageCount + 1, totalPages, currentPage);
      RearParts(totalPages, currentPage, midPage, c, rearTarget);
      ProjectAround(r1, rearTarget, r2);
      ProjectPages(midPage + 1, midPage + c.siblingPageCount, currentPage);
      ProjectPages(totalPages - c.edgePageCount + 1, totalPages, currentPage);
    } else {
      ProjectPages(midPage + 1, totalPages, currentPage);
    }
  }

  /** The front segment shows, in increasing order, exactly the edge pages
      and the pages from `midPage - sibling` to `midPage` when truncated,
      and every page up to `midPage` otherwise. */
  lemma FrontLayout(currentPage: nat, midPage: nat, c: Config, frontTarget: int)
    ensures var ns := PageNumbers(FrontSegment(currentPage, midPage, c, frontTarget));
      && IncreasingWithin(ns, 1, midPage)
      && (forall n :: n in ns <==>
            if FrontTruncated(midPage, c)
            then 1 <= n <= c.edgePageCount || midPage - c.siblingPageCount <= n <= midPage
            else 1 <= n <= midPage)
  {
    FrontNumbers(currentPage, midPage, c, frontTarget);
    var ns := PageNumbers(FrontSegment(currentPage, midPage, c, frontTarget));
    if FrontTruncated(midPage, c) {
      var lo := midPage - c.siblingPageCount;
      assert c.edgePageCount < lo;
      assert ns == Range(1, c.edgePageCount) + Range(lo, midPage);
      RangeFacts(1, c.edgePageCount);
      RangeFacts(lo, midPage);
      AppendWithin(Range(1, c.edgePageCount), Range(lo, midPage), 1, lo - 1, midPage);
      forall n
        ensures n in ns <==> (1 <= n <= c.edgePageCount || lo <= n <= midPage)
      {
        assert n in ns <==> n in Range(1, c.edgePageCount) || n in Range(lo, midPage);
      }
    } else {
      RangeFacts(1, midPage);
    }
  }

  /** The rear segment shows, in increasing order, exactly the `sibling`
      pages after `midPage` and the last `edge` pages when truncated, and
      every page after `midPage` otherwise. */
  lemma RearLayout(totalPages: nat, currentPage: nat, midPage: nat, c: Config, rearTarget: int)
    ensures var ns := PageNumbers(RearSegment(totalPages, currentPage, midPage, c, rearTarget));
      && IncreasingWithin(ns, midPage + 1, totalPages)
      && (forall n :: n in ns <==>
            if RearTruncated(totalPages, midPage, c)
            then midPage < n <= midPage + c.siblingPageCount
                 || totalPages - c.edgePageCount < n <= totalPages
            else midPage < n <= totalPages)
  {
    RearNumbers(totalPages, currentPage, midPage, c, rearTarget);
    var ns := PageNumbers(RearSegment(totalPages, currentPage, midPage, c, rearTarget));
    if RearTruncated(totalPages, midPage, c) {
      var hi := midPage + c.siblingPageCount;
      var lo := totalPages - c.edgePageCount + 1;
      assert midPage + c.edgePageCount + 1 + c.siblingPageCount < totalPages;
      assert ns == Range(midPage + 1, hi) + Range(lo, totalPages);
      RangeFacts(midPage + 1, hi);
      RangeFacts(lo, totalPages);
      AppendWithin(Range(midPage + 1, hi), Range(lo, totalPages), midPage + 1, lo - 1, totalPages);
      forall n
        ensures n in ns <==> (midPage < n <= hi || lo <= n <= totalPages)
      {
        assert n in ns <==> n in Range(midPage + 1, hi) || n in Range(lo, totalPages);
      }
    } else {
      RangeFacts(midPage + 1, totalPages);
    }
  }

  /** Cutting a sequence at a known item. */
  lemma CutAt(w: seq<Item>, head: seq<Item>, x: Item, tail: seq<Item>)
    requires w == head + [x] + tail
    ensures |head| < |w| && w[|head|] == x && |head| == |w| - 1 - |tail|
    ensures w[..|head|] == head && w[|head| + 1..] == tail
  {
    assert w[|head|..] == [x] + tail;
  }

  lemma AppendAssoc(a: seq<Item>, b: seq<Item>, x: seq<Item>, d: seq<Item>)
    ensures a + (b + x + d) == (a + b) + x + d
  {
  }

  /** A run of page buttons is increasing within its bounds. */
  lemma PagesWithin(lo: nat, hi: nat, currentPage: nat)
    ensures IncreasingWithin(PageNumbers(Pages(lo, hi, currentPage)), lo, hi)
  {
    ProjectPages(lo, hi, currentPage);
    RangeFacts(lo, hi);
  }

  /** Two windows whose page numbers are increasing runs, the second above
      the first, join into one. */
  lemma JoinWithin(x: seq<Item>, y: seq<Item>, lo: int, mid: int, hi: int)
    requires IncreasingWithin(PageNumbers(x), lo, mid)
    requires IncreasingWithin(PageNumbers(y), mid + 1, hi)
    requires lo <= mid + 1 && mid <= hi
    ensures IncreasingWithin(PageNumbers(x + y), lo, hi)
  {
    PageNumbersAppend(x, y);
    AppendWithin(PageNumbers(x), PageNumbers(y), lo, mid, hi);
  }

  /** A run of pages placed after a window that ends at `mid`. */
  lemma PagesAbove(w: seq<Item>, mid: nat, hi: nat, currentPage: nat)
    requires IncreasingWithin(PageNumbers(w), 1, mid)
    requires mid <= hi
    ensures IncreasingWithin(PageNumbers(w + Pages(mid + 1, hi, currentPage)), 1, hi)
  {
    PagesWithin(mid + 1, hi, currentPage);
    JoinWithin(w, Pages(mid + 1, hi, currentPage), 1, mid, hi);
  }

  /** A run of pages placed before a window that starts after `mid`. */
  lemma PagesBelow(w: seq<Item>, lo: nat, mid: nat, hi: nat, currentPage: nat)
    requires IncreasingWithin(PageNumbers(w), mid + 1, hi)
    requires lo <= mid + 1 && mid <= hi
    ensures IncreasingWithin(PageNumbers(Pages(lo, mid, currentPage) + w), lo, hi)
  {
    PagesWithin(lo, mid, currentPage);
    JoinWithin(Pages(lo, mid, currentPage), w, lo, mid, hi);
  }

  lemma FrontWithin(currentPage: nat, midPage: nat, c: Config, frontTarget: int)
    ensures IncreasingWithin(PageNumbers(FrontSegment(currentPage, midPage, c, frontTarget)), 1, midPage)
  {
    FrontLayout(currentPage, midPage, c, frontTarget);
  }

  lemma RearWithin(totalPages: nat, currentPage: nat, midPage: nat, c: Config, rearTarget: int)
    ensures IncreasingWithin(PageNumbers(RearSegment(totalPages, currentPage, midPage, c, rearTarget)),
                             midPage + 1, totalPages)
  {
    RearLayout(totalPages, currentPage, midPage, c, rearTarget);
  }

  /** A window with a truncated front, cut around its front ellipsis. */
  lemma FrontStructure(totalPages: nat, currentPage: nat, midPage: nat, c: Config,
                       frontTarget: int, rearTarget: int)
    requires FrontTruncated(midPage, c)
    ensures Window(totalPages, currentPage, midPage, c, frontTarget, rearTarget)
            == Pages(1, c.edgePageCount, currentPage) + [Ellipsis(frontTarget)]
               + (Pages(midPage - c.siblingPageCount, midPage, currentPage)
                  + RearSegment(totalPages, currentPage, midPage, c, rearTarget))
  {
    assert Sub(midPage, c.siblingPageCount) == midPage - c.siblingPageCount;
  }

  /** A window with a truncated rear, cut around its rear ellipsis. */
  lemma RearStructure(totalPages: nat, currentPage: nat, midPage: nat, c: Config,
                      frontTarget: int, rearTarget: int)
    requires RearTruncated(totalPages, midPage, c)
    ensures Window(totalPages, currentPage, midPage, c, frontTarget, rearTarget)
            == (FrontSegment(currentPage, midPage, c, frontTarget)
                + Pages(midPage + 1, midPage + c.siblingPageCount, currentPage))
               + [Ellipsis(rearTarget)]
               + Pages(totalPages - c.edgePageCount + 1, totalPages, currentPage)
  {
    var front := FrontSegment(currentPage, midPage, c, frontTarget);
    var r1 := Pages(midPage + 1, midPage + c.siblingPageCount, currentPage);
    var r2 := Pages(totalPages - c.edgePageCount + 1, totalPages, currentPage);
    assert Sub(totalPages, c.edgePageCount) + 1 == totalPages - c.edgePageCount + 1;
    assert RearSegment(totalPages, currentPage, midPage, c, rearTarget) == r1 + [Ellipsis(rearTarget)] + r2;
    AppendAssoc(front, r1, [Ellipsis(rearTarget)], r2);
  }

  /** The position of a rear ellipsis: the button just before the last
      `edge` buttons. */
  function RearIndex(w: seq<Item>, c: Config): int {
    |w| - 1 - c.edgePageCount
  }

  /** Where the front ellipsis sits when the front is truncated: it is
      the button right after exactly the edge pages `1..=edge`, and the
      pages after it increase from no lower than `midPage - sibling`. */
  lemma FrontEllipsisPlacement(w: seq<Item>, totalPages: nat, currentPage: nat, midPage: nat, c: Config,
                               frontTarget: int, rearTarget: int)
    requires midPage <= totalPages
    requires FrontTruncated(midPage, c)
    requires w == Window(totalPages, currentPage, midPage, c, frontTarget, rearTarget)
    ensures c.edgePageCount < |w| && w[c.edgePageCount] == Ellipsis(frontTarget)
    ensures PageNumbers(w[..c.edgePageCount]) == Range(1, c.edgePageCount)
    ensures IncreasingWithin(PageNumbers(w[c.edgePageCount + 1..]), midPage - c.siblingPageCount, totalPages)
  {
    var lo: nat := midPage - c.siblingPageCount;
    var f1 := Pages(1, c.edgePageCount, currentPage);
    var f2 := Pages(lo, midPage, currentPage);
    var rear := RearSegment(totalPages, currentPage, midPage, c, rearTarget);
    assert w == f1 + [Ellipsis(frontTarget)] + (f2 + rear) by {
      FrontStructure(totalPages, currentPage, midPage, c, frontTarget, rearTarget);
    }
    assert PageNumbers(f1) == Range(1, c.edgePageCount) by {
      ProjectPages(1, c.edgePageCount, currentPage);
    }
    assert IncreasingWithin(PageNumbers(f2 + rear), lo, totalPages) by {
      RearWithin(totalPages, currentPage, midPage, c, rearTarget);
      PagesBelow(rear, lo, midPage, totalPages, currentPage);
    }
    FrontCut(w, f1, frontTarget, f2 + rear, c, lo, totalPages);
  }

  /** The front placement for any window cut around an ellipsis after the
      edge pages. */
  lemma FrontCut(w: seq<Item>, head: seq<Item>, t: int, tail: seq<Item>, c: Config, lo: int, hi: int)
    requires w == head + [Ellipsis(t)] + tail
    requires PageNumbers(head) == Range(1, c.edgePageCount) && |head| == c.edgePageCount
    requires IncreasingWithin(PageNumbers(tail), lo, hi)
    ensures       && c.edgePageCount < |w| && w[c.edgePageCount] == Ellipsis(t)
      && PageNumbers(w[..c.edgePageCount]) == Range(1, c.edgePageCount)
      && IncreasingWithin(PageNumbers(w[c.edgePageCount + 1..]), lo, hi)
  {
    CutAt(w, head, Ellipsis(t), tail);
  }

  /** Where the rear ellipsis sits when the rear is truncated: it is the
      button right before exactly the last `edge` pages, and the pages
      before it increase up to no higher than `midPage + sibling`. */
  lemma RearEllipsisPlacement(w: seq<Item>, totalPages: nat, currentPage: nat, midPage: nat, c: Config,
                              frontTarget: int, rearTarget: int)
    requires RearTruncated(totalPages, midPage, c)
    requires w == Window(totalPages, currentPage, midPage, c, frontTarget, rearTarget)
    ensures c.edgePageCount < |w| && w[RearIndex(w, c)] == Ellipsis(rearTarget)
    ensures IncreasingWithin(PageNumbers(w[..RearIndex(w, c)]), 1, midPage + c.siblingPageCount)
    ensures PageNumbers(w[RearIndex(w, c) + 1..]) == Range(totalPages - c.edgePageCount + 1, totalPages)
  {
    var front := FrontSegment(currentPage, midPage, c, frontTarget);
    var r1 := Pages(midPage + 1, midPage + c.siblingPageCount, currentPage);
    var r2 := Pages(totalPages - c.edgePageCount + 1, totalPages, currentPage);
    assert w == (front + r1) + [Ellipsis(rearTarget)] + r2 by {
      RearStructure(totalPages, currentPage, midPage, c, frontTarget, rearTarget);
    }
    assert PageNumbers(r2) == Range(totalPages - c.edgePageCount + 1, totalPages) by {
      ProjectPages(totalPages - c.edgePageCount + 1, totalPages, currentPage);
    }
    assert IncreasingWithin(PageNumbers(front + r1), 1, midPage + c.siblingPageCount) by {
      FrontWithin(currentPage, midPage, c, frontTarget);
      PagesAbove(front, midPage, midPage + c.siblingPageCount, currentPage);
    }
    RearCut(w, front + r1, rearTarget, r2, c, midPage + c.siblingPageCount,
            totalPages - c.edgePageCount + 1, totalPages);
  }

  /** The rear placement for any window cut around an ellipsis before the
      last edge pages. */
  lemma RearCut(w: seq<Item>, head: seq<Item>, t: int, tail: seq<Item>, c: Config,
                hi: int, lo: int, total: int)
    requires w == head + [Ellipsis(t)] + tail
    requires IncreasingWithin(PageNumbers(head), 1, hi)
    requires |tail| == c.edgePageCount
    requires lo >= 0 && total >= 0 && PageNumbers(tail) == Range(lo, total)
    ensures && c.edgePageCount < |w| && w[RearIndex(w, c)] == Ellipsis(t)
            && IncreasingWithin(PageNumbers(w[..RearIndex(w, c)]), 1, hi)
            && PageNumbers(w[RearIndex(w, c) + 1..]) == Range(lo, total)
  {
    CutAt(w, head, Ellipsis(t), tail);
  }

  /** Ordering and bounds: page numbers strictly increase and lie in
      `[1, totalPages]`. Completeness: the first and last `edge` pages and
      the pages within `sibling` of the mid page are always shown (given
      that the mid page lies between the breakpoints on a truncated side, as
      both versions arrange), and an
      untruncated side shows every page. An ellipsis appears on a side
      exactly when that side is truncated and stands for at least two
      hidden pages, which also makes both subtractions the source performs
      there safe. With no truncation the window is exactly `1..=totalPages`. */
  lemma WindowLayout(totalPages: nat, currentPage: nat, midPage: nat, c: Config,
                     frontTarget: int, rearTarget: int)
    requires midPage <= totalPages
    requires FrontTruncated(midPage, c) ==> midPage <= RearBreakpoint(totalPages, c)
    requires RearTruncated(totalPages, midPage, c) ==> FrontBreakpoint(c) <= midPage
    ensures var w := Window(totalPages, currentPage, midPage, c, frontTarget, rearTarget);
      && IncreasingWithin(PageNumbers(w), 1, totalPages)
      && EllipsisTargets(w)
         == (if FrontTruncated(midPage, c) then [frontTarget] else [])
            + (if RearTruncated(totalPages, midPage, c) then [rearTarget] else [])
      && (forall n :: 1 <= n <= totalPages
            && (n <= c.edgePageCount || totalPages - c.edgePageCount < n
                || midPage - c.siblingPageCount <= n <= midPage + c.siblingPageCount)
            ==> n in PageNumbers(w))
      && (!FrontTruncated(midPage, c) ==> forall n :: 1 <= n <= midPage ==> n in PageNumbers(w))
      && (!RearTruncated(totalPages, midPage, c) ==>
            forall n :: midPage < n <= totalPages ==> n in PageNumbers(w))
      && (FrontTruncated(midPage, c) ==>
            && c.edgePageCount + 2 <= midPage - c.siblingPageCount - 1
            && forall n :: c.edgePageCount < n < midPage - c.siblingPageCount ==> n !in PageNumbers(w))
      && (RearTruncated(totalPages, midPage, c) ==>
            && midPage + c.siblingPageCount + 2 <= totalPages - c.edgePageCount
            && forall n :: midPage + c.siblingPageCount < n <= totalPages - c.edgePageCount
                 ==> n !in PageNumbers(w))
      && ((!FrontTruncated(midPage, c) && !RearTruncated(totalPages, midPage, c))
            ==> w == Pages(1, totalPages, currentPage))
  {
    WindowOrder(totalPages, currentPage, midPage, c, frontTarget, rearTarget);
    WindowShown(totalPages, currentPage, midPage, c, frontTarget, rearTarget);
    if !FrontTruncated(midPage, c) && !RearTruncated(totalPages, midPage, c) {
      PagesSplit(1, midPage, totalPages, currentPage);
    }
  }

  /** The order, bounds and ellipsis-target part of `WindowLayout`. */
  lemma WindowOrder(totalPages: nat, currentPage: nat, midPage: nat, c: Config,
                    frontTarget: int, rearTarget: int)
    requires midPage <= totalPages
    ensures var w := Window(totalPages, currentPage, midPage, c, frontTarget, rearTarget);
      && IncreasingWithin(PageNumbers(w), 1, totalPages)
      && EllipsisTargets(w)
         == (if FrontTruncated(midPage, c) then [frontTarget] else [])
            + (if RearTruncated(totalPages, midPage, c) then [rearTarget] else [])
  {
    var front := FrontSegment(currentPage, midPage, c, frontTarget);
    var rear := RearSegment(totalPages, currentPage, midPage, c, rearTarget);
    FrontWithin(currentPage, midPage, c, frontTarget);
    RearWithin(totalPages, currentPage, midPage, c, rearTarget);
    JoinWithin(front, rear, 1, midPage, totalPages);
    FrontNumbers(currentPage, midPage, c, frontTarget);
    RearNumbers(totalPages, currentPage, midPage, c, rearTarget);
    EllipsisTargetsAppend(front, rear);
  }

  /** The shown-and-hidden part of `WindowLayout`. */
  lemma WindowShown(totalPages: nat, currentPage: nat, midPage: nat, c: Config,
                    frontTarget: int, rearTarget: int)
    requires midPage <= totalPages
    requires FrontTruncated(midPage, c) ==> midPage <= RearBreakpoint(totalPages, c)
    requires RearTruncated(totalPages, midPage, c) ==> FrontBreakpoint(c) <= midPage
    ensures var w := Window(totalPages, currentPage, midPage, c, frontTarget, rearTarget);
      && (forall n :: n in PageNumbers(w) <==>
            n in PageNumbers(FrontSegment(currentPage, midPage, c, frontTarget))
            || n in PageNumbers(RearSegment(totalPages, currentPage, midPage, c, rearTarget)))
      && (forall n :: 1 <= n <= totalPages
            && (n <= c.edgePageCount || totalPages - c.edgePageCount < n
                || midPage - c.siblingPageCount <= n <= midPage + c.siblingPageCount)
            ==> n in PageNumbers(w))
      && (!FrontTruncated(midPage, c) ==> forall n :: 1 <= n <= midPage ==> n in PageNumbers(w))
      && (!RearTruncated(totalPages, midPage, c) ==>
            forall n :: midPage < n <= totalPages ==> n in PageNumbers(w))
      && (FrontTruncated(midPage, c) ==>
            && c.edgePageCount + 2 <= midPage - c.siblingPageCount - 1
            && forall n :: c.edgePageCount < n < midPage - c.siblingPageCount ==> n !in PageNumbers(w))
      && (RearTruncated(totalPages, midPage, c) ==>
            && midPage + c.siblingPageCount + 2 <= totalPages - c.edgePageCount
            && forall n :: midPage + c.siblingPageCount < n <= totalPages - c.edgePageCount
                 ==> n !in PageNumbers(w))
  {
    var front := FrontSegment(currentPage, midPage, c, frontTarget);
    var rear := RearSegment(totalPages, currentPage, midPage, c, rearTarget);
    FrontLayout(currentPage, midPage, c, frontTarget);
    RearLayout(totalPages, currentPage, midPage, c, rearTarget);
    PageNumbersAppend(front, rear);
  }

  /** When the current page is in `[1, totalPages]` and shown, it is the one
      and only page button marked active. */
  lemma ActiveLayout(totalPages: nat, currentPage: nat, midPage: nat, c: Config,
                     frontTarget: int, rearTarget: int)
    requires midPage <= totalPages
    ensures var w := Window(totalPages, currentPage, midPage, c, frontTarget, rearTarget);
      ActivePages(w) == (if currentPage in PageNumbers(w) then [currentPage] else [])
  {
    var front := FrontSegment(currentPage, midPage, c, frontTarget);
    var rear := RearSegment(totalPages, currentPage, midPage, c, rearTarget);
    FrontLayout(currentPage, midPage, c, frontTarget);
    RearLayout(totalPages, currentPage, midPage, c, rearTarget);
    FrontActive(currentPage, midPage, c, frontTarget);
    RearActive(totalPages, currentPage, midPage, c, rearTarget);
    ProjectAppend(front, rear);
  }
}
