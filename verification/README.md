# Pagination and selection state machines of a Yew component library

This project models, in Dafny, the logic of a small UI component library
written in Rust on the Yew framework. Markup, styling and callback plumbing
are left out.

The centre of the model is the **Pagination** component. It exists in two
versions: `src/components/pagination/mod.rs` (current) and
`src/pagination.rs` (older). Each version keeps a `(total_pages,
current_page)` pair, the `Paginator`. On it run five navigation operations
(`set_page`, `first_page`, `last_page`, `next_page`, `prev_page`). Each
operation returns a "changed" flag, and `update` emits `on_change` only when
that flag is set. `view` turns the state into a window of page buttons.
It computes a front breakpoint `E+2+S` and a rear breakpoint
`total ⊖ (E+1+S)` (saturating), where E is `edge_page_count` and S is
`sibling_page_count`. From these it gets a mid page and two truncation
flags. It then lays out page buttons, plus one ellipsis per truncated side
that jumps five pages.

Modules:

- `PageState`: the shared state, messages and results.
- `PageWindow`: the shared window builder and its layout theorems.
- `Pagination`: the current version.
- `LegacyPagination`: the older version, with lemmas relating it to the current one.
- `SegmentedControl`, `Tabs`, `TabsContext`, `SidebarContext`: the four small "set or flip, and report whether anything changed" state machines.
- `Selection`, `DecimalText`, `Ordering`, `Wrappers`: helpers. `DecimalText` models `usize::to_string`, which the tabs component uses as a panel's fallback key.

Every operation is a pure function. A navigation operation returns
`Step(next, changed)`. `update` returns `Outcome(next, rerender, emitted)`,
where `emitted` is the value handed to `on_change`, if any. A window is a
`seq<Item>` of `Page(number, active)` and `Ellipsis(target)` items.

Decisions about edge cases:

- The current `set_page` uses `usize::clamp(1, total_pages)`, which panics when
  `total_pages == 0`. The model keeps the panic as the precondition
  `totalPages >= 1` on `SetPage`, `FirstPage` and `LastPage`, and on `Update`
  for the First, Last and Set messages (`Pagination.Handles`). The older
  version's `set_page` does not panic. Its `set_page(0)` on an empty
  paginator moves to the non-existent page 1
  (`LegacyPagination.EmptyStateQuirk`).
- The doc comment of the current component gives a default sibling count of
  2. The code default is 1 (`#[prop_or(1)]`), and `PageWindow.DefaultConfig`
  uses 1.

## Model

| member | source | states |
|---|---|---|
| Pagination.Create | src/components/pagination/mod.rs:101-108 | the created state is valid (page 0 exactly when there are no pages), an absent total counts as 0, and page 1 is current when pages exist |
| Pagination.CreateExamples | src/components/pagination/mod.rs:260-285 | creating 0 (or absent), 1 and 100 pages gives current page 0, 1 and 1 |
| Pagination.SetPage | src/components/pagination/mod.rs:59-68 | needs at least one page (clamp panics otherwise); the new page is in [1,total], equals the request when it is in range, is the nearest bound otherwise; changed iff the page moved, and nothing changes when it did not |
| Pagination.FirstPage | src/components/pagination/mod.rs:70-72 | moves to page 1, changed iff the page was not already 1 |
| Pagination.LastPage | src/components/pagination/mod.rs:74-76 | moves to the last page, changed iff the page was not already the last |
| Pagination.NextPage | src/components/pagination/mod.rs:78-85 | advances by one and reports a change iff current < total, otherwise leaves the state untouched; keeps a valid state valid |
| Pagination.PrevPage | src/components/pagination/mod.rs:87-94 | goes back one and reports a change iff current > 1, otherwise leaves the state untouched; keeps a valid state valid |
| Pagination.Update | src/components/pagination/mod.rs:110-153 | each message runs its own operation (First → `first_page`, Last → `last_page`, Next → `next_page`, Prev → `prev_page`, Set(n) → `set_page(n)`) and takes over its new state and changed flag; re-renders iff the current page moved, emits the new current page exactly then, never changes the total, keeps a valid state valid |
| Pagination.EmptyIsInert | src/components/pagination/mod.rs:78-94 | with no pages, Next and Prev are no-ops that neither re-render nor emit |
| Pagination.SetCurrentIsSilent | src/components/pagination/mod.rs:144-151 | setting the page already current leaves the state unchanged and emits nothing |
| Pagination.ScriptedNavigation | src/components/pagination/mod.rs:288-310 | on five pages, prev/next/prev/first/last visit pages 1, 2, 1, 1, 5 |
| Pagination.WindowExample | src/components/pagination/mod.rs:162-216 | twenty pages, E=1, S=2, page 10 render as 1 … 8 9 [10] 11 12 … 20, with the ellipses jumping to 5 and 15 |
| Pagination.MidPageBounds | src/components/pagination/mod.rs:162-174 | the mid page never exceeds the total, sits between the breakpoints on a truncated side, and equals the current page when that lies between the breakpoints |
| Pagination.ViewLayout | src/components/pagination/mod.rs:162-216 | for every state: page numbers strictly increase within [1,total]; edge pages and the mid page's siblings are always shown; one ellipsis per truncated side, each hiding at least two pages; on a side that is not truncated every page from 1 to the mid page (front) or from just after the mid page to the total (rear) is shown; the full range 1..total without truncation; an empty window with no pages |
| Pagination.ViewFrontEllipsis | src/components/pagination/mod.rs:188-201 | when the front is truncated, the window opens with exactly the edge pages 1..E, then the ellipsis targeting `current ⊖ 5` (saturating), then increasing pages no lower than mid-S |
| Pagination.ViewRearEllipsis | src/components/pagination/mod.rs:203-216 | when the rear is truncated, the window ends with the ellipsis targeting `current + 5`, followed by exactly the last E pages, and the pages before it increase up to no higher than mid+S |
| Pagination.CurrentPageShownOnce | src/components/pagination/mod.rs:167-186 | with at least one page, the current page appears in the window exactly once and is the only button marked active |
| Pagination.EllipsisJumpLanding | src/components/pagination/mod.rs:191-209 | the front jump lands on max(1, current-5); the rear jump lands on min(total, current+5) |
| Pagination.DisabledExactlyWhenInert | src/components/pagination/mod.rs:218-247 | in a valid state First/Prev/Next/Last are disabled exactly when pressing them would change nothing; with no pages all four are disabled |
| PageWindow.WindowLayout | src/components/pagination/mod.rs:162-216 | for any mid page between the breakpoints: increasing page numbers within [1,total]; edges and siblings shown; hidden runs of at least two pages behind each ellipsis, so `mid - S` and `total - E + 1` never underflow; exactly 1..total without truncation |
| PageWindow.FrontEllipsisPlacement | src/components/pagination/mod.rs:188-201 | for any mid page, a truncated front puts its ellipsis directly after exactly the pages 1..E, with increasing pages from mid-S on after it |
| PageWindow.RearEllipsisPlacement | src/components/pagination/mod.rs:203-216 | a truncated rear puts its ellipsis directly before exactly the last E pages, with increasing pages up to mid+S before it |
| PageWindow.FrontLayout | src/components/pagination/mod.rs:188-201 | the front segment shows exactly pages 1..E and mid-S..mid when truncated, else 1..mid, in increasing order |
| PageWindow.RearLayout | src/components/pagination/mod.rs:203-216 | the rear segment shows exactly pages mid+1..mid+S and the last E pages when truncated, else mid+1..total, in increasing order |
| PageWindow.ActiveLayout | src/components/pagination/mod.rs:176-186 | the active buttons of a window are the current page if it is shown, and nothing otherwise |
| LegacyPagination.Create | src/pagination.rs:78-84 | the created state is valid, with page 1 current when pages exist |
| LegacyPagination.SetPage | src/pagination.rs:29-45 | page 0 goes to 1, a page past the end to the last page, others are kept; changed iff the page moved |
| LegacyPagination.NextPage | src/pagination.rs:47-54 | advances by one iff current < total, reporting the change |
| LegacyPagination.PrevPage | src/pagination.rs:56-63 | goes back one iff current > 1, reporting the change |
| LegacyPagination.FirstPage | src/pagination.rs:65-67 | moves to page 1 when pages exist; with no pages, moves to page 0, reporting a change exactly when the page was not already 0 (as from the state (0,1) that Last reaches) |
| LegacyPagination.LastPage | src/pagination.rs:69-71 | moves to the last page when pages exist, and to page 1 when there are none |
| LegacyPagination.Update | src/pagination.rs:86-129 | each message runs its own operation (First, Last, Next, Prev, Set(n)) and takes over its new state and changed flag; re-renders iff the page moved and emits the new page exactly then; keeps a valid non-empty state valid |
| LegacyPagination.ScriptedNavigation | src/pagination.rs:283-305 | on five pages, prev/next/prev/first/last visit pages 1, 2, 1, 1, 5 |
| LegacyPagination.CreateAgrees | src/pagination.rs:78-84 | both versions create the same state for every total |
| LegacyPagination.SetPageAgrees | src/pagination.rs:31-37 | with at least one page the hand-written clamp equals `clamp(page, 1, total)` |
| LegacyPagination.UpdateAgrees | src/pagination.rs:86-129 | with at least one page both versions handle every message identically |
| LegacyPagination.StepAgrees | src/pagination.rs:47-63 | Next and Prev agree between the versions for every state, including the empty one |
| LegacyPagination.EmptyStateQuirk | src/pagination.rs:29-71 | with no pages, Last moves to page 1 and emits it, breaking the invariant, and First changes nothing; the current version panics on both |
| LegacyPagination.MidPageAgrees | src/pagination.rs:140-150 | the nested-if mid page equals the current version's `min` form |
| LegacyPagination.FrontJumpSafe | src/pagination.rs:152-170 | when E+S >= 2 and the front is truncated, `current_page - 5` does not underflow and equals the saturating jump |
| LegacyPagination.ViewAgrees | src/pagination.rs:135-243 | when E+S >= 2 (including the defaults) the older window equals the current one |
| LegacyPagination.DefaultViewsAgree | src/pagination.rs:7-10 | with the default one edge page and one sibling, the older window equals the current one in every state |
| LegacyPagination.FrontJumpUnderflows | src/pagination.rs:168-171 | with E=S=0, four pages and page 3, the front ellipsis targets 3-5 = -2, while the current version lands on page 1 |
| DecimalText.Decimal | src/components/tabs/mod.rs:107 | an index renders as a non-empty string of digits with no leading zero |
| DecimalText.ValueOfDecimal | src/components/tabs/mod.rs:107 | reading the rendering back gives the index |
| DecimalText.DecimalInjective | src/components/tabs/mod.rs:107 | distinct indices render differently |
| SegmentedControl.Create | src/components/segmented_control/mod.rs:74-87 | a non-empty default is selected, else the first item's value; the selection is empty only when the default is empty and there is no first item or its value is empty |
| SegmentedControl.HandleChange | src/components/segmented_control/mod.rs:56-67 | afterwards the value is selected; re-renders iff it differs from the old selection, and emits it exactly then |
| SegmentedControl.ChoosingAnItemSelectsIt | src/components/segmented_control/mod.rs:103-110 | after choosing item k, item k is flagged selected, with distinct values only item k is, and choosing it again is silent |
| SegmentedControl.InitialSelectionIsFlagged | src/components/segmented_control/mod.rs:74-110 | with items present and an empty default or one naming an item, some item is initially flagged selected |
| Tabs.Create | src/components/tabs/mod.rs:61-65 | the initial tab is the default tab if given, else the decimal key of index 0 |
| Tabs.Select | src/components/tabs/mod.rs:67-79 | afterwards the value is selected; re-renders iff it differs, and emits it exactly then |
| Tabs.SelectTwiceIsSilent | src/components/tabs/mod.rs:67-79 | selecting the same value again neither re-renders nor emits |
| Tabs.ShownPanels | src/components/tabs/mod.rs:99-110 | panel k is shown iff its value, or its index in decimal when it has none, equals the selection; shown panels keep their order |
| Tabs.AtMostOnePanelWithoutValues | src/components/tabs/mod.rs:102-109 | if no panel has an explicit value, at most one panel is shown |
| Tabs.DefaultShowsFirstPanel | src/components/tabs/mod.rs:61-65 | with no default and no explicit values, exactly the first panel is shown initially |
| Tabs.SelectShowsChosenPanels | src/components/tabs/mod.rs:67-110 | after selecting a value, the panels shown are exactly those keyed by it |
| TabsContext.Reduce | src/contexts/tabs_context.rs:19-30 | the selected tab becomes the action's value and the callback is carried over |
| TabsContext.SelectOverrides | src/contexts/tabs_context.rs:19-30 | Select(a) then Select(b) equals Select(b), and Select(a) twice equals once |
| TabsContext.SelectCurrentIsIdentity | src/contexts/tabs_context.rs:19-30 | selecting the tab already selected leaves the state unchanged |
| TabsContext.Provide | src/contexts/tabs_context.rs:45-51 | the initial tab is the default value or the empty string, with the given callback |
| SidebarContext.Reduce | src/contexts/sidebar_context.rs:18-22 | a toggle flips `open` |
| SidebarContext.ToggleTwiceRestores | src/contexts/sidebar_context.rs:18-22 | two toggles restore the original state |
| SidebarContext.ToggleClosesOpen | src/contexts/sidebar_context.rs:91-98 | an open sidebar is closed after one toggle |
| SidebarContext.Provide | src/contexts/sidebar_context.rs:56-58 | the initial `open` is `default_open`, false when not given |

## Findings

| source | as written | input that shows it | evidently intended | confidence | as-written member | corrected member |
|---|---|---|---|---|---|---|
| src/pagination.rs:170 | the front ellipsis sends `Set(current_page - 5)` with unchecked `usize` subtraction | `edge_page_count=0`, `sibling_page_count=0`, `total_pages=4`, page 3: the front is truncated and `3 - 5` underflows (panic in a debug build, wrap to a huge page and so a jump to the last page in a release build) | a jump back five pages that stops at page 1, as the current version does with `saturating_sub` | high, not executed | LegacyPagination.FrontJumpUnderflows | Pagination.EllipsisJumpLanding |

The underflow needs `E + S < 2`. With the defaults the legacy jump is safe
(`LegacyPagination.FrontJumpSafe`), and both windows agree
(`LegacyPagination.ViewAgrees`, `LegacyPagination.DefaultViewsAgree`).

## Left out

- HTML generation: `html!`, `classes!`, `tw_merge!`, button markup and `onclick` wiring. A button is an `Item`, and the disabled flags are `Pagination.NavControls`.
- The callback mechanism (`Callback::emit`, `ctx.link().callback`): only the emitted value is recorded. The tabs context's `on_change` is an opaque type parameter.
- `usize` overflow of `current_page + 5` and of the breakpoint sums: numbers are unbounded `nat`.
- LegacyPagination.FrontJump: the unchecked subtraction is kept as a possibly negative integer. Which of panic or wrap-around happens depends on build settings, so it is not modelled.
- LegacyPagination.View: its windows are related to the current version's by `ViewAgrees`. The layout theorems are proved once, for the current version's `View`.
- SegmentedControl.SelectionFlags: only a length contract. Its meaning is stated by `ChoosingAnItemSelectsIt` and `InitialSelectionIsFlagged`.
- The pixel measurement in `TabList::rendered`, the Modal portal root, the Dialog wrappers, and the Sidebar components' subscription and class strings: these are DOM and presentation code.
- The tab list wiring between `Tabs` and `TabList`, and the Sidebar's read of an undefined `is_open` field: the Rust types do not agree with each other there.
- Demo pages, routing and the WASM entry point.
