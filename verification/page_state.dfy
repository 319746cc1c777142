/** The state both versions of the pagination component keep, the messages
    their `update` handles, and what a transition reports. */
module PageState {
  import opened Wrappers

  /** `total_pages` and `current_page`. */
  datatype Paginator = Paginator(totalPages: nat, currentPage: nat)

  /** The intended invariant: page 0 exactly when there are no pages,
      otherwise a page in `[1, totalPages]`. */
  predicate Valid(p: Paginator) {
    if p.totalPages == 0 then p.currentPage == 0 else 1 <= p.currentPage <= p.totalPages
  }

  /** What a navigation operation (`set_page`, `next_page`, ...) returns:
      the new state and its "changed" flag. */
  datatype Step = Step(next: Paginator, changed: bool)

  /** `PaginationMessage`. */
  datatype Message = First | Last | Next | Prev | Set(page: nat)

  /** What `update` produces: the new state, the re-render flag it returns,
      and the page it hands to `on_change`, if it calls it at all. */
  datatype Outcome = Outcome(next: Paginator, rerender: bool, emitted: Option<nat>)

  /** The emit rule shared by every arm of `update`: when the operation
      reports a change, emit the new current page and re-render. */
  function Notify(s: Step): Outcome {
    if s.changed then Outcome(s.next, true, Some(s.next.currentPage))
    else Outcome(s.next, false, None)
  }
}
