/** The sidebar context: a reducer over a single open/closed flag. */
module SidebarContext {
  import opened Wrappers

  datatype SidebarState = SidebarState(open: bool)

  datatype SidebarAction = Toggle

  /** `reduce(Toggle)`. */
  function Reduce(s: SidebarState, action: SidebarAction): (r: SidebarState)
    ensures r.open != s.open
  {
    match action
    case Toggle => SidebarState(!s.open)
  }

  /** Toggling twice restores the original state. */
  lemma ToggleTwiceRestores(s: SidebarState)
    ensures Reduce(Reduce(s, Toggle), Toggle) == s
  {
  }

  /** An open sidebar closes on one toggle. */
  lemma ToggleClosesOpen()
    ensures Reduce(SidebarState(true), Toggle) == SidebarState(false)
  {
  }

  /** `SidebarProvider`'s initial state: `default_open`, which is false when
      not given. */
  function Provide(defaultOpen: Option<bool>): (s: SidebarState)
    ensures defaultOpen.Some? ==> s.open == defaultOpen.value
    ensures defaultOpen.None? ==> !s.open
  {
    SidebarState(defaultOpen.GetOr(false))
  }
}
