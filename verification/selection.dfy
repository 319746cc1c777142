/** The "set, and report whether anything changed" transition shared by the
    segmented control and the tabs component. */
module Selection {
  import opened Wrappers

  /** The selection after a change request, the re-render flag `update`
      returns, and the value handed to `on_change`, if it is called. */
  datatype Change = Change(selected: string, rerender: bool, emitted: Option<string>)
}
