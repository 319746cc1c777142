/** The tabs context: a reducer over the selected tab that carries the
    `on_change` callback along untouched. */
module TabsContext {
  import opened Wrappers

  /** The reducer state; `C` stands for the callback handle, which the
      reducer never looks into. */
  datatype TabsState<C> = TabsState(selectedTab: string, onChange: C)

  datatype TabsAction = Select(value: string)

  /** `reduce`: the selection becomes the action's value; everything else
      is copied from the old state. */
  function Reduce<C>(s: TabsState<C>, action: TabsAction): (r: TabsState<C>)
    ensures r.selectedTab == action.value
    ensures r.onChange == s.onChange
  {
    match action
    case Select(value) => s.(selectedTab := value)
  }

  /** A later selection overrides an earlier one, and selecting twice is
      selecting once. */
  lemma SelectOverrides<C>(s: TabsState<C>, a: string, b: string)
    ensures Reduce(Reduce(s, Select(a)), Select(b)) == Reduce(s, Select(b))
    ensures Reduce(Reduce(s, Select(a)), Select(a)) == Reduce(s, Select(a))
  {
  }

  /** Selecting the tab already selected leaves the state as it was. */
  lemma SelectCurrentIsIdentity<C>(s: TabsState<C>)
    ensures Reduce(s, Select(s.selectedTab)) == s
  {
  }

  /** `TabsProvider`'s initial state: `default_value` or the empty string. */
  function Provide<C>(defaultValue: Option<string>, onChange: C): (s: TabsState<C>)
    ensures defaultValue.Some? ==> s.selectedTab == defaultValue.value
    ensures defaultValue.None? ==> s.selectedTab == ""
    ensures s.onChange == onChange
  {
    TabsState(defaultValue.GetOr(""), onChange)
  }
}
