/** The tabs component: a selected tab key and the panels it shows. */
module Tabs {
  import opened Wrappers
  import opened Selection
  import opened Ordering
  import opened DecimalText

  /** A tab panel; only its optional `value` matters for selection. */
  datatype Panel = Panel(value: Option<string>)

  /** `create`: `default_tab` if given, else `"0"`, the key of the first
      panel that has no value of its own. */
  function Create(defaultTab: Option<string>): (selected: string)
    ensures defaultTab.Some? ==> selected == defaultTab.value
    ensures defaultTab.None? ==> selected == Decimal(0)
  {
    defaultTab.GetOr("0")
  }

  /** `update(Select(value))`. */
  function Select(selected: string, value: string): (c: Change)
    ensures c.selected == value
    ensures c.rerender <==> value != selected
    ensures c.emitted == (if c.rerender then Some(value) else None)
  {
    if selected != value then Change(value, true, Some(value))
    else Change(selected, false, None)
  }

  /** Selecting the same tab a second time is silent. */
  lemma SelectTwiceIsSilent(selected: string, value: string)
    ensures Select(Select(selected, value).selected, value) == Change(value, false, None)
  {
  }

  /** The key a panel is matched on: its value, or its index in decimal. */
  function PanelKey(panel: Panel, index: nat): string {
    panel.value.GetOr(Decimal(index))
  }

  /** The indices of the panels `view` shows, in order. */
  function ShownPanels(panels: seq<Panel>, selected: string): (shown: seq<nat>)
    ensures forall k: nat :: k in shown <==> k < |panels| && PanelKey(panels[k], k) == selected
    ensures StrictlyIncreasing(shown)
    ensures forall i :: 0 <= i < |shown| ==> shown[i] < |panels|
  {
    if |panels| == 0 then []
    else
      var last := |panels| - 1;
      var before := ShownPanels(panels[..last], selected);
      assert forall k: nat :: k < last ==> panels[..last][k] == panels[k];
      if PanelKey(panels[last], last) == selected then before + [last] else before
  }

  /** Without explicit values every panel's key is its own index, so no two
      panels share a key and at most one panel is shown. */
  lemma AtMostOnePanelWithoutValues(panels: seq<Panel>, selected: string)
    requires forall k :: 0 <= k < |panels| ==> panels[k].value.None?
    ensures |ShownPanels(panels, selected)| <= 1
  {
    var shown := ShownPanels(panels, selected);
    if |shown| >= 2 {
      assert shown[0] in shown && shown[1] in shown;
      assert shown[0] < shown[1];
      DecimalInjective(shown[0], shown[1]);
      assert false;
    }
  }

  /** With no default tab and no explicit values, exactly the first panel is
      shown at first. */
  lemma DefaultShowsFirstPanel(panels: seq<Panel>)
    requires |panels| >= 1
    requires forall k :: 0 <= k < |panels| ==> panels[k].value.None?
    ensures ShownPanels(panels, Create(None)) == [0]
  {
    var key := Create(None);
    assert key == Decimal(0);
    var shown := ShownPanels(panels, key);
    assert PanelKey(panels[0], 0) == key;
    assert 0 in shown;
    AtMostOnePanelWithoutValues(panels, key);
    assert |shown| == 1 && shown[0] == 0;
  }

  /** After `Select(value)` the panels shown are exactly those keyed `value`. */
  lemma SelectShowsChosenPanels(panels: seq<Panel>, selected: string, value: string)
    ensures forall k: nat :: k in ShownPanels(panels, Select(selected, value).selected)
              <==> k < |panels| && PanelKey(panels[k], k) == value
  {
  }
}
