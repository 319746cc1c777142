/** The segmented control: a row of items, one of them selected by value. */
module SegmentedControl {
  import opened Wrappers
  import opened Selection

  /** `create`: a non-empty `default_value` is selected; otherwise the first
      item's value, or the empty string when there are no items. */
  function Create(defaultValue: string, itemValues: seq<string>): (selected: string)
    ensures defaultValue != "" ==> selected == defaultValue
    ensures defaultValue == "" && |itemValues| > 0 ==> selected == itemValues[0]
    ensures selected == "" <==> defaultValue == "" && (|itemValues| == 0 || itemValues[0] == "")
  {
    if |defaultValue| == 0 then
      if |itemValues| > 0 then itemValues[0] else ""
    else defaultValue
  }

  /** `handle_change`: selecting the value already selected does nothing;
      any other value becomes the selection and is emitted. */
  function HandleChange(selected: string, value: string): (c: Change)
    ensures c.selected == value
    ensures c.rerender <==> value != selected
    ensures c.emitted == (if c.rerender then Some(value) else None)
  {
    if value == selected then Change(selected, false, None)
    else Change(value, true, Some(value))
  }

  /** The `is_selected` flag `view` gives each item, in item order. */
  function SelectionFlags(itemValues: seq<string>, selected: string): (flags: seq<bool>)
    ensures |flags| == |itemValues|
  {
    seq(|itemValues|, i requires 0 <= i < |itemValues| => itemValues[i] == selected)
  }

  /** Item values are pairwise distinct. */
  ghost predicate Distinct(itemValues: seq<string>) {
    forall i, j :: 0 <= i < j < |itemValues| ==> itemValues[i] != itemValues[j]
  }

  /** After choosing an item, that item, and with distinct values only that
      item, is flagged as selected; choosing it again changes nothing. */
  lemma ChoosingAnItemSelectsIt(itemValues: seq<string>, selected: string, k: nat)
    requires k < |itemValues|
    ensures var c := HandleChange(selected, itemValues[k]);
      && SelectionFlags(itemValues, c.selected)[k]
      && (Distinct(itemValues) ==>
            forall i :: 0 <= i < |itemValues| && SelectionFlags(itemValues, c.selected)[i] ==> i == k)
      && HandleChange(c.selected, itemValues[k]) == Change(itemValues[k], false, None)
  {
  }

  /** The initial selection is always something `view` flags, unless there
      is no item to flag: a default that names an item flags that item, and
      an empty default flags the first item. */
  lemma InitialSelectionIsFlagged(defaultValue: string, itemValues: seq<string>)
    requires |itemValues| > 0
    requires defaultValue == "" || defaultValue in itemValues
    ensures exists i :: 0 <= i < |itemValues| && SelectionFlags(itemValues, Create(defaultValue, itemValues))[i]
  {
    var selected := Create(defaultValue, itemValues);
    if defaultValue == "" {
      assert SelectionFlags(itemValues, selected)[0];
    } else {
      var i :| 0 <= i < |itemValues| && itemValues[i] == defaultValue;
      assert SelectionFlags(itemValues, selected)[i];
    }
  }
}
