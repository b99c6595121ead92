/** `Shopify.setSelectorByValue` (assets/global.js): select the first option of a
    `<select>` whose value or label equals the given text. */
module ShopifyCommon {
  import opened Optional

  /** One `<option>`: its `value` and its text (`innerHTML`). */
  datatype SelectOption = SelectOption(value: string, text: string)

  predicate Matches(option: SelectOption, target: string) {
    target == option.value || target == option.text
  }

  /** A `<select>` element: its options and the index of the selected one. */
  class Selector {
    var options: seq<SelectOption>
    var selectedIndex: int

    constructor (options: seq<SelectOption>, selectedIndex: int)
      ensures this.options == options && this.selectedIndex == selectedIndex
    {
      this.options := options;
      this.selectedIndex := selectedIndex;
    }

    /** The first matching option becomes selected and its index is returned;
        with no match nothing is returned (`undefined`) and the selection stays. */
    method SetSelectorByValue(target: string) returns (r: Option<nat>)
      modifies this`selectedIndex
      ensures r.Some? ==> r.value < |options| && Matches(options[r.value], target)
      ensures r.Some? ==> forall j :: 0 <= j < r.value ==> !Matches(options[j], target)
      ensures r.Some? ==> selectedIndex == r.value
      ensures r.None? ==> forall j :: 0 <= j < |options| ==> !Matches(options[j], target)
      ensures r.None? ==> selectedIndex == old(selectedIndex)
    {
      var i := 0;
      var count := |options|;
      while i < count
        invariant 0 <= i <= count == |options|
        invariant forall j :: 0 <= j < i ==> !Matches(options[j], target)
        invariant selectedIndex == old(selectedIndex)
      {
        var option := options[i];
        if target == option.value || target == option.text {
          selectedIndex := i;
          return Some(i);
        }
        i := i + 1;
      }
      return None;
    }
  }
}
