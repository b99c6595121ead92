/** The collection page's price filter (assets/script.js): the preset ranges of
    `.price-filter li` and the two inputs of `price-range`
    (`filter.v.price.gte` and `filter.v.price.lte`). On page load the preset
    matching the inputs is marked "selected"; a click on a preset selects it
    alone and copies its bounds into the inputs. */
module PriceFilter {
  import opened Optional
  import opened JsStrings

  /** `value.replace(/,/g, '').split('.')[0]`: the digits before the decimal
      point, without thousands separators. The split is written as the text
      before the first point; `NormalizeNumberSplits` ties it to `split`. */
  function NormalizeNumber(value: string): string {
    BeforeFirst(RemoveChar(value, ','), '.')
  }

  /** `NormalizeNumber` is the first piece of JavaScript's `split('.')`. */
  lemma NormalizeNumberSplits(value: string)
    ensures NormalizeNumber(value) == Split(RemoveChar(value, ','), ".")[0]
  {
    SplitHeadIsBeforeFirst(RemoveChar(value, ','), '.');
  }

  /** `value.replace(/,/g, '').trim()`. */
  function FormatNumber(value: string): string {
    Trim(RemoveChar(value, ','))
  }

  /** A normalized number holds neither a comma nor a point, and normalizing
      it again changes nothing. */
  lemma NormalizeNumberClean(value: string)
    ensures ',' !in NormalizeNumber(value) && '.' !in NormalizeNumber(value)
    ensures NormalizeNumber(NormalizeNumber(value)) == NormalizeNumber(value)
  {
    RemoveCharRemovesAll(value, ',');
    NormalizeNumberKeepsPlain(NormalizeNumber(value));
  }

  /** A number without commas and points survives normalization unchanged. */
  lemma NormalizeNumberKeepsPlain(value: string)
    requires ',' !in value && '.' !in value
    ensures NormalizeNumber(value) == value
  {
    RemoveCharAbsent(value, ',');
  }

  /** A formatted number holds no comma and has no edge whitespace, and
      formatting it again changes nothing. */
  lemma FormatNumberClean(value: string)
    ensures ',' !in FormatNumber(value) && NoEdgeWhitespace(FormatNumber(value))
    ensures FormatNumber(FormatNumber(value)) == FormatNumber(value)
  {
    var f := FormatNumber(value);
    RemoveCharRemovesAll(value, ',');
    TrimClean(RemoveChar(value, ','));
    if ',' in f {
      TrimKeepsCharacters(RemoveChar(value, ','), ',');
    }
    RemoveCharAbsent(f, ',');
    TrimOfTrimmed(f);
  }

  /** One `.price-filter li`: its `data-min` and `data-max` attributes (`None`
      when missing) and whether it has the class "selected". */
  datatype PriceItem = PriceItem(dataMin: Option<string>, dataMax: Option<string>, selected: bool)

  /** `minValue === itemMin && maxValue === itemMax`. */
  predicate MatchesRange(item: PriceItem, minValue: string, maxValue: string) {
    item.dataMin == Some(minValue) && item.dataMax == Some(maxValue)
  }

  /** The items after the page-load rule ran with these normalized values:
      each is "selected" exactly when it matches both bounds. */
  function Reselected(items: seq<PriceItem>, minValue: string, maxValue: string): (r: seq<PriceItem>)
    ensures |r| == |items|
    ensures forall j :: 0 <= j < |r| ==>
              r[j].dataMin == items[j].dataMin && r[j].dataMax == items[j].dataMax &&
              (r[j].selected <==> MatchesRange(items[j], minValue, maxValue))
  {
    seq(|items|, j requires 0 <= j < |items| => items[j].(selected := MatchesRange(items[j], minValue, maxValue)))
  }

  /** No two presets share both bounds. */
  predicate DistinctRanges(items: seq<PriceItem>) {
    forall a, b :: 0 <= a < |items| && 0 <= b < |items| && a != b ==>
      items[a].dataMin != items[b].dataMin || items[a].dataMax != items[b].dataMax
  }

  /** Selection is exclusive when the presets have distinct ranges: at most one
      item ends "selected". */
  lemma ReselectedIsExclusive(items: seq<PriceItem>, minValue: string, maxValue: string, a: nat, b: nat)
    requires DistinctRanges(items)
    requires a < |items| && b < |items|
    requires Reselected(items, minValue, maxValue)[a].selected && Reselected(items, minValue, maxValue)[b].selected
    ensures a == b
  {
  }

  /** A preset whose bound is written with a comma or a point never matches
      normalized input values. */
  lemma PunctuatedBoundNeverSelected(items: seq<PriceItem>, input: string, maxValue: string, j: nat)
    requires j < |items| && items[j].dataMin.Some?
    requires ',' in items[j].dataMin.value || '.' in items[j].dataMin.value
    ensures !Reselected(items, NormalizeNumber(Trim(input)), maxValue)[j].selected
  {
    NormalizeNumberClean(Trim(input));
  }

  /** What `handleClick` writes into an input reads back as the same preset:
      for bounds without commas, points and edge whitespace, trimming and
      normalizing the formatted bound gives the bound itself. When both bounds
      are non-empty, the page-load rule therefore selects the clicked preset
      again; when one is empty, `applySelectedClass`'s guard fails and page
      load re-marks nothing. */
  lemma ClickedRangeIsReselected(items: seq<PriceItem>, k: nat)
    requires k < |items| && items[k].dataMin.Some? && items[k].dataMax.Some?
    requires var lo := items[k].dataMin.value; ',' !in lo && '.' !in lo && NoEdgeWhitespace(lo)
    requires var hi := items[k].dataMax.value; ',' !in hi && '.' !in hi && NoEdgeWhitespace(hi)
    ensures var lo := NormalizeNumber(Trim(FormatNumber(items[k].dataMin.value)));
            var hi := NormalizeNumber(Trim(FormatNumber(items[k].dataMax.value)));
            && lo == items[k].dataMin.value && hi == items[k].dataMax.value
            && (lo != "" && hi != "" ==> Reselected(items, lo, hi)[k].selected)
  {
    var lo := items[k].dataMin.value;
    var hi := items[k].dataMax.value;
    RemoveCharAbsent(lo, ',');
    RemoveCharAbsent(hi, ',');
    TrimOfTrimmed(lo);
    TrimOfTrimmed(hi);
    assert FormatNumber(lo) == lo && FormatNumber(hi) == hi;
    NormalizeNumberKeepsPlain(lo);
    NormalizeNumberKeepsPlain(hi);
  }

  /** A text input element. */
  class TextInput {
    var value: string

    constructor (value: string)
      ensures this.value == value
    {
      this.value := value;
    }
  }

  datatype EventKind = InputEvent | ChangeEvent

  /** What the scripts do, in order: an event dispatched on an input, or the
      `clearFields` callback starting. */
  datatype Action = Dispatched(target: TextInput?, kind: EventKind) | CallbackInvoked

  /** `triggerInputChange(input)`: an `input` event, then a `change` event. */
  function InputChange(input: TextInput?): seq<Action> {
    [Dispatched(input, InputEvent), Dispatched(input, ChangeEvent)]
  }

  /** The events `clearFields` dispatches while clearing `xs`, in order. */
  function ClearEvents(xs: seq<TextInput?>): (r: seq<Action>)
    ensures |r| == 2 * |xs|
  {
    if xs == [] then [] else ClearEvents(xs[..|xs| - 1]) + InputChange(xs[|xs| - 1])
  }

  /** Clearing dispatches only events: the callback marker never appears. */
  lemma {:induction false} ClearEventsHaveNoCallback(xs: seq<TextInput?>)
    ensures CallbackInvoked !in ClearEvents(xs)
  {
    if xs != [] {
      ClearEventsHaveNoCallback(xs[..|xs| - 1]);
    }
  }

  /** The index of the first null in `inputs`, or `|inputs|`: `forEach` throws
      at a null input. */
  function FirstNull(inputs: seq<TextInput?>): (r: nat)
    ensures r <= |inputs|
    ensures forall j :: 0 <= j < r ==> inputs[j] != null
    ensures r < |inputs| ==> inputs[r] == null
  {
    if inputs == [] || inputs[0] == null then 0 else 1 + FirstNull(inputs[1..])
  }

  /** `clearFields(inputs, callback)`: each input in turn is emptied and gets an
      `input` and a `change` event; the counter reaching `inputs.length` in the
      last turn starts the callback, when there is one. A null input throws and
      ends the loop. */
  method ClearFields(inputs: seq<TextInput?>, hasCallback: bool) returns (actions: seq<Action>, threw: bool)
    modifies inputs
    ensures threw <==> FirstNull(inputs) < |inputs|
    ensures actions == ClearTrace(inputs, hasCallback)
    ensures forall j :: 0 <= j < FirstNull(inputs) ==> inputs[j].value == ""
    ensures forall x: TextInput :: x in inputs && x !in inputs[..FirstNull(inputs)] ==> x.value == old(x.value)
  {
    var clearedCount := 0;
    actions := [];
    threw := false;
    var i := 0;
    while i < |inputs|
      invariant 0 <= i <= FirstNull(inputs)
      invariant clearedCount == i
      invariant forall j :: 0 <= j < i ==> inputs[j].value == ""
      invariant forall x: TextInput :: x in inputs && x !in inputs[..i] ==> x.value == old(x.value)
      invariant actions == ClearEvents(inputs[..i]) +
                           (if i == |inputs| && i > 0 && hasCallback then [CallbackInvoked] else [])
    {
      var input := inputs[i];
      if input == null {
        threw := true;
        return;
      }
      assert inputs[..i + 1][..i] == inputs[..i];
      assert ClearEvents(inputs[..i + 1]) == ClearEvents(inputs[..i]) + InputChange(input);
      input.value := "";
      actions := actions + InputChange(input);
      clearedCount := clearedCount + 1;
      if clearedCount == |inputs| && hasCallback {
        actions := actions + [CallbackInvoked];
      }
      i := i + 1;
    }
  }

  /** `clearFields([a, b], callback)`: where `forEach` stops and which events
      it dispatches on the way. */
  lemma ClearPair(a: TextInput?, b: TextInput?)
    ensures FirstNull([a, b]) == if a == null then 0 else if b == null then 1 else 2
    ensures [a, b][..0] == [] && ClearEvents([]) == []
    ensures [a, b][..1] == [a] && ClearEvents([a]) == InputChange(a)
    ensures [a, b][..2] == [a, b] && ClearEvents([a, b]) == InputChange(a) + InputChange(b)
  {
    if a != null {
      assert [a, b][1..] == [b];
    }
    assert [a, b][..1] == [a];
    assert [a][..0] == [];
  }

  /** What `clearFields(inputs, callback)` does, in order: the events of the
      inputs it clears before any null, then the callback's start when the
      counter reached `inputs.length` and a callback was given. */
  function ClearTrace(inputs: seq<TextInput?>, hasCallback: bool): seq<Action> {
    ClearEvents(inputs[..FirstNull(inputs)]) +
    (if FirstNull(inputs) == |inputs| && |inputs| > 0 && hasCallback then [CallbackInvoked] else [])
  }

  /** The callback starts exactly when the list is non-empty, has no null and
      a callback was given; an empty list does nothing at all. */
  lemma CallbackWhenAllCleared(inputs: seq<TextInput?>, hasCallback: bool)
    ensures CallbackInvoked in ClearTrace(inputs, hasCallback) <==>
              FirstNull(inputs) == |inputs| && |inputs| > 0 && hasCallback
    ensures |inputs| == 0 ==> ClearTrace(inputs, hasCallback) == []
  {
    ClearEventsHaveNoCallback(inputs[..FirstNull(inputs)]);
  }

  /** The callback starts at most once, as the very last action. */
  lemma CallbackOnlyLast(inputs: seq<TextInput?>, hasCallback: bool)
    ensures var t := ClearTrace(inputs, hasCallback);
            forall j :: 0 <= j < |t| - 1 ==> t[j] != CallbackInvoked
  {
    var events := ClearEvents(inputs[..FirstNull(inputs)]);
    ClearEventsHaveNoCallback(inputs[..FirstNull(inputs)]);
    var t := ClearTrace(inputs, hasCallback);
    forall j | 0 <= j < |t| - 1
      ensures t[j] != CallbackInvoked
    {
      assert t[j] == events[j];
    }
  }

  /** The price filter: its preset items and the two range inputs (`null` when
      the page has no `price-range`). */
  class Filter {
    var items: seq<PriceItem>
    var minInput: TextInput?
    var maxInput: TextInput?

    /** The two inputs are found by different names, so they are different
        elements. */
    predicate Valid()
      reads this
    {
      minInput != null && maxInput != null ==> minInput != maxInput
    }

    constructor (items: seq<PriceItem>, minInput: TextInput?, maxInput: TextInput?)
      requires minInput != null && maxInput != null ==> minInput != maxInput
      ensures Valid()
      ensures this.items == items && this.minInput == minInput && this.maxInput == maxInput
    {
      this.items := items;
      this.minInput := minInput;
      this.maxInput := maxInput;
    }

    /** `applySelectedClass`: with both inputs present and both trimmed,
        normalized values non-empty, every item is re-marked by the range rule;
        otherwise nothing changes. */
    method ApplySelectedClass()
      modifies this`items
      ensures minInput != null && maxInput != null &&
              NormalizeNumber(Trim(minInput.value)) != "" && NormalizeNumber(Trim(maxInput.value)) != "" ==>
                items == Reselected(old(items), NormalizeNumber(Trim(minInput.value)), NormalizeNumber(Trim(maxInput.value)))
      ensures !(minInput != null && maxInput != null &&
                NormalizeNumber(Trim(minInput.value)) != "" && NormalizeNumber(Trim(maxInput.value)) != "") ==>
                items == old(items)
    {
      if minInput != null && maxInput != null {
        var minValue := NormalizeNumber(Trim(minInput.value));
        var maxValue := NormalizeNumber(Trim(maxInput.value));
        if minValue != "" && maxValue != "" {
          MarkRange(minValue, maxValue);
        }
      }
    }

    /** The `forEach` of `applySelectedClass`: each item gets "selected" when
        it matches both values and loses it otherwise. */
    method MarkRange(minValue: string, maxValue: string)
      modifies this`items
      ensures items == Reselected(old(items), minValue, maxValue)
    {
      var j := 0;
      while j < |items|
        invariant 0 <= j <= |items| == |old(items)|
        invariant forall k :: 0 <= k < j ==>
                    items[k] == old(items)[k].(selected := MatchesRange(old(items)[k], minValue, maxValue))
        invariant forall k :: j <= k < |items| ==> items[k] == old(items)[k]
      {
        var item := items[j];
        if item.dataMin == Some(minValue) && item.dataMax == Some(maxValue) {
          items := items[j := item.(selected := true)];
        } else {
          items := items[j := item.(selected := false)];
        }
        j := j + 1;
      }
    }

    /** The first half of `handleClick`: every item loses "selected", then
        item `k` gets it. */
    method SelectOnly(k: nat)
      requires k < |items|
      modifies this`items
      ensures |items| == |old(items)|
      ensures forall j :: 0 <= j < |items| ==> items[j] == old(items)[j].(selected := j == k)
    {
      var j := 0;
      while j < |items|
        invariant 0 <= j <= |items| == |old(items)|
        invariant forall i :: 0 <= i < j ==> items[i] == old(items)[i].(selected := false)
        invariant forall i :: j <= i < |items| ==> items[i] == old(items)[i]
      {
        items := items[j := items[j].(selected := false)];
        j := j + 1;
      }
      items := items[k := items[k].(selected := true)];
    }

    /** The callback `handleClick` passes to `clearFields`: each input gets its
        formatted bound and then both are announced; `formatNumber(null)` throws
        at a missing bound. */
    method WriteBounds(minPrice: Option<string>, maxPrice: Option<string>) returns (actions: seq<Action>, threw: bool)
      requires minInput != null && maxInput != null && minInput != maxInput
      modifies minInput, maxInput
      ensures threw <==> minPrice.None? || maxPrice.None?
      ensures minInput.value == if minPrice.None? then old(minInput.value) else FormatNumber(minPrice.value)
      ensures maxInput.value == if threw then old(maxInput.value) else FormatNumber(maxPrice.value)
      ensures actions == if threw then [] else InputChange(minInput) + InputChange(maxInput)
    {
      if minPrice.None? {
        return [], true;
      }
      minInput.value := FormatNumber(minPrice.value);
      if maxPrice.None? {
        return [], true;
      }
      maxInput.value := FormatNumber(maxPrice.value);
      actions := InputChange(minInput) + InputChange(maxInput);
      threw := false;
    }

    /** `handleClick` on item `k`: every item loses "selected", item `k` gets it;
        then `clearFields([minInput, maxInput], callback)` empties the inputs and
        the callback writes the formatted bounds and announces both changes.
        A missing input throws inside `clearFields`; a missing bound throws in
        the callback, at `formatNumber(null)`. */
    method HandleClick(k: nat) returns (actions: seq<Action>, threw: bool)
      requires Valid() && k < |items|
      modifies this`items, minInput, maxInput
      ensures |items| == |old(items)|
      ensures forall j :: 0 <= j < |items| ==> items[j] == old(items)[j].(selected := j == k)
      ensures threw <==> minInput == null || maxInput == null ||
                         old(items)[k].dataMin.None? || old(items)[k].dataMax.None?
      ensures minInput == null ==> actions == []
      ensures minInput != null && maxInput == null ==>
                minInput.value == "" && actions == InputChange(minInput)
      ensures minInput != null && maxInput != null ==>
                minInput.value == (if old(items)[k].dataMin.None? then "" else FormatNumber(old(items)[k].dataMin.value)) &&
                maxInput.value == (if !threw then FormatNumber(old(items)[k].dataMax.value) else "")
      ensures minInput == null && maxInput != null ==> maxInput.value == old(maxInput.value)
      ensures minInput != null && maxInput != null && threw ==>
                actions == InputChange(minInput) + InputChange(maxInput) + [CallbackInvoked]
      ensures !threw ==>
                actions == InputChange(minInput) + InputChange(maxInput) + [CallbackInvoked] +
                           InputChange(minInput) + InputChange(maxInput)
    {
      SelectOnly(k);
      var minPrice := items[k].dataMin;
      var maxPrice := items[k].dataMax;
      var inputs := [minInput, maxInput];
      ClearPair(minInput, maxInput);
      actions, threw := ClearFields(inputs, true);
      if !threw {
        var more;
        more, threw := WriteBounds(minPrice, maxPrice);
        actions := actions + more;
      }
    }
  }
}
