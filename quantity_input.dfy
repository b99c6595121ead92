/** `QuantityInput.validateQtyRules` (assets/global.js): grey out the minus
    button at or below the input's `min` and the plus button at or above its `max`. */
module QuantityRules {
  import opened Optional

  /** A numeric attribute of the input: `Unset` when its text is empty or
      missing (falsy), otherwise `Set` with the number `parseInt` reads from it
      (`None` for NaN). */
  datatype NumAttr = Unset | Set(parsed: Option<int>)

  /** JavaScript's `a <= b` on numbers that may be NaN: false when either is NaN. */
  predicate AtMost(a: Option<int>, b: Option<int>) {
    a.Some? && b.Some? && a.value <= b.value
  }

  /** What the rule does to each button's `disabled` class: `None` when the
      toggle is not called, `Some(on)` for `classList.toggle('disabled', on)`. */
  datatype Toggles = Toggles(minus: Option<bool>, plus: Option<bool>)

  function QtyRuleToggles(value: Option<int>, min: NumAttr, max: NumAttr): (r: Toggles)
    ensures r.minus.None? <==> min.Unset?
    ensures r.plus.None? <==> max.Unset?
    ensures r.minus == Some(true) <==> min.Set? && AtMost(value, min.parsed)
    ensures r.plus == Some(true) <==> max.Set? && AtMost(max.parsed, value)
  {
    Toggles(
      if min.Set? then Some(AtMost(value, min.parsed)) else None,
      if max.Set? then Some(AtMost(max.parsed, value)) else None)
  }

  /** When both bounds are numbers with `min < max`, at most one button is
      disabled, and a value strictly between them disables neither. */
  lemma RangeKeepsOneButtonEnabled(value: Option<int>, lo: int, hi: int)
    requires lo < hi
    ensures var r := QtyRuleToggles(value, Set(Some(lo)), Set(Some(hi)));
            !(r.minus == Some(true) && r.plus == Some(true)) &&
            (value.Some? && lo < value.value < hi ==> r.minus == Some(false) && r.plus == Some(false))
  {
  }

  /** A quantity input with its two buttons' `disabled` state. */
  class QuantityInput {
    var value: Option<int>
    var min: NumAttr
    var max: NumAttr
    var minusDisabled: bool
    var plusDisabled: bool

    /** The element as the markup renders it: the buttons' `disabled` classes
        come from the page, not from the constructor. */
    constructor (value: Option<int>, min: NumAttr, max: NumAttr, minusDisabled: bool, plusDisabled: bool)
      ensures this.value == value && this.min == min && this.max == max
      ensures this.minusDisabled == minusDisabled && this.plusDisabled == plusDisabled
    {
      this.value, this.min, this.max := value, min, max;
      this.minusDisabled, this.plusDisabled := minusDisabled, plusDisabled;
    }

    method ValidateQtyRules()
      modifies this`minusDisabled, this`plusDisabled
      ensures var r := QtyRuleToggles(value, min, max);
              minusDisabled == r.minus.GetOr(old(minusDisabled)) &&
              plusDisabled == r.plus.GetOr(old(plusDisabled))
    {
      if min.Set? {
        minusDisabled := AtMost(value, min.parsed);
      }
      if max.Set? {
        plusDisabled := AtMost(max.parsed, value);
      }
    }
  }
}
