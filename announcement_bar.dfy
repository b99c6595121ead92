/** `SlideshowComponent.applyAnimationToAnnouncementBar` (assets/global.js): the
    announcement bar moves one item forward or back, wrapping around, and picks
    the direction of the fade animation. */
module AnnouncementBar {
  import opened Optional

  datatype Direction = Next | Previous

  /** JavaScript's `a % b` for `b > 0`: the remainder has the sign of `a`. */
  function JsRem(a: int, b: int): (r: int)
    requires b > 0
    ensures -b < r < b
    ensures a >= 0 ==> r == a % b
    ensures a < 0 ==> r <= 0
  {
    if a >= 0 then a % b else -((-a) % b)
  }

  /** An operand strictly between `-b` and `b` is its own remainder, and `b`
      and `-b` leave none. */
  lemma JsRemSmall(a: int, b: int)
    requires b > 0 && -b <= a <= b
    ensures JsRem(a, b) == if a == b || a == -b then 0 else a
  {
    var m := if a >= 0 then a else -a;
    assert m == b * (m / b) + m % b;
    if m < b {
      ModOfSmaller(m, b);
    } else {
      assert m == b * 1 + 0;
      ModOfMultiple(b);
    }
  }

  /** Dafny's `%`: a smaller non-negative number is its own remainder. */
  lemma ModOfSmaller(m: int, b: int)
    requires 0 <= m < b
    ensures m % b == m
  {
    var q := m / b;
    assert m == b * q + m % b;
    if q > 0 {
      MulGrows(b, q);
    }
  }

  /** Dafny's `%`: a positive number leaves no remainder on itself. */
  lemma ModOfMultiple(b: int)
    requires b > 0
    ensures b % b == 0
  {
    var q := b / b;
    assert b == b * q + b % b;
    if q > 1 {
      MulGrows(b, q - 1);
    }
  }

  /** Multiplying by a positive whole number never shrinks a positive one. */
  lemma MulGrows(b: int, q: int)
    requires b > 0 && q >= 1
    ensures b * q >= b
  {
  }

  /** The item index shown next and the animation direction, for `itemsCount`
      items with `currentPage` (1-based) shown and the `button` pressed; `None`
      when the component has no `.announcement-bar-slider`. */
  function Step(hasSlider: bool, itemsCount: nat, currentPage: int, button: string): (r: Option<(nat, Direction)>)
    requires 1 <= currentPage <= itemsCount
    ensures r.Some? <==> hasSlider
    ensures r.Some? ==> r.value.0 < itemsCount
    ensures r.Some? && button == "next" ==> r.value.0 == if currentPage == itemsCount then 0 else currentPage
    ensures r.Some? && button != "next" ==> r.value.0 == if currentPage == 1 then itemsCount - 1 else currentPage - 2
  {
    if !hasSlider then None
    else
      var increment := if button == "next" then 1 else -1;
      var currentIndex := currentPage - 1;
      JsRemSmall(currentIndex + increment, itemsCount);
      var nextIndex := JsRem(currentIndex + increment, itemsCount);
      var nextIndex := if nextIndex == -1 then itemsCount - 1 else nextIndex;
      var isFirstSlide := currentIndex == 0;
      var isLastSlide := currentIndex == itemsCount - 1;
      var shouldMoveNext := (button == "next" && !isLastSlide) || (button == "previous" && isFirstSlide);
      Some((nextIndex, if shouldMoveNext then Next else Previous))
  }

  /** The animation runs in the direction the index moves, not the direction
      of the button: going forward off the last item animates backwards and
      going back off the first item animates forwards. */
  lemma DirectionFollowsIndex(itemsCount: nat, currentPage: int, button: string)
    requires 1 <= currentPage <= itemsCount
    requires button == "next" || (button == "previous" && itemsCount > 1)
    ensures var r := Step(true, itemsCount, currentPage, button).value;
            r.1 == Next <==> r.0 > currentPage - 1
  {
  }

  /** With a single item, "previous" stays on it but animates as "next": the
      one case of the two buttons where the direction does not follow the
      index. */
  lemma SingleItemPreviousAnimatesNext(hasSlider: bool)
    requires hasSlider
    ensures Step(hasSlider, 1, 1, "previous") == Some((0, Next))
  {
  }

  /** A button that is neither "next" nor "previous" moves back but always
      animates as "previous". */
  lemma OtherButtonMovesBack(itemsCount: nat, currentPage: int, button: string)
    requires 1 <= currentPage <= itemsCount
    requires button != "next" && button != "previous"
    ensures Step(true, itemsCount, currentPage, button).value.1 == Previous
  {
  }

  /** "previous" undoes "next": stepping forward and then back returns to the
      item shown before. */
  lemma PreviousUndoesNext(itemsCount: nat, currentPage: int)
    requires 1 <= currentPage <= itemsCount
    ensures var i := Step(true, itemsCount, currentPage, "next").value.0;
            Step(true, itemsCount, i + 1, "previous").value.0 == currentPage - 1
  {
  }
}
