/** The product-page FAQ accordions (assets/global.js): `#faq_section_2` and
    `#faq_section_1`. Each panel has a heading (`.faq_main`, class `active`)
    and an answer (`.meta_answer`, class `open`); a click closes every other
    panel and toggles the clicked one. Answer heights are not modelled.
    A panel's `title` is its heading's `textContent.trim()`. */
module Faq {
  import opened Optional

  datatype Panel = Panel(title: string, open: bool, active: bool)

  function Closed(p: Panel): Panel {
    p.(open := false, active := false)
  }

  function Opened(p: Panel): Panel {
    p.(open := true, active := true)
  }

  /** The clicked panel's own branch: close it when its answer is open,
      otherwise open it. */
  function Toggled(p: Panel): (r: Panel)
    ensures r.open == !p.open && r.active == r.open && r.title == p.title
  {
    if p.open then Closed(p) else Opened(p)
  }

  /** No two answers are open. */
  predicate AtMostOneOpen(ps: seq<Panel>) {
    forall a, b :: 0 <= a < |ps| && 0 <= b < |ps| && ps[a].open && ps[b].open ==> a == b
  }

  /** Every panel but `i` closed, `i` left as it is. */
  function CloseOthers(ps: seq<Panel>, i: nat): (r: seq<Panel>)
    requires i < |ps|
    ensures |r| == |ps| && r[i] == ps[i]
    ensures forall j :: 0 <= j < |ps| && j != i ==> r[j] == Closed(ps[j])
  {
    seq(|ps|, j requires 0 <= j < |ps| => if j == i then ps[j] else Closed(ps[j]))
  }

  /** Section 2's click on panel `i`. */
  function AfterClick2(ps: seq<Panel>, i: nat): seq<Panel>
    requires i < |ps|
  {
    CloseOthers(ps, i)[i := Toggled(ps[i])]
  }

  /** After any click in section 2 at most one answer is open: the clicked
      one, exactly when it was closed before. */
  lemma ClickLeavesAtMostOneOpen(ps: seq<Panel>, i: nat)
    requires i < |ps|
    ensures AtMostOneOpen(AfterClick2(ps, i))
    ensures AfterClick2(ps, i)[i].open == !ps[i].open
    ensures forall j :: 0 <= j < |ps| && j != i ==> !AfterClick2(ps, i)[j].open && !AfterClick2(ps, i)[j].active
  {
  }

  predicate IsLaceCalendar(p: Panel) {
    p.title == "Lace Calendar"
  }

  predicate IsDetails(p: Panel) {
    p.title == "Details"
  }

  /** Section 1's click on panel `i`: ignored unless it hit the heading; other
      panels are closed; the "Lace Calendar" panel then stays as it is when the
      click was inside its answer, any other click toggles the panel. */
  function AfterClick1(ps: seq<Panel>, i: nat, onHeading: bool, inAnswer: bool): seq<Panel>
    requires i < |ps|
  {
    if !onHeading then ps
    else if IsLaceCalendar(ps[i]) && inAnswer then CloseOthers(ps, i)
    else CloseOthers(ps, i)[i := Toggled(ps[i])]
  }

  /** In section 1 a click outside the heading changes nothing; a click on the
      heading leaves at most one answer open, and a click inside the open
      "Lace Calendar" answer leaves that panel as it was. */
  lemma Click1Effects(ps: seq<Panel>, i: nat, onHeading: bool, inAnswer: bool)
    requires i < |ps|
    ensures !onHeading ==> AfterClick1(ps, i, onHeading, inAnswer) == ps
    ensures onHeading && !(IsLaceCalendar(ps[i]) && inAnswer) ==> AtMostOneOpen(AfterClick1(ps, i, onHeading, inAnswer))
    ensures onHeading && IsLaceCalendar(ps[i]) && inAnswer ==>
              AfterClick1(ps, i, onHeading, inAnswer)[i] == ps[i] && AtMostOneOpen(AfterClick1(ps, i, onHeading, inAnswer))
  {
  }

  /** The first "Lace Calendar" panel, if any. */
  function FirstLaceCalendar(ps: seq<Panel>): (r: Option<nat>)
    ensures r.Some? ==> r.value < |ps| && IsLaceCalendar(ps[r.value])
    ensures r.Some? ==> forall j :: 0 <= j < r.value ==> !IsLaceCalendar(ps[j])
    ensures r.None? ==> forall j :: 0 <= j < |ps| ==> !IsLaceCalendar(ps[j])
  {
    if ps == [] then None
    else if IsLaceCalendar(ps[0]) then Some(0)
    else
      var r := FirstLaceCalendar(ps[1..]);
      if r.Some? then Some(r.value + 1) else None
  }

  /** Section 1 on page load: the first "Lace Calendar" panel opens; when there
      is none, every "Details" panel opens. */
  function InitialSection1(ps: seq<Panel>): seq<Panel> {
    match FirstLaceCalendar(ps)
    case Some(k) => ps[k := Opened(ps[k])]
    case None => seq(|ps|, j requires 0 <= j < |ps| => if IsDetails(ps[j]) then Opened(ps[j]) else ps[j])
  }

  /** Starting from closed panels, page load opens exactly the first "Lace
      Calendar" answer when there is one (so at most one answer is open), and
      otherwise exactly the "Details" answers. */
  lemma InitialSection1Opens(ps: seq<Panel>)
    requires forall j :: 0 <= j < |ps| ==> !ps[j].open
    ensures FirstLaceCalendar(ps).Some? ==> AtMostOneOpen(InitialSection1(ps))
    ensures forall j :: 0 <= j < |ps| ==>
              (InitialSection1(ps)[j].open <==>
                 (if FirstLaceCalendar(ps).Some? then j == FirstLaceCalendar(ps).value else IsDetails(ps[j])))
  {
  }

  /** The panels of one accordion section. */
  class Accordion {
    var panels: seq<Panel>

    constructor (panels: seq<Panel>)
      ensures this.panels == panels
    {
      this.panels := panels;
    }

    /** `faqs2.forEach(...)` at load: the first answer gets `open`, its heading
        does not get `active`. */
    method InitSection2()
      modifies this
      ensures panels == if old(panels) == [] then [] else old(panels)[0 := old(panels)[0].(open := true)]
    {
      if |panels| > 0 {
        panels := panels[0 := panels[0].(open := true)];
      }
    }

    /** The loop that closes every panel but `i`. */
    method CloseOtherPanels(i: nat)
      requires i < |panels|
      modifies this
      ensures panels == CloseOthers(old(panels), i)
    {
      var j := 0;
      while j < |panels|
        invariant 0 <= j <= |panels| == |old(panels)|
        invariant forall k :: 0 <= k < j && k != i ==> panels[k] == Closed(old(panels)[k])
        invariant forall k :: 0 <= k < |panels| && (j <= k || k == i) ==> panels[k] == old(panels)[k]
      {
        if j != i {
          panels := panels[j := Closed(panels[j])];
        }
        j := j + 1;
      }
    }

    /** Section 2's click handler on panel `i`. */
    method Click2(i: nat)
      requires i < |panels|
      modifies this
      ensures panels == AfterClick2(old(panels), i)
    {
      CloseOtherPanels(i);
      var isOpen := panels[i].open;
      if isOpen {
        panels := panels[i := Closed(panels[i])];
      } else {
        panels := panels[i := Opened(panels[i])];
      }
    }

    /** Section 1's click handler on panel `i`: `onHeading` is
        `e.target.closest('.faq_main')`, `inAnswer` is `e.target.closest('.meta_answer')`. */
    method Click1(i: nat, onHeading: bool, inAnswer: bool)
      requires i < |panels|
      modifies this
      ensures panels == AfterClick1(old(panels), i, onHeading, inAnswer)
    {
      if !onHeading {
        return;
      }
      CloseOtherPanels(i);
      var isOpen := panels[i].open;
      if panels[i].title == "Lace Calendar" && inAnswer {
        return;
      }
      if isOpen {
        panels := panels[i := Closed(panels[i])];
      } else {
        panels := panels[i := Opened(panels[i])];
      }
    }

    /** Section 1 at load: open the first "Lace Calendar" panel, or else every
        "Details" panel. */
    method InitSection1()
      modifies this
      ensures panels == InitialSection1(old(panels))
    {
      var laceOpened := false;
      var j := 0;
      while j < |panels|
        invariant 0 <= j <= |panels| == |old(panels)|
        invariant !laceOpened ==> panels == old(panels)
        invariant !laceOpened ==> forall k :: 0 <= k < j ==> !IsLaceCalendar(old(panels)[k])
        invariant laceOpened ==> FirstLaceCalendar(old(panels)).Some? && FirstLaceCalendar(old(panels)).value < j
        invariant laceOpened ==> var k := FirstLaceCalendar(old(panels)).value;
                             panels == old(panels)[k := Opened(old(panels)[k])]
      {
        if !laceOpened && panels[j].title == "Lace Calendar" {
          panels := panels[j := Opened(panels[j])];
          laceOpened := true;
        }
        j := j + 1;
      }
      if !laceOpened {
        j := 0;
        while j < |panels|
          invariant 0 <= j <= |panels| == |old(panels)|
          invariant forall k :: 0 <= k < j ==>
                      panels[k] == if IsDetails(old(panels)[k]) then Opened(old(panels)[k]) else old(panels)[k]
          invariant forall k :: j <= k < |panels| ==> panels[k] == old(panels)[k]
        {
          if panels[j].title == "Details" {
            panels := panels[j := Opened(panels[j])];
          }
          j := j + 1;
        }
      }
    }
  }
}
