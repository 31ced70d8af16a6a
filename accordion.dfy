/** The FAQ accordion: every `.faq-item` carries an `active` class and a
    `.faq-toggle` element whose text and CSS transform show whether the item
    is open. A click on an item's question closes every other item and flips
    the clicked one. */
module Accordion {

  /** Toggle text of a closed item. */
  const Plus: string := "+"
  /** Toggle text of an open item: the minus sign U+2212 as the script spells
      it, mis-decoded into the three characters U+00E2 U+02C6 U+2019. */
  const Minus: string := "\U{E2}\U{2C6}\U{2019}"
  const Rotate0: string := "rotate(0deg)"
  const Rotate180: string := "rotate(180deg)"

  /** One FAQ item as the handler sees it: the `active` class, the toggle's
      `textContent` and the toggle's `style.transform`. */
  datatype Item = Item(active: bool, glyph: string, rotation: string)

  const Closed: Item := Item(false, Plus, Rotate0)
  const Opened: Item := Item(true, Minus, Rotate180)

  /** The toggle shows what the `active` class says. */
  predicate Agrees(it: Item)
  {
    it == if it.active then Opened else Closed
  }

  predicate AllAgree(s: seq<Item>)
  {
    forall j :: 0 <= j < |s| ==> Agrees(s[j])
  }

  predicate AtMostOneActive(s: seq<Item>)
  {
    forall j, k :: 0 <= j < |s| && 0 <= k < |s| && s[j].active && s[k].active ==> j == k
  }

  predicate NoneActive(s: seq<Item>)
  {
    forall j :: 0 <= j < |s| ==> !s[j].active
  }

  /** The state of the list after a click on item `i`. */
  function AfterClick(s: seq<Item>, i: nat): (r: seq<Item>)
    requires i < |s|
    ensures |r| == |s|
  {
    seq(|s|, j requires 0 <= j < |s| =>
      if j != i then Closed
      else if s[i].active then Closed
      else Opened)
  }

  /** Every click in `clicks` targets one of `n` items. */
  predicate Targets(n: nat, clicks: seq<nat>)
  {
    forall k :: 0 <= k < |clicks| ==> clicks[k] < n
  }

  /** The state after a whole sequence of clicks, oldest first. */
  function AfterClicks(s: seq<Item>, clicks: seq<nat>): (r: seq<Item>)
    requires Targets(|s|, clicks)
    ensures |r| == |s|
    decreases clicks
  {
    if clicks == [] then s else AfterClicks(AfterClick(s, clicks[0]), clicks[1..])
  }

  /** Every item other than the clicked one ends closed, showing '+' and no rotation. */
  lemma ClickClosesOthers(s: seq<Item>, i: nat)
    requires i < |s|
    ensures forall j :: 0 <= j < |s| && j != i ==>
      !AfterClick(s, i)[j].active && AfterClick(s, i)[j].glyph == Plus && AfterClick(s, i)[j].rotation == Rotate0
  {
  }

  /** The clicked item flips: closed opens with the minus glyph turned 180
      degrees, open closes with '+' and no rotation. */
  lemma ClickFlips(s: seq<Item>, i: nat)
    requires i < |s|
    ensures AfterClick(s, i)[i].active == !s[i].active
    ensures !s[i].active ==> AfterClick(s, i)[i].glyph == Minus && AfterClick(s, i)[i].rotation == Rotate180
    ensures s[i].active ==> AfterClick(s, i)[i].glyph == Plus && AfterClick(s, i)[i].rotation == Rotate0
  {
  }

  /** Whatever the state before, one click leaves at most one item open and
      every toggle in agreement with its item. */
  lemma ClickEstablishesInvariant(s: seq<Item>, i: nat)
    requires i < |s|
    ensures AtMostOneActive(AfterClick(s, i)) && AllAgree(AfterClick(s, i))
  {
  }

  /** After any non-empty sequence of clicks the invariant holds and the
      number of items is the one the page started with. */
  lemma {:induction false} ClicksKeepInvariant(s: seq<Item>, clicks: seq<nat>)
    requires clicks != []
    requires Targets(|s|, clicks)
    ensures |AfterClicks(s, clicks)| == |s|
    ensures AtMostOneActive(AfterClicks(s, clicks)) && AllAgree(AfterClicks(s, clicks))
    decreases clicks
  {
    var t := AfterClick(s, clicks[0]);
    ClickEstablishesInvariant(s, clicks[0]);
    if |clicks| > 1 {
      ClicksKeepInvariant(t, clicks[1..]);
    } else {
      assert clicks[1..] == [];
    }
  }

  /** Two clicks in a row on the same item give that item back its own
      `active` flag, now with a matching toggle, and close every other item;
      so every item ends closed exactly when the clicked item started closed. */
  lemma DoubleClick(s: seq<Item>, i: nat)
    requires i < |s|
    ensures AfterClick(AfterClick(s, i), i)[i] == if s[i].active then Opened else Closed
    ensures forall j :: 0 <= j < |s| && j != i ==> AfterClick(AfterClick(s, i), i)[j] == Closed
    ensures NoneActive(AfterClick(AfterClick(s, i), i)) <==> !s[i].active
  {
  }

  /** Three closed items: open the second, then the third, then click the third again. */
  lemma ThreeItemScenario()
    ensures AfterClick([Closed, Closed, Closed], 1) == [Closed, Opened, Closed]
    ensures AfterClick([Closed, Opened, Closed], 2) == [Closed, Closed, Opened]
    ensures AfterClick([Closed, Closed, Opened], 2) == [Closed, Closed, Closed]
  {
  }

  /** The `.faq-item` list found at page load, held as three parallel arrays:
      the `active` class of each item, its toggle's text and its toggle's transform. */
  class FaqList {
    var active: array<bool>
    var glyph: array<string>
    var rotation: array<string>

    ghost predicate Valid()
      reads this
    {
      active.Length == glyph.Length == rotation.Length && glyph != rotation
    }

    ghost function Items(): (s: seq<Item>)
      reads this, active, glyph, rotation
      requires Valid()
      ensures |s| == active.Length
    {
      var a, g, r := active[..], glyph[..], rotation[..];
      seq(|a|, j requires 0 <= j < |a| => Item(a[j], g[j], r[j]))
    }

    /** Binds the handler to the items the page holds, in document order. */
    constructor (initial: seq<Item>)
      ensures Valid() && Items() == initial
      ensures fresh(active) && fresh(glyph) && fresh(rotation)
    {
      active := new bool[|initial|](j requires 0 <= j < |initial| => initial[j].active);
      glyph := new string[|initial|](j requires 0 <= j < |initial| => initial[j].glyph);
      rotation := new string[|initial|](j requires 0 <= j < |initial| => initial[j].rotation);
    }

    /** The click handler of item `i`. */
    method Click(i: nat)
      requires Valid() && i < active.Length
      modifies active, glyph, rotation
      ensures Valid()
      ensures Items() == AfterClick(old(Items()), i)
      ensures AtMostOneActive(Items()) && AllAgree(Items())
    {
      var isActive := active[i];
      var j := 0;
      while j < active.Length
        invariant 0 <= j <= active.Length
        invariant forall k :: 0 <= k < j && k != i ==>
          !active[k] && glyph[k] == Plus && rotation[k] == Rotate0
        invariant forall k :: 0 <= k < active.Length && (j <= k || k == i) ==>
          active[k] == old(active[k]) && glyph[k] == old(glyph[k]) && rotation[k] == old(rotation[k])
      {
        if j != i {
          active[j] := false;
          glyph[j] := Plus;
          rotation[j] := Rotate0;
        }
        j := j + 1;
      }
      if !isActive {
        active[i] := true;
        glyph[i] := Minus;
        rotation[i] := Rotate180;
      } else {
        active[i] := false;
        glyph[i] := Plus;
        rotation[i] := Rotate0;
      }
      ClickEstablishesInvariant(old(Items()), i);
    }
  }
}
