/** The FAQ accordion: a fixed list of items, each "active" (expanded) or not.
    Clicking an item's question closes every item and then opens the clicked one
    unless it was the one already open. */
module Accordion {

  /** At most one item is expanded. */
  predicate AtMostOneActive(flags: seq<bool>) {
    forall a, b :: 0 <= a < |flags| && 0 <= b < |flags| && flags[a] && flags[b] ==> a == b
  }

  /** No item is expanded. */
  predicate NoneActive(flags: seq<bool>) {
    forall k :: 0 <= k < |flags| ==> !flags[k]
  }

  /** Exactly item i is expanded. */
  predicate OnlyActive(flags: seq<bool>, i: nat) {
    i < |flags| && flags[i] && forall k :: 0 <= k < |flags| && k != i ==> !flags[k]
  }

  /** The flags after a click on item i. */
  function Clicked(flags: seq<bool>, i: nat): (r: seq<bool>)
    requires i < |flags|
    ensures |r| == |flags|
    ensures flags[i] ==> NoneActive(r)
    ensures !flags[i] ==> OnlyActive(r, i)
  {
    seq(|flags|, k requires 0 <= k < |flags| => k == i && !flags[i])
  }

  /** From any state, a click leaves at most one item expanded. */
  lemma ClickLeavesAtMostOne(flags: seq<bool>, i: nat)
    requires i < |flags|
    ensures AtMostOneActive(Clicked(flags, i))
  {
  }

  /** Clicking a collapsed item and then the same item again collapses everything. */
  lemma ClickTwiceCloses(flags: seq<bool>, i: nat)
    requires i < |flags| && !flags[i]
    ensures NoneActive(Clicked(Clicked(flags, i), i))
  {
  }

  /** Clicking item a and then another item b leaves exactly b expanded. */
  lemma ClickOtherSwitches(flags: seq<bool>, a: nat, b: nat)
    requires a < |flags| && b < |flags| && a != b
    ensures OnlyActive(Clicked(Clicked(flags, a), b), b)
  {
  }

  /** The `.faq-item` elements of the page: `active[k]` is whether item k carries
      the `active` class, `hasQuestion[k]` whether it has a `.faq-question`
      element (only those get a click handler). */
  class Faq {
    const hasQuestion: seq<bool>
    const active: array<bool>

    ghost predicate Valid()
      reads this
    {
      |hasQuestion| == active.Length
    }

    /** The page as loaded: no item expanded. */
    constructor (hasQuestion: seq<bool>)
      ensures Valid() && fresh(active)
      ensures this.hasQuestion == hasQuestion
      ensures active[..] == seq(|hasQuestion|, k => false)
    {
      this.hasQuestion := hasQuestion;
      active := new bool[|hasQuestion|](k => false);
    }

    /** The click handler of item i. */
    method Click(i: nat)
      requires Valid() && i < active.Length && hasQuestion[i]
      modifies active
      ensures active[..] == Clicked(old(active[..]), i)
      ensures AtMostOneActive(active[..])
    {
      var isActive := active[i];
      for k := 0 to active.Length
        invariant forall m :: 0 <= m < k ==> !active[m]
        invariant forall m :: k <= m < active.Length ==> active[m] == old(active[m])
      {
        active[k] := false;
      }
      if !isActive {
        active[i] := true;
      }
      ClickLeavesAtMostOne(old(active[..]), i);
    }
  }
}
