/**
  Subsets of the item sequence, written as strictly ascending index
  sequences, with their total weight and value, and the lexicographic
  (value descending, weight ascending) order the solver uses to compare them.
 */
module Selections {
  import opened KnapsackTypes

  /** A weight > 0, value >= 0 item: the only kind the validator admits. */
  predicate ValidItem(it: Item) {
    it.weight > 0 && it.value >= 0
  }

  predicate ValidItems(items: seq<Item>) {
    forall i :: 0 <= i < |items| ==> ValidItem(items[i])
  }

  /** `s` lists distinct indices below `k` in strictly ascending order. */
  predicate IsSelection(s: seq<nat>, k: int) {
    && (forall j :: 0 <= j < |s| ==> s[j] < k)
    && (forall j, l :: 0 <= j < l < |s| ==> s[j] < s[l])
  }

  /** Every index of `s` names an item. */
  predicate InRange(s: seq<nat>, n: int) {
    forall j :: 0 <= j < |s| ==> s[j] < n
  }

  function Weight(items: seq<Item>, s: seq<nat>): int
    requires InRange(s, |items|)
  {
    if |s| == 0 then 0 else Weight(items, s[..|s| - 1]) + items[s[|s| - 1]].weight
  }

  function Value(items: seq<Item>, s: seq<nat>): int
    requires InRange(s, |items|)
  {
    if |s| == 0 then 0 else Value(items, s[..|s| - 1]) + items[s[|s| - 1]].value
  }

  /** A (best value, weight of that subset) pair: one DP cell, or a subset's totals. */
  datatype Cell = Cell(value: int, weight: int)

  function Totals(items: seq<Item>, s: seq<nat>): Cell
    requires InRange(s, |items|)
  {
    Cell(Value(items, s), Weight(items, s))
  }

  /** `a` strictly beats `b`: higher value, or equal value and strictly lower weight. */
  predicate Better(a: Cell, b: Cell) {
    a.value > b.value || (a.value == b.value && a.weight < b.weight)
  }

  /** The cell reached by adding item `it` to a subset whose totals are `c`. */
  function Plus(c: Cell, it: Item): Cell {
    Cell(c.value + it.value, c.weight + it.weight)
  }

  /** Neither of two cells beats the other exactly when they are equal. */
  lemma BetterIsTotal(a: Cell, b: Cell)
    ensures !Better(a, b) && !Better(b, a) <==> a == b
  {
  }

  /** Appending a larger index keeps a selection a selection, and adds that item's totals. */
  lemma AppendSelection(items: seq<Item>, s: seq<nat>, k: nat)
    requires IsSelection(s, k) && k < |items|
    ensures IsSelection(s + [k], k + 1)
    ensures Weight(items, s + [k]) == Weight(items, s) + items[k].weight
    ensures Value(items, s + [k]) == Value(items, s) + items[k].value
  {
    assert (s + [k])[..|s|] == s;
  }

  /** The last index of a selection bounds all others; dropping it leaves a selection below it. */
  lemma DropLast(items: seq<Item>, s: seq<nat>, k: int)
    requires IsSelection(s, k) && |s| > 0 && k <= |items|
    ensures IsSelection(s[..|s| - 1], s[|s| - 1])
    ensures Weight(items, s) == Weight(items, s[..|s| - 1]) + items[s[|s| - 1]].weight
    ensures Value(items, s) == Value(items, s[..|s| - 1]) + items[s[|s| - 1]].value
  {
  }

  /** A selection below `k` is a selection below any larger bound. */
  lemma WidenSelection(s: seq<nat>, k: int, k': int)
    requires IsSelection(s, k) && k <= k'
    ensures IsSelection(s, k')
  {
  }

  /** A selection below `k` whose last index is not `k - 1` lies entirely below `k - 1`. */
  lemma ShrinkBound(s: seq<nat>, k: int)
    requires IsSelection(s, k) && (|s| == 0 || s[|s| - 1] != k - 1)
    ensures IsSelection(s, k - 1)
  {
    if |s| > 0 {
      forall j | 0 <= j < |s|
        ensures s[j] < k - 1
      {
        if j < |s| - 1 {
          assert s[j] < s[|s| - 1];
        }
      }
    }
  }

  lemma {:induction false} TotalsNonNegative(items: seq<Item>, s: seq<nat>)
    requires ValidItems(items) && InRange(s, |items|)
    ensures Weight(items, s) >= 0 && Value(items, s) >= 0
    ensures |s| > 0 ==> Weight(items, s) > 0
  {
    if |s| > 0 {
      TotalsNonNegative(items, s[..|s| - 1]);
    }
  }
}
