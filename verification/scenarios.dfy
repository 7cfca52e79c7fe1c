/**
  The scenarios of the unit tests, stated on the model: the optimum and
  the selection for each accepted instance, the status for each rejected
  one, and general forms of the "nothing fits" and "nothing is worth
  taking" cases.
 */
module Scenarios {
  import opened KnapsackTypes
  import opened Selections
  import opened Validation
  import opened BruteForce
  import opened Recurrence

  // Each instance is given through element-wise `requires` on `items` rather
  // than as a sequence literal: with literals the verifier unfolds the whole
  // recurrence eagerly and runs out of resource.

  /** A step of the walk back whose take bit is set: item k - 1 follows the rest of the walk. */
  lemma WalkTaken(items: seq<Item>, k: nat, c: int, rest: seq<nat>)
    requires ValidItems(items) && 0 < k <= |items| && c >= 0 && TakeBit(items, k - 1, c)
    requires Trace(items, k - 1, c - items[k - 1].weight) == rest
    ensures Trace(items, k, c) == rest + [k - 1]
  {
    TraceStep(items, k, c);
  }

  /** A step of the walk back whose take bit is clear: item k - 1 is skipped. */
  lemma WalkSkipped(items: seq<Item>, k: nat, c: int, rest: seq<nat>)
    requires ValidItems(items) && 0 < k <= |items| && c >= 0 && !TakeBit(items, k - 1, c)
    requires Trace(items, k - 1, c) == rest
    ensures Trace(items, k, c) == rest
  {
    TraceStep(items, k, c);
  }

  /** Five items, capacity 20: value 29 from items 0, 2, 3 and 4. */
  lemma {:induction false} ComputesOptimalValueAndSelection(items: seq<Item>)
    requires |items| == 5 && items[0] == Item(2, 3) && items[1] == Item(3, 4)
    requires items[2] == Item(4, 8) && items[3] == Item(5, 8) && items[4] == Item(9, 10)
    ensures ValidInputs(Some(items), 20)
    ensures DpCell(items, |items|, 20).value <= INT_MAX
    ensures Optimum(items, 20) == KnapsackResult(29, 4, [0, 2, 3, 4])
  {
    ComputesOptimalValueAndSelectionWalk(items);
  }

  /** The walk back of `ComputesOptimalValueAndSelection` from capacity 20 picks items 0, 2, 3 and 4. */
  lemma {:induction false} ComputesOptimalValueAndSelectionWalk(items: seq<Item>)
    requires |items| == 5 && items[0] == Item(2, 3) && items[1] == Item(3, 4)
    requires items[2] == Item(4, 8) && items[3] == Item(5, 8) && items[4] == Item(9, 10)
    ensures ValidItems(items) && DpCell(items, 5, 20) == Cell(29, 20)
    ensures Trace(items, 5, 20) == [0, 2, 3, 4]
  {
    ComputesOptimalValueAndSelectionBits(items);
    WalkTaken(items, 1, 2, []);
    WalkSkipped(items, 2, 2, [0]);
    WalkTaken(items, 3, 6, [0]);
    WalkTaken(items, 4, 11, [0, 2]);
    WalkTaken(items, 5, 20, [0, 2, 3]);
  }

  /** The take bits along the walk back of `ComputesOptimalValueAndSelection`. */
  lemma {:induction false} ComputesOptimalValueAndSelectionBits(items: seq<Item>)
    requires |items| == 5 && items[0] == Item(2, 3) && items[1] == Item(3, 4)
    requires items[2] == Item(4, 8) && items[3] == Item(5, 8) && items[4] == Item(9, 10)
    ensures ValidItems(items) && DpCell(items, 5, 20) == Cell(29, 20)
    ensures TakeBit(items, 0, 2) && !TakeBit(items, 1, 2) && TakeBit(items, 2, 6)
    ensures TakeBit(items, 3, 11) && TakeBit(items, 4, 20)
  {
    ComputesOptimalValueAndSelectionCells(items);
    assert DpCell(items, 0, 0) == DpCell(items, 0, 2) == Cell(0, 0);
  }

  /** The cells of the recurrence the walk back of `ComputesOptimalValueAndSelection` reads. */
  lemma {:induction false} ComputesOptimalValueAndSelectionCells(items: seq<Item>)
    requires |items| == 5 && items[0] == Item(2, 3) && items[1] == Item(3, 4)
    requires items[2] == Item(4, 8) && items[3] == Item(5, 8) && items[4] == Item(9, 10)
    ensures ValidItems(items)
    ensures DpCell(items, 1, 2) == Cell(3, 2)
    ensures DpCell(items, 2, 2) == Cell(3, 2)
    ensures DpCell(items, 2, 6) == Cell(7, 5)
    ensures DpCell(items, 3, 6) == Cell(11, 6)
    ensures DpCell(items, 3, 11) == Cell(15, 9)
    ensures DpCell(items, 4, 11) == Cell(19, 11)
    ensures DpCell(items, 4, 20) == Cell(23, 14)
    ensures DpCell(items, 5, 20) == Cell(29, 20)
  {
    assert ValidItems(items);
    assert DpCell(items, 1, 2) == Cell(3, 2);
    assert DpCell(items, 1, 3) == Cell(3, 2);
    assert DpCell(items, 1, 4) == Cell(3, 2);
    assert DpCell(items, 1, 6) == Cell(3, 2);
    assert DpCell(items, 1, 7) == Cell(3, 2);
    assert DpCell(items, 1, 8) == Cell(3, 2);
    assert DpCell(items, 1, 11) == Cell(3, 2);
    assert DpCell(items, 1, 12) == Cell(3, 2);
    assert DpCell(items, 1, 13) == Cell(3, 2);
    assert DpCell(items, 1, 15) == Cell(3, 2);
    assert DpCell(items, 1, 16) == Cell(3, 2);
    assert DpCell(items, 1, 17) == Cell(3, 2);
    assert DpCell(items, 1, 20) == Cell(3, 2);
    assert DpCell(items, 2, 2) == Cell(3, 2);
    assert DpCell(items, 2, 6) == Cell(7, 5);
    assert DpCell(items, 2, 7) == Cell(7, 5);
    assert DpCell(items, 2, 11) == Cell(7, 5);
    assert DpCell(items, 2, 15) == Cell(7, 5);
    assert DpCell(items, 2, 16) == Cell(7, 5);
    assert DpCell(items, 2, 20) == Cell(7, 5);
    assert DpCell(items, 3, 6) == Cell(11, 6);
    assert DpCell(items, 3, 11) == Cell(15, 9);
    assert DpCell(items, 3, 15) == Cell(15, 9);
    assert DpCell(items, 3, 20) == Cell(15, 9);
    assert DpCell(items, 4, 11) == Cell(19, 11);
    assert DpCell(items, 4, 20) == Cell(23, 14);
    assert DpCell(items, 5, 20) == Cell(29, 20);
  }

  /** Capacity 9: items 2 and 3 (value 17) beat taking the best value-per-weight item first. */
  lemma {:induction false} PicksBestCombinationNotGreedy(items: seq<Item>)
    requires |items| == 4 && items[0] == Item(4, 6) && items[1] == Item(5, 9)
    requires items[2] == Item(6, 12) && items[3] == Item(3, 5)
    ensures ValidInputs(Some(items), 9)
    ensures DpCell(items, |items|, 9).value <= INT_MAX
    ensures Optimum(items, 9) == KnapsackResult(17, 2, [2, 3])
  {
    assert ValidItems(items);
    PicksBestCombinationNotGreedyCells(items);
    assert !TakeBit(items, 0, 0);
    assert Trace(items, 1, 0) == Trace(items, 0, 0);
    assert Trace(items, 1, 0) == [];
    assert !TakeBit(items, 1, 0);
    assert Trace(items, 2, 0) == Trace(items, 1, 0);
    assert Trace(items, 2, 0) == [];
    assert TakeBit(items, 2, 6);
    assert Trace(items, 3, 6) == Trace(items, 2, 0) + [2];
    assert Trace(items, 3, 6) == [2];
    assert TakeBit(items, 3, 9);
    assert Trace(items, 4, 9) == Trace(items, 3, 6) + [3];
    assert Trace(items, 4, 9) == [2, 3];
  }

  /** The cells of the recurrence the walk back of `PicksBestCombinationNotGreedy` reads. */
  lemma {:induction false} PicksBestCombinationNotGreedyCells(items: seq<Item>)
    requires |items| == 4 && items[0] == Item(4, 6) && items[1] == Item(5, 9)
    requires items[2] == Item(6, 12) && items[3] == Item(3, 5)
    ensures ValidItems(items)
    ensures DpCell(items, 1, 0) == Cell(0, 0)
    ensures DpCell(items, 2, 0) == Cell(0, 0)
    ensures DpCell(items, 2, 6) == Cell(9, 5)
    ensures DpCell(items, 3, 6) == Cell(12, 6)
    ensures DpCell(items, 3, 9) == Cell(15, 9)
    ensures DpCell(items, 4, 9) == Cell(17, 9)
  {
    assert ValidItems(items);
    assert DpCell(items, 1, 0) == Cell(0, 0);
    assert DpCell(items, 1, 1) == Cell(0, 0);
    assert DpCell(items, 1, 3) == Cell(0, 0);
    assert DpCell(items, 1, 4) == Cell(6, 4);
    assert DpCell(items, 1, 6) == Cell(6, 4);
    assert DpCell(items, 1, 9) == Cell(6, 4);
    assert DpCell(items, 2, 0) == Cell(0, 0);
    assert DpCell(items, 2, 3) == Cell(0, 0);
    assert DpCell(items, 2, 6) == Cell(9, 5);
    assert DpCell(items, 2, 9) == Cell(15, 9);
    assert DpCell(items, 3, 6) == Cell(12, 6);
    assert DpCell(items, 3, 9) == Cell(15, 9);
    assert DpCell(items, 4, 9) == Cell(17, 9);
  }

  /** One item whose weight equals the capacity is taken. */
  lemma {:induction false} SingleItemExactFit(items: seq<Item>)
    requires |items| == 1 && items[0] == Item(5, 9)
    ensures ValidInputs(Some(items), 5)
    ensures DpCell(items, |items|, 5).value <= INT_MAX
    ensures Optimum(items, 5) == KnapsackResult(9, 1, [0])
  {
    assert ValidItems(items);
    SingleItemExactFitCells(items);
    assert TakeBit(items, 0, 5);
    assert Trace(items, 1, 5) == Trace(items, 0, 0) + [0];
    assert Trace(items, 1, 5) == [0];
  }

  /** The cells of the recurrence the walk back of `SingleItemExactFit` reads. */
  lemma {:induction false} SingleItemExactFitCells(items: seq<Item>)
    requires |items| == 1 && items[0] == Item(5, 9)
    ensures ValidItems(items)
    ensures DpCell(items, 1, 5) == Cell(9, 5)
  {
    assert ValidItems(items);
    assert DpCell(items, 1, 5) == Cell(9, 5);
  }

  /** The largest accepted capacity with two light items: both are taken. */
  lemma {:induction false} HandlesLargeCapacityWithSmallItemSet(items: seq<Item>)
    requires |items| == 2 && items[0] == Item(1, 10) && items[1] == Item(2, 15)
    ensures ValidInputs(Some(items), 100000)
    ensures DpCell(items, |items|, 100000).value <= INT_MAX
    ensures Optimum(items, 100000) == KnapsackResult(25, 2, [0, 1])
  {
    HandlesLargeCapacityWithSmallItemSetCells(items);
    TraceStep(items, 1, 1);
    assert Trace(items, 0, 0) == [];
    assert Trace(items, 1, 1) == [0];
    TraceStep(items, 2, 3);
    assert Trace(items, 2, 3) == [0, 1];
  }

  /** The cells of the recurrence the walk back of `HandlesLargeCapacityWithSmallItemSet` reads. */
  lemma {:induction false} HandlesLargeCapacityWithSmallItemSetCells(items: seq<Item>)
    requires |items| == 2 && items[0] == Item(1, 10) && items[1] == Item(2, 15)
    ensures ValidItems(items)
    ensures TakeBit(items, 0, 1) && TakeBit(items, 1, 3)
    ensures DpCell(items, 2, 100000) == Cell(25, 3)
  {
    HandlesLargeCapacityFirstRow(items, 1);
    HandlesLargeCapacityFirstRow(items, 3);
    HandlesLargeCapacityFirstRow(items, 99998);
    HandlesLargeCapacityFirstRow(items, 100000);
    assert DpCell(items, 0, 0) == Cell(0, 0);
    RowStep(items, 1, 3);
    RowStep(items, 1, 100000);
  }

  /** Row 1 of `HandlesLargeCapacityWithSmallItemSet`: the first item alone, from capacity 1 on. */
  lemma {:induction false} HandlesLargeCapacityFirstRow(items: seq<Item>, c: int)
    requires |items| == 2 && items[0] == Item(1, 10) && items[1] == Item(2, 15) && c >= 1
    ensures ValidItems(items)
    ensures DpCell(items, 1, c) == Cell(10, 1)
  {
    assert ValidItems(items);
    assert DpCell(items, 0, c) == DpCell(items, 0, c - 1) == Cell(0, 0);
    RowStep(items, 0, c);
  }

  /**
    When no item is worth taking at capacities up to `capacity`, because it
    is heavier than that or worth nothing, every cell is empty and the walk
    back selects nothing.
   */
  lemma {:induction false} NothingWorthTaking(items: seq<Item>, capacity: int, k: nat, c: int)
    requires ValidItems(items) && k <= |items| && 0 <= c <= capacity
    requires forall j :: 0 <= j < |items| ==> items[j].weight > capacity || items[j].value == 0
    ensures DpCell(items, k, c) == Cell(0, 0)
    ensures Trace(items, k, c) == []
    decreases k
  {
    if k > 0 {
      var j: nat := k - 1;
      NothingWorthTaking(items, capacity, j, c);
      if items[j].weight <= c {
        NothingWorthTaking(items, capacity, j, c - items[j].weight);
        assert !TakeBit(items, j, c);
      }
    }
  }

  /** Capacity 0: no item fits, so the optimum is 0 with nothing selected. */
  lemma HandlesZeroCapacity(items: seq<Item>)
    requires ValidItems(items)
    ensures DpCell(items, |items|, 0).value <= INT_MAX
    ensures Optimum(items, 0) == KnapsackResult(0, 0, [])
  {
    NothingWorthTaking(items, 0, |items|, 0);
  }

  /** Every item heavier than the capacity: the optimum is 0 with nothing selected. */
  lemma HandlesAllItemsTooHeavy(items: seq<Item>, capacity: int)
    requires ValidItems(items) && capacity >= 0
    requires forall j :: 0 <= j < |items| ==> items[j].weight > capacity
    ensures DpCell(items, |items|, capacity).value <= INT_MAX
    ensures Optimum(items, capacity) == KnapsackResult(0, 0, [])
  {
    NothingWorthTaking(items, capacity, |items|, capacity);
    NothingWorthTaking(items, capacity, |items|, 0);
  }

  /**
    Every item worth 0: the tie-break on weight prefers the empty subset, so
    nothing is selected.
   */
  lemma AllZeroValuesChoosesNothing(items: seq<Item>, capacity: int)
    requires ValidItems(items) && capacity >= 0
    requires forall j :: 0 <= j < |items| ==> items[j].value == 0
    ensures DpCell(items, |items|, capacity).value <= INT_MAX
    ensures Optimum(items, capacity) == KnapsackResult(0, 0, [])
  {
    NothingWorthTaking(items, capacity, |items|, capacity);
    NothingWorthTaking(items, capacity, |items|, 0);
  }

  /**
    Two items of weight 1 worth INT_MAX and 1, capacity 2: the optimum does
    not fit an int, so the DP meets an overflowing candidate and the solve
    fails.
   */
  lemma {:induction false} RejectsValueOverflow(items: seq<Item>)
    requires |items| == 2 && items[0] == Item(1, INT_MAX) && items[1] == Item(1, 1)
    ensures ValidInputs(Some(items), 2)
    ensures BruteForceOptimal(items, 2) == INT_MAX + 1
    ensures !NoOverflow(items, 3)
  {
    RejectsValueOverflowCells(items);
    BruteForceMatchesDp(items, 2);
    NoOverflowIffOptimumFits(items, 3);
  }

  /** The last cell of `RejectsValueOverflow`: both items, one past INT_MAX. */
  lemma {:induction false} RejectsValueOverflowCells(items: seq<Item>)
    requires |items| == 2 && items[0] == Item(1, INT_MAX) && items[1] == Item(1, 1)
    ensures ValidItems(items)
    ensures DpCell(items, 2, 2) == Cell(INT_MAX + 1, 2)
  {
    RejectsValueOverflowFirstRow(items);
    RowStep(items, 1, 2);
  }

  /** Row 1 of `RejectsValueOverflow`: the first item alone, from capacity 1 on. */
  lemma {:induction false} RejectsValueOverflowFirstRow(items: seq<Item>)
    requires |items| == 2 && items[0] == Item(1, INT_MAX) && items[1] == Item(1, 1)
    ensures ValidItems(items)
    ensures DpCell(items, 1, 1) == DpCell(items, 1, 2) == Cell(INT_MAX, 1)
  {
    assert ValidItems(items);
    RowStep(items, 0, 1);
    RowStep(items, 0, 2);
  }

  /** A negative capacity and a negative weight are rejected by the validator. */
  lemma RejectsNegativeCapacityAndWeight()
    ensures ValidateInputs(Some([Item(1, 1)]), -1) == InvalidCapacity
    ensures ValidateInputs(Some([Item(-1, 5)]), 10) == InvalidItems
  {
  }

  /** A null item pointer and an empty item list are rejected as invalid items. */
  lemma RejectsMissingItems()
    ensures ValidateInputs(None, 1) == InvalidItems
    ensures ValidateInputs(Some([]), 10) == InvalidItems
  {
  }

  /**
    Items with a negative value or a zero weight are outside what the
    validator admits: such inputs are rejected before any DP runs.
   */
  lemma RejectsNegativeValuesAndZeroWeights()
    ensures ValidateInputs(Some([Item(1, INT_MIN), Item(1, -1)]), 2) == InvalidItems
    ensures ValidateInputs(Some([Item(0, 7)]), 0) == InvalidItems
  {
  }
}
