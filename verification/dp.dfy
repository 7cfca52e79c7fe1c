/**
  `run_dp` over its workspace: two capacity-indexed rows of (value, weight)
  that trade places after every item, and the dense take matrix.
 */
module Dp {
  import opened KnapsackTypes
  import opened Selections
  import opened Validation
  import opened Recurrence

  /**
    `copy_row`: the destination row becomes a copy of the source row, cell
    by cell. Rows are modelled as sequences, so the copy is a fresh value.
   */
  method CopyRow(srcValue: seq<Int32>, srcWeight: seq<SizeT>) returns (destValue: seq<Int32>, destWeight: seq<SizeT>)
    requires |srcValue| == |srcWeight|
    ensures destValue == srcValue && destWeight == srcWeight
  {
    destValue, destWeight := [], [];
    var col := 0;
    while col < |srcValue|
      invariant 0 <= col <= |srcValue|
      invariant destValue == srcValue[..col] && destWeight == srcWeight[..col]
    {
      destValue := destValue + [srcValue[col]];
      destWeight := destWeight + [srcWeight[col]];
      col := col + 1;
    }
  }

  /** The row while item `i` is relaxed: row i + 1 below `cap`, still row i from `cap` on. */
  function Staged(items: seq<Item>, i: nat, cap: nat, c: nat): Cell
    requires ValidItems(items) && i < |items|
  {
    if c < cap then DpCell(items, i + 1, c) else DpCell(items, i, c)
  }

  /**
    One pass of the outer loop of `run_dp` for item `i`, after `copy_row`:
    every cell from the item's weight up is offered the candidate
    `prev[cap - weight] + (value, weight)`, which replaces the cell and sets
    the take bit only when it is strictly better. Returns false at the first
    candidate value outside the int range.
   */
  method RelaxItem(items: seq<Item>, i: nat, prevValue: seq<Int32>, prevWeight: seq<SizeT>, bits: seq<bool>)
    returns (ok: bool, currValue: seq<Int32>, currWeight: seq<SizeT>, currBits: seq<bool>)
    requires ValidItems(items) && i < |items|
    requires |prevValue| == |prevWeight| == |bits| <= SIZE_MAX
    requires forall c :: 0 <= c < |prevValue| ==> prevValue[c] == DpCell(items, i, c).value
    requires forall c :: 0 <= c < |prevWeight| ==> prevWeight[c] == DpCell(items, i, c).weight
    requires forall c :: 0 <= c < |bits| ==> !bits[c]
    ensures ok <==> forall c :: 0 <= c < |prevValue| ==> !CandidateOverflows(items, i, c)
    ensures ok ==> |currValue| == |currWeight| == |currBits| == |prevValue|
    ensures ok ==> forall c :: 0 <= c < |currValue| ==> currValue[c] == DpCell(items, i + 1, c).value
    ensures ok ==> forall c :: 0 <= c < |currWeight| ==> currWeight[c] == DpCell(items, i + 1, c).weight
    ensures ok ==> forall c :: 0 <= c < |currBits| ==> currBits[c] == TakeBit(items, i, c)
  {
    var width := |prevValue|;
    currValue, currWeight := CopyRow(prevValue, prevWeight);
    currBits := bits;
    var itemWeight := items[i].weight;
    var itemValue := items[i].value;
    var cap: nat := itemWeight;
    while cap < width
      invariant itemWeight <= cap && (cap <= width || cap == itemWeight)
      invariant |currValue| == |currWeight| == |currBits| == width
      invariant forall c :: 0 <= c < width ==>
                  && currValue[c] == Staged(items, i, cap, c).value
                  && currWeight[c] == Staged(items, i, cap, c).weight
                  && currBits[c] == (c < cap && TakeBit(items, i, c))
      invariant forall c :: 0 <= c < width && c < cap ==> !CandidateOverflows(items, i, c)
    {
      var sum := AddIntNoOverflow(prevValue[cap - itemWeight], itemValue);
      if sum.None? {
        assert CandidateOverflows(items, i, cap);
        return false, [], [], [];
      }
      var candidateVal := sum.value;
      var candidateWeight := prevWeight[cap - itemWeight] + itemWeight;
      var currentVal := currValue[cap];
      var currentWeight := currWeight[cap];
      RowStep(items, i, cap);
      if candidateVal > currentVal || (candidateVal == currentVal && candidateWeight < currentWeight) {
        currValue := currValue[cap := candidateVal];
        currWeight := currWeight[cap := candidateWeight];
        currBits := currBits[cap := true];
      }
      cap := cap + 1;
    }
    forall c | 0 <= c < width && c < itemWeight
      ensures DpCell(items, i + 1, c) == DpCell(items, i, c)
    {
      RowStep(items, i, c);
    }
    ok := true;
  }

  /**
    `run_dp`: fills rows 1..n of the recurrence, one item at a time, and the
    take bits, the current row becoming the previous one after each item.
    Both rows start zeroed (row 0). It aborts with `ok == false` at the
    first candidate that leaves the int range. On success the last row and
    the take matrix are those of the recurrence.
   */
  method RunDp(items: seq<Item>, width: SizeT) returns (ok: bool, row: seq<Cell>, take: seq<seq<bool>>)
    requires ValidItems(items) && width >= 1
    ensures ok <==> NoOverflow(items, width)
    ensures ok ==> |row| == width && forall c :: 0 <= c < width ==> row[c] == DpCell(items, |items|, c)
    ensures ok ==> forall c :: 0 <= c < width ==> row[c].weight <= c && InInt32(row[c].value)
    ensures ok ==> TakeMatches(items, take, width)
  {
    var n := |items|;
    var prevValue: seq<Int32> := seq(width, _ => 0);
    var prevWeight: seq<SizeT> := seq(width, _ => 0);
    var zeroBits: seq<bool> := seq(width, _ => false);
    take := seq(n, _ => zeroBits);

    var i := 0;
    while i < n
      invariant 0 <= i <= n
      invariant |prevValue| == |prevWeight| == width && |take| == n
      invariant forall c :: 0 <= c < width ==> prevValue[c] == DpCell(items, i, c).value
      invariant forall c :: 0 <= c < width ==> prevWeight[c] == DpCell(items, i, c).weight
      invariant forall k :: 0 <= k < n ==> |take[k]| == width
      invariant forall k, c :: 0 <= k < i && 0 <= c < width ==> take[k][c] == TakeBit(items, k, c)
      invariant forall k :: i <= k < n ==> take[k] == zeroBits
      invariant forall k, c :: 0 <= k < i && 0 <= c < width ==> !CandidateOverflows(items, k, c)
    {
      var relaxed, currValue, currWeight, bits := RelaxItem(items, i, prevValue, prevWeight, take[i]);
      if !relaxed {
        return false, [], [];
      }
      take := take[i := bits];
      prevValue, prevWeight := currValue, currWeight;
      i := i + 1;
    }

    ok := true;
    row := seq(width, c requires 0 <= c < width => Cell(prevValue[c], prevWeight[c]));
  }
}
