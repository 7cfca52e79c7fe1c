/**
  The public entry points of the library: `knapsack_solve_status`, its
  boolean wrapper `knapsack_solve`, and the result life cycle
  (`reset_result`, `knapsack_result_free`). A null output pointer is
  `None`; allocation outcomes come in as an `Allocation`.
 */
module Solver {
  import opened KnapsackTypes
  import opened Selections
  import opened Validation
  import opened BruteForce
  import opened Recurrence
  import opened Dp
  import opened Reconstruct

  /** `reset_result`: a present result is emptied; a null one is left alone. */
  function ResetResult(out: Option<KnapsackResult>): (r: Option<KnapsackResult>)
    ensures r.Some? <==> out.Some?
    ensures out.Some? ==> r == Some(Zeroed)
  {
    if out.None? then None else Some(Zeroed)
  }

  /**
    `knapsack_result_free`: releases the index buffer and empties the
    result; a null result is left alone.
   */
  function ResultFree(out: Option<KnapsackResult>): (r: Option<KnapsackResult>)
    ensures r.Some? <==> out.Some?
    ensures out.Some? ==> r == Some(Zeroed)
  {
    match out
    case None => None
    case Some(_) => Some(Zeroed)
  }

  /**
    Freeing is idempotent and a freed result is exactly a reset one, so
    freeing after a failed solve, or twice, is harmless.
   */
  lemma FreeAfterReset(out: Option<KnapsackResult>)
    ensures ResultFree(ResultFree(out)) == ResultFree(out)
    ensures ResultFree(out) == ResetResult(out)
    ensures ResultFree(ResetResult(out)) == ResetResult(out)
  {
  }

  /**
    The part of `knapsack_solve_status` after validation: the dimension
    guard (which cannot fire once the inputs are valid), workspace
    allocation, the DP (aborting on int overflow), the choice of the best
    capacity, and reconstruction (whose index buffer may fail to allocate).
    `solution` is the filled result on success and `None` otherwise.
   */
  method SolveValidated(list: seq<Item>, capacity: Int32, alloc: Allocation)
    returns (status: Status, solution: Option<KnapsackResult>)
    requires ValidInputs(Some(list), capacity)
    ensures status == Ok || status == Alloc || status == IntOverflow
    ensures status == IntOverflow <==> alloc.workspaceOk && BruteForceOptimal(list, capacity) > INT_MAX
    ensures status == Alloc <==>
              || !alloc.workspaceOk
              || (BruteForceOptimal(list, capacity) <= INT_MAX && !alloc.indicesOk
                  && BruteForceOptimal(list, capacity) > 0)
    ensures status == Ok <==>
              && alloc.workspaceOk && BruteForceOptimal(list, capacity) <= INT_MAX
              && (alloc.indicesOk || BruteForceOptimal(list, capacity) == 0)
    ensures status != Ok ==> solution.None?
    ensures status == Ok ==>
              && DpCell(list, |list|, capacity).value <= INT_MAX
              && solution == Some(Optimum(list, capacity))
              && IsOptimalSolution(list, capacity, solution.value)
              && solution.value.optimalValue == BruteForceOptimal(list, capacity)
  {
    DimensionGuardPassesForValidInputs(|list|, capacity);
    var dims := DimensionGuard(|list|, capacity);
    if dims.None? {
      return DimensionOverflow, None;
    }
    BruteForceMatchesDp(list, capacity);
    if !alloc.workspaceOk {
      return Alloc, None;
    }

    var width := dims.value.width;
    NoOverflowIffOptimumFits(list, width);
    var dpOk, row, take := RunDp(list, width);
    if !dpOk {
      return IntOverflow, None;
    }

    var bestCap := SelectBestCap(row);
    SelectedCapIsOptimalWeight(list, capacity, bestCap);
    OptimumIsOptimal(list, capacity);
    OptimumSelectsIffPositive(list, capacity);

    solution := ReconstructSolution(list, width, take, row, bestCap, alloc.indicesOk);
    status := if solution.None? then Alloc else Ok;
  }

  /**
    `knapsack_solve_status`. Checks run in the order of the C code: null
    output, reset, input validation, then the steps of `SolveValidated`.
    Every failure after the reset leaves the result empty; success leaves
    the optimal solution.
   */
  method SolveStatus(items: Option<seq<Item>>, capacity: Int32, outResult: Option<KnapsackResult>,
                     alloc: Allocation)
    returns (status: Status, result: Option<KnapsackResult>)
    ensures status == NullResult <==> outResult.None?
    ensures result.Some? <==> outResult.Some?
    ensures outResult.Some? && !ValidInputs(items, capacity) ==> status == ValidateInputs(items, capacity)
    ensures status != Ok && result.Some? ==> result.value == Zeroed
    ensures status != DimensionOverflow
    ensures status == IntOverflow <==>
              && outResult.Some? && ValidInputs(items, capacity) && alloc.workspaceOk
              && BruteForceOptimal(items.value, capacity) > INT_MAX
    ensures status == Alloc <==>
              && outResult.Some? && ValidInputs(items, capacity)
              && (|| !alloc.workspaceOk
                  || (&& BruteForceOptimal(items.value, capacity) <= INT_MAX
                      && !alloc.indicesOk && BruteForceOptimal(items.value, capacity) > 0))
    ensures status == Ok <==>
              && outResult.Some? && ValidInputs(items, capacity) && alloc.workspaceOk
              && BruteForceOptimal(items.value, capacity) <= INT_MAX
              && (alloc.indicesOk || BruteForceOptimal(items.value, capacity) == 0)
    ensures status == Ok ==>
              && ValidInputs(items, capacity) && result.Some?
              && DpCell(items.value, |items.value|, capacity).value <= INT_MAX
              && result.value == Optimum(items.value, capacity)
              && IsOptimalSolution(items.value, capacity, result.value)
              && result.value.optimalValue == BruteForceOptimal(items.value, capacity)
  {
    if outResult.None? {
      return NullResult, None;
    }
    result := ResetResult(outResult);

    var inputStatus := ValidateInputs(items, capacity);
    if inputStatus != Ok {
      return inputStatus, result;
    }

    var solution;
    status, solution := SolveValidated(items.value, capacity, alloc);
    if status == Ok {
      result := solution;
    }
  }

  /** `knapsack_solve`: true exactly when `knapsack_solve_status` reports success. */
  method Solve(items: Option<seq<Item>>, capacity: Int32, outResult: Option<KnapsackResult>,
               alloc: Allocation)
    returns (ok: bool, result: Option<KnapsackResult>)
    ensures result.Some? <==> outResult.Some?
    ensures ok <==>
              && outResult.Some? && ValidInputs(items, capacity) && alloc.workspaceOk
              && BruteForceOptimal(items.value, capacity) <= INT_MAX
              && (alloc.indicesOk || BruteForceOptimal(items.value, capacity) == 0)
    ensures ok ==> DpCell(items.value, |items.value|, capacity).value <= INT_MAX
    ensures ok ==> result == Some(Optimum(items.value, capacity))
    ensures ok ==> IsOptimalSolution(items.value, capacity, result.value)
    ensures ok ==> result.value.optimalValue == BruteForceOptimal(items.value, capacity)
    ensures !ok && result.Some? ==> result.value == Zeroed
  {
    var status;
    status, result := SolveStatus(items, capacity, outResult, alloc);
    ok := status == Ok;
  }
}
