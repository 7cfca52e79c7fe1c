# 0/1 knapsack solver — a Dafny model

This project models the C library `knapsack`, an exact solver for the 0/1
knapsack problem. It covers the solver entry points `knapsack_solve_status`
and `knapsack_solve`, the result life cycle (`reset_result`,
`knapsack_result_free`), input validation, and the overflow-checked
addition. It also covers the dimension guard and the dynamic programme
(`copy_row`, `run_dp`), the choice of the best capacity (`select_best_cap`)
and the walk back (`reconstruct_solution`). The exhaustive reference
`brute_force_optimal` of the unit tests is modelled as well, and so is each
unit-test scenario except the 32-bit-only capacity-overflow test. The
zero-weight and negative-value tests are stated as the rejections the code
performs (see "## Left out").

The model is written in Dafny as immutable data and pure functions:

- `types.dfy` (`KnapsackTypes`) holds the ranges of C `int` and 64-bit
  `size_t` as subset types. It also holds the item and result records, the
  status codes, and the allocator's outcome.
  - A null pointer is `None`.
  - A null index buffer is the empty sequence.
- `selections.dfy` (`Selections`) defines a subset of the items as a
  strictly ascending index sequence, with its total weight and value. It
  also defines the lexicographic order the solver compares cells by: more
  value wins, and on equal value less weight wins.
- `validation.dfy` (`Validation`) holds `validate_inputs`,
  `add_int_no_overflow` and the dimension guard, with `size_t` wrap-around
  written out.
- `brute_force.dfy` (`BruteForce`) holds `brute_force_optimal`: the best
  value over all 2^n subsets that fit, or INT_MIN when none fits.
- `recurrence.dfy` (`Recurrence`) holds the following:
  - the recurrence the DP rows follow (`DpCell`) and the take bits it
    records (`TakeBit`);
  - the walk back through those bits (`Trace`);
  - the facts that make the solver exact: a cell is attained by a subset,
    and no subset within the capacity beats it;
  - monotonicity, and the fact that the best capacity is the optimum's
    weight;
  - the characterisation of the overflow abort;
  - agreement with the brute force.
- `dp.dfy` (`Dp`) holds `copy_row`, one relaxation pass per item, and
  `run_dp` over two value/weight rows and the take matrix.
- `reconstruct.dfy` (`Reconstruct`) holds `select_best_cap`, the two walks
  of `reconstruct_solution` over the take matrix, and the proof that the
  final `qsort` leaves the indices unchanged.
- `solver.dfy` (`Solver`) holds `knapsack_solve_status`, `knapsack_solve`,
  `reset_result` and `knapsack_result_free`.
- `scenarios.dfy` (`Scenarios`) states each unit-test scenario on the
  model.

The main results, proved for all inputs:

- **Exactness.** On success, the result lists ascending distinct indices.
  Their total weight fits the capacity and their total value is the
  reported optimum. No subset within the capacity has more value, or equal
  value and less weight. The reported value equals `brute_force_optimal`
  (`Solver.SolveStatus`, `Recurrence.OptimumIsOptimal`).
- **Overflow.** `run_dp` aborts on the first candidate sum outside the
  `int` range, even one that would not win. The abort happens exactly when
  the true optimum exceeds INT_MAX, so no representable optimum is ever
  refused (`Recurrence.NoOverflowIffOptimumFits`).
- **Best capacity.** `select_best_cap` returns exactly the total weight of
  the optimal subset (`Recurrence.SelectedCapIsOptimalWeight`).
- **Statuses.** Each status code is returned exactly under a stated
  condition. The dimension guard can never fire once the inputs are valid.
  Every failure after the null check leaves the result zeroed.

## Model

| member | source | states |
|---|---|---|
| Validation.ItemsValidFrom | src/knapsack.c:33-37 | the item scan succeeds exactly when every item from index i on has weight > 0 and value >= 0 |
| Validation.ValidateInputs | src/knapsack.c:22-39 | the first failing check decides: null or empty items give InvalidItems, more than 100 items give TooManyItems, a capacity outside 0..100000 gives InvalidCapacity, a bad item gives InvalidItems; Ok exactly for valid inputs; each status is characterised in both directions |
| Validation.AddIntNoOverflow | src/knapsack.c:41-48 | the sum is returned exactly when the mathematical sum lies in the int range, and is then that sum |
| Validation.DimensionGuard | src/knapsack.c:246-253 | the guard passes exactly when 0 < width * count <= SIZE_MAX, with width the wrapped (size_t)capacity + 1; the take size is then the exact product |
| Validation.DimensionGuardPassesForValidInputs | src/knapsack.c:246-253 | for validated inputs the guard passes with width = capacity + 1 and take size (capacity + 1) * count |
| BruteForce.BruteForceBound | tests/knapsack_test.cpp:177-195 | every subset within the capacity is worth at most `BruteForceOptimal`, the model of brute_force_optimal |
| BruteForce.BruteForceAttained | tests/knapsack_test.cpp:177-195 | with capacity >= 0, `BruteForceOptimal` (brute_force_optimal) is non-negative and is the value of some subset within the capacity |
| BruteForce.ExtensionBound | tests/knapsack_test.cpp:181-193 | every fitting subset that extends a fixed choice of the first i items is worth at most the best extension |
| BruteForce.ExtensionAttained | tests/knapsack_test.cpp:181-193 | a best extension above INT_MIN is the value of some fitting subset extending the fixed choice |
| Recurrence.DpCell | src/knapsack.c:112-135 | a DP cell at capacity c weighs between 0 and c and has a non-negative value |
| Recurrence.TraceSound | src/knapsack.c:179-185 | the walk back from cell c of row k selects a subset of the first k items whose totals are exactly that cell |
| Recurrence.DpCellDominates | src/knapsack.c:129-134 | no subset of the first k items weighing at most c beats cell c of row k lexicographically |
| Recurrence.DpCellMonotone | src/knapsack.c:112-135 | cells never get lexicographically worse as the capacity or the number of items grows |
| Recurrence.OptimalWeightCell | src/knapsack.c:149-164 | the best last-row cell reappears at the capacity equal to its own weight, and every smaller capacity holds a strictly worse cell |
| Recurrence.SelectedCapIsOptimalWeight | src/knapsack.c:149-164 | the first capacity holding a best last-row cell is the weight of the optimal subset, and holds the same cell as the full capacity |
| Recurrence.OverflowBoundsOptimum | src/knapsack.c:119-123 | an overflowing candidate implies that the optimum itself exceeds INT_MAX |
| Recurrence.OptimumOverflowIsCandidate | src/knapsack.c:119-123 | an optimum above INT_MAX is met as an overflowing candidate, at the last item of the optimal subset |
| Recurrence.NoOverflowIffOptimumFits | src/knapsack.c:266-270 | the DP aborts with IntOverflow exactly when the optimum exceeds INT_MAX |
| Recurrence.BruteForceMatchesDp | tests/knapsack_test.cpp:214-218 | the DP optimum equals brute_force_optimal for every valid instance |
| Recurrence.OptimumIsOptimal | include/knapsack/knapsack.h:24-41 | the result the solver builds is an optimal solution: ascending distinct indices, fits the capacity, value equals the optimum, no subset beats it; its value is the brute-force optimum |
| Recurrence.OptimumSelectsIffPositive | src/knapsack.c:187-195 | the optimal selection is non-empty (so reconstruction needs an index buffer) exactly when the brute-force optimum is positive |
| Dp.CopyRow | src/knapsack.c:101-107 | the destination rows equal the source rows |
| Dp.RelaxItem | src/knapsack.c:116-135 | the pass succeeds exactly when no candidate of item i overflows; on success the rows become row i + 1 of the recurrence and the bits become item i's take bits |
| Dp.RunDp | src/knapsack.c:109-147 | succeeds exactly when no candidate overflows; the last row is row n of the recurrence, each cell fits an int and weighs at most its capacity, and the take matrix holds every take bit |
| Reconstruct.SelectBestCap | src/knapsack.c:149-164 | returns a capacity whose cell no other cell beats, and every smaller capacity holds a strictly worse cell |
| Reconstruct.WalkIsTrace | src/knapsack.c:199-205 | over the matrix run_dp fills, the walk back never drives the capacity below zero and selects exactly the recurrence's trace |
| Reconstruct.CountSelected | src/knapsack.c:176-185 | the first walk counts exactly the items the walk back selects |
| Reconstruct.WriteIndices | src/knapsack.c:197-205 | the second walk, writing from the end of a buffer of the counted size, yields exactly the walk-back indices |
| Reconstruct.SortedPermutationIsIdentity | src/knapsack.c:166-170 | the only ascending rearrangement of a strictly ascending index list is that list |
| Reconstruct.QsortIsNoOp | src/knapsack.c:207 | sorting the written indices with compare_size_t leaves them unchanged |
| Reconstruct.ReconstructSolution | src/knapsack.c:173-213 | fails only when the index buffer cannot be allocated for a non-empty selection; otherwise reports the chosen cell's value and a selection that fits, whose value is that cell's, whose count is its length, and which is the walk back from the chosen capacity |
| Solver.ResetResult | src/knapsack.c:12-19 | a present result becomes empty; a null one stays null |
| Solver.ResultFree | src/knapsack.c:216-224 | a present result becomes empty; a null one stays null |
| Solver.FreeAfterReset | include/knapsack/knapsack.h:43-44 | freeing is idempotent and is safe on an empty result: freeing a reset result changes nothing |
| Solver.SolveStatus | src/knapsack.c:234-285 | NullResult exactly for a null output. Validation errors as validate_inputs reports them. Never DimensionOverflow. IntOverflow exactly when the brute-force optimum exceeds INT_MAX. Alloc exactly on a workspace failure, or an index-buffer failure when the brute-force optimum fits INT_MAX and is positive. Otherwise Ok with the optimal solution. Every failure leaves the result zeroed |
| Solver.SolveValidated | src/knapsack.c:246-285 | for valid inputs: never DimensionOverflow or NullResult; IntOverflow exactly when the brute-force optimum exceeds INT_MAX; Alloc exactly on a workspace failure or an index-buffer failure with a positive optimum; otherwise Ok with the optimal solution |
| Solver.Solve | src/knapsack.c:227-231 | the result stays null exactly when the output is null (tests/knapsack_test.cpp:53-56); true exactly when the output is present, the inputs are valid, the workspace allocates, the brute-force optimum fits INT_MAX, and either the index buffer allocates or the optimum is 0; then the result is the optimal solution and its value is the brute-force optimum; on false a present result is zeroed |
| Scenarios.ComputesOptimalValueAndSelection | tests/knapsack_test.cpp:13-28 | five items, capacity 20: optimum 29 from items 0, 2, 3, 4 |
| Scenarios.PicksBestCombinationNotGreedy | tests/knapsack_test.cpp:163-175 | four items, capacity 9: optimum 17 from items 2, 3 |
| Scenarios.SingleItemExactFit | tests/knapsack_test.cpp:69-79 | one item of weight 5, capacity 5: optimum 9 from item 0 |
| Scenarios.HandlesLargeCapacityWithSmallItemSet | tests/knapsack_test.cpp:103-118 | two items, capacity 100000: optimum 25 from items 0, 1 |
| Scenarios.NothingWorthTaking | tests/knapsack_test.cpp:81-101 | when every item is too heavy or worth 0, every cell is empty and the walk back selects nothing |
| Scenarios.HandlesZeroCapacity | tests/knapsack_test.cpp:42-51 | capacity 0 gives optimum 0 with nothing selected, for any valid items |
| Scenarios.HandlesAllItemsTooHeavy | tests/knapsack_test.cpp:81-90 | items all heavier than the capacity give optimum 0 with nothing selected |
| Scenarios.AllZeroValuesChoosesNothing | tests/knapsack_test.cpp:92-101 | items all worth 0 give optimum 0 with nothing selected, by the weight tie-break |
| Scenarios.RejectsValueOverflow | tests/knapsack_test.cpp:133-138 | items worth INT_MAX and 1, capacity 2: the optimum is INT_MAX + 1 and the DP meets an overflowing candidate |
| Scenarios.RejectsNegativeCapacityAndWeight | tests/knapsack_test.cpp:30-40 | a negative capacity gives InvalidCapacity and a negative weight gives InvalidItems |
| Scenarios.RejectsMissingItems | tests/knapsack_test.cpp:58-67 | null items and an empty item list give InvalidItems |
| Scenarios.RejectsNegativeValuesAndZeroWeights | tests/knapsack_test.cpp:140-161 | the validator rejects the negative-value and the zero-weight instances with InvalidItems |

## Left out

- Memory: `calloc`/`malloc`/`free`, `allocate_workspace` and `free_workspace` are not modelled. Whether each allocation succeeds is an input, an `Allocation` with two flags. Rows are sequences, and the row swap after each item is the new row replacing the old one.
- The flat take buffer, indexed `i * width + cap`, is modelled as a sequence of rows. Its size product is covered by the dimension guard.
- `size_t` is taken to be 64 bits. The 32-bit-only capacity-overflow test (tests/knapsack_test.cpp:120-131) is therefore not modelled. The guard itself is modelled with wrap-around for any capacity.
- src/knapsack.c uses the status enumeration `knapsack_status_t` and the function `knapsack_solve_status`, but include/knapsack/knapsack.h declares neither. The `Status` names follow their use in src/knapsack.c.
- src/main.c, the command-line front end, is not modelled: it does file and console I/O.
- tests/knapsack_integration_test.cpp is not modelled: it drives that front end.
- BruteForce.BruteForceOptimal sums with unbounded integers, while the test's C `int` accumulators could overflow. Items of the fuzz ranges cannot reach that.
- The brute force's bit-mask enumeration is modelled as the equivalent include/exclude recursion over the items.
- The fuzz test's random generator is not modelled. Its property, optimum equal to the brute force and selected weight within the capacity, is proved for all valid inputs instead.
- The unit tests at tests/knapsack_test.cpp:140-161 and the fuzz ranges (weight 0, negative values) expect success. The header comment says weights need only be non-negative. The validator in src/knapsack.c:33-37, however, rejects weight <= 0 and value < 0. The model follows the code. `Scenarios.RejectsNegativeValuesAndZeroWeights` states what the code does on those inputs.
- The final `qsort` is not performed inside `Reconstruct.ReconstructSolution`. `Reconstruct.QsortIsNoOp` proves that any ascending permutation of the written indices equals them.
