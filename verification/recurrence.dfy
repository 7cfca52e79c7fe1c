/**
  The mathematics behind `run_dp`, `select_best_cap` and
  `reconstruct_solution`: the row recurrence with its lexicographic
  tie-break, the take bits it records, the walk back through them, and the
  facts that make the solver exact.
 */
module Recurrence {
  import opened KnapsackTypes
  import opened Selections
  import opened BruteForce

  /**
    Cell `c` of the DP row reached after items[..k]: the best (value, weight)
    pair over subsets of items[..k] weighing at most `c`. Row 0 is the zeroed
    workspace; row k keeps the cell of row k - 1 unless taking item k - 1 on
    top of the cell at `c - weight` strictly beats it.
   */
  function DpCell(items: seq<Item>, k: nat, c: int): (r: Cell)
    requires ValidItems(items) && k <= |items| && c >= 0
    ensures 0 <= r.weight <= c && r.value >= 0
    decreases k
  {
    if k == 0 then Cell(0, 0)
    else
      var keep := DpCell(items, k - 1, c);
      if items[k - 1].weight <= c then
        var cand := Plus(DpCell(items, k - 1, c - items[k - 1].weight), items[k - 1]);
        if Better(cand, keep) then cand else keep
      else keep
  }

  /** `take[k][c]`: the cell of row k + 1 at `c` came from taking item k. */
  predicate TakeBit(items: seq<Item>, k: nat, c: int)
    requires ValidItems(items) && k < |items| && c >= 0
  {
    && items[k].weight <= c
    && Better(Plus(DpCell(items, k, c - items[k].weight), items[k]), DpCell(items, k, c))
  }

  /** Row k + 1 is row k with the cells whose take bit is set replaced by the candidate. */
  lemma RowStep(items: seq<Item>, k: nat, c: int)
    requires ValidItems(items) && k < |items| && c >= 0
    ensures DpCell(items, k + 1, c) ==
              if TakeBit(items, k, c) then Plus(DpCell(items, k, c - items[k].weight), items[k])
              else DpCell(items, k, c)
  {
  }

  /** The whole take matrix, `|items|` rows of `width` bits. */
  predicate TakeMatches(items: seq<Item>, take: seq<seq<bool>>, width: int)
    requires ValidItems(items)
  {
    && |take| == |items|
    && (forall k :: 0 <= k < |take| ==> |take[k]| == width)
    && (forall k, c :: 0 <= k < |take| && 0 <= c < width ==> take[k][c] == TakeBit(items, k, c))
  }

  /**
    The walk back from cell `c` of row `k`: an item is selected exactly when
    its take bit is set at the current capacity, which then drops by its
    weight.
   */
  function Trace(items: seq<Item>, k: nat, c: int): seq<nat>
    requires ValidItems(items) && k <= |items| && c >= 0
    decreases k
  {
    if k == 0 then []
    else
      var j: nat := k - 1;
      if TakeBit(items, j, c) then Trace(items, j, c - items[j].weight) + [j]
      else Trace(items, j, c)
  }

  /** The walk back yields a selection of items[..k] whose totals are exactly the cell it starts from. */
  lemma {:induction false} TraceSound(items: seq<Item>, k: nat, c: int)
    requires ValidItems(items) && k <= |items| && c >= 0
    ensures IsSelection(Trace(items, k, c), k)
    ensures Totals(items, Trace(items, k, c)) == DpCell(items, k, c)
    decreases k
  {
    if k > 0 {
      if TakeBit(items, k - 1, c) {
        TraceSound(items, k - 1, c - items[k - 1].weight);
        TakenStepSound(items, k, c);
      } else {
        TraceSound(items, k - 1, c);
        SkippedStepSound(items, k, c);
      }
    }
  }

  /** A step of the walk that selects item k - 1 keeps the walk sound. */
  lemma TakenStepSound(items: seq<Item>, k: nat, c: int)
    requires ValidItems(items) && 0 < k <= |items| && c >= 0 && TakeBit(items, k - 1, c)
    requires IsSelection(Trace(items, k - 1, c - items[k - 1].weight), k - 1)
    requires Totals(items, Trace(items, k - 1, c - items[k - 1].weight)) == DpCell(items, k - 1, c - items[k - 1].weight)
    ensures IsSelection(Trace(items, k, c), k)
    ensures Totals(items, Trace(items, k, c)) == DpCell(items, k, c)
  {
    var j: nat := k - 1;
    var rest := Trace(items, j, c - items[j].weight);
    assert Trace(items, k, c) == rest + [j];
    TakenCell(items, j, c, rest);
  }

  /** Appending item `j` to a selection holding its candidate's base cell yields the cell it wins. */
  lemma TakenCell(items: seq<Item>, j: nat, c: int, rest: seq<nat>)
    requires ValidItems(items) && j < |items| && c >= 0 && TakeBit(items, j, c)
    requires IsSelection(rest, j) && Totals(items, rest) == DpCell(items, j, c - items[j].weight)
    ensures IsSelection(rest + [j], j + 1)
    ensures Totals(items, rest + [j]) == DpCell(items, j + 1, c)
  {
    AppendSelection(items, rest, j);
    RowStep(items, j, c);
  }

  /** A step of the walk that passes over item k - 1 keeps the walk sound. */
  lemma SkippedStepSound(items: seq<Item>, k: nat, c: int)
    requires ValidItems(items) && 0 < k <= |items| && c >= 0 && !TakeBit(items, k - 1, c)
    requires IsSelection(Trace(items, k - 1, c), k - 1)
    requires Totals(items, Trace(items, k - 1, c)) == DpCell(items, k - 1, c)
    ensures IsSelection(Trace(items, k, c), k)
    ensures Totals(items, Trace(items, k, c)) == DpCell(items, k, c)
  {
    assert Trace(items, k, c) == Trace(items, k - 1, c);
    RowStep(items, k - 1, c);
    WidenSelection(Trace(items, k - 1, c), k - 1, k);
  }

  /** One step of the walk back, as `reconstruct_solution` takes it from item k - 1. */
  lemma TraceStep(items: seq<Item>, k: nat, c: int)
    requires ValidItems(items) && 0 < k <= |items| && c >= 0
    ensures TakeBit(items, k - 1, c) ==> items[k - 1].weight <= c
    ensures Trace(items, k, c) ==
              if TakeBit(items, k - 1, c) then Trace(items, k - 1, c - items[k - 1].weight) + [k - 1]
              else Trace(items, k - 1, c)
  {
  }

  /**
    No subset of items[..k] weighing at most `c` beats cell `c` of row k:
    together with `Trace` this makes the cell the lexicographically best
    (maximum value, then minimum weight) pair over those subsets.
   */
  lemma {:induction false} DpCellDominates(items: seq<Item>, k: nat, c: int, s: seq<nat>)
    requires ValidItems(items) && k <= |items| && c >= 0
    requires IsSelection(s, k) && Weight(items, s) <= c
    ensures !Better(Totals(items, s), DpCell(items, k, c))
    decreases k
  {
    if k == 0 {
      assert |s| == 0;
    } else if |s| > 0 && s[|s| - 1] == k - 1 {
      var p := s[..|s| - 1];
      DropLast(items, s, k);
      TotalsNonNegative(items, p);
      DpCellDominates(items, k - 1, c - items[k - 1].weight, p);
    } else {
      ShrinkBound(s, k);
      DpCellDominates(items, k - 1, c, s);
    }
  }

  /** Cells grow (lexicographically) with the capacity and with the item prefix. */
  lemma {:induction false} DpCellMonotone(items: seq<Item>, k: nat, c: int, k': nat, c': int)
    requires ValidItems(items) && k <= k' <= |items| && 0 <= c <= c'
    ensures !Better(DpCell(items, k, c), DpCell(items, k', c'))
  {
    var s := Trace(items, k, c);
    TraceSound(items, k, c);
    WidenSelection(s, k, k');
    DpCellDominates(items, k', c', s);
  }

  /**
    The best cell of the last row is reached first at the capacity equal to
    its own weight: below that every cell is strictly worse.
   */
  lemma OptimalWeightCell(items: seq<Item>, capacity: int)
    requires ValidItems(items) && capacity >= 0
    ensures var best := DpCell(items, |items|, capacity);
      && DpCell(items, |items|, best.weight) == best
      && forall c :: 0 <= c < best.weight ==> Better(best, DpCell(items, |items|, c))
  {
    var n := |items|;
    var best := DpCell(items, n, capacity);
    var s := Trace(items, n, capacity);
    TraceSound(items, n, capacity);
    DpCellDominates(items, n, best.weight, s);
    DpCellMonotone(items, n, best.weight, n, capacity);
    BetterIsTotal(DpCell(items, n, best.weight), best);
    forall c | 0 <= c < best.weight
      ensures Better(best, DpCell(items, n, c))
    {
      DpCellMonotone(items, n, c, n, capacity);
      BetterIsTotal(DpCell(items, n, c), best);
    }
  }

  /**
    A capacity that holds a lexicographically best cell of the last row, and
    is the first to do so, is the weight of the optimal subset.
   */
  lemma SelectedCapIsOptimalWeight(items: seq<Item>, capacity: int, best: int)
    requires ValidItems(items) && 0 <= best <= capacity
    requires forall c :: 0 <= c <= capacity ==> !Better(DpCell(items, |items|, c), DpCell(items, |items|, best))
    requires forall c :: 0 <= c < best ==> Better(DpCell(items, |items|, best), DpCell(items, |items|, c))
    ensures best == DpCell(items, |items|, capacity).weight
    ensures DpCell(items, |items|, best) == DpCell(items, |items|, capacity)
  {
    var n := |items|;
    var top := DpCell(items, n, capacity);
    OptimalWeightCell(items, capacity);
    DpCellMonotone(items, n, best, n, capacity);
    assert !Better(top, DpCell(items, n, best));
    BetterIsTotal(DpCell(items, n, best), top);
    assert DpCell(items, n, top.weight) == top;
  }

  /** The candidate `prev[c - weight] + value` of item k at capacity `c` leaves the int range. */
  predicate CandidateOverflows(items: seq<Item>, k: nat, c: int)
    requires ValidItems(items) && k < |items| && c >= 0
  {
    items[k].weight <= c && !InInt32(DpCell(items, k, c - items[k].weight).value + items[k].value)
  }

  /** No candidate the DP forms on rows of `width` cells overflows. */
  predicate NoOverflow(items: seq<Item>, width: int)
    requires ValidItems(items)
  {
    forall k, c :: 0 <= k < |items| && 0 <= c < width ==> !CandidateOverflows(items, k, c)
  }

  /** An overflowing candidate is at most the optimum, which then does not fit an int either. */
  lemma OverflowBoundsOptimum(items: seq<Item>, width: int, k: nat, c: int)
    requires ValidItems(items) && k < |items| && 0 <= c < width
    requires CandidateOverflows(items, k, c)
    ensures DpCell(items, |items|, width - 1).value > INT_MAX
  {
    var prev := DpCell(items, k, c - items[k].weight);
    var cand := Plus(prev, items[k]);
    assert cand.value > INT_MAX;
    RowStep(items, k, c);
    assert DpCell(items, k + 1, c).value >= cand.value;
    DpCellMonotone(items, k + 1, c, |items|, width - 1);
  }

  /** An optimum beyond the int range is formed as a candidate of the item its subset ends with. */
  lemma OptimumOverflowIsCandidate(items: seq<Item>, width: int) returns (k: nat, c: int)
    requires ValidItems(items) && width >= 1
    requires DpCell(items, |items|, width - 1).value > INT_MAX
    ensures k < |items| && 0 <= c < width && CandidateOverflows(items, k, c)
  {
    var n := |items|;
    var s := Trace(items, n, width - 1);
    TraceSound(items, n, width - 1);
    assert |s| > 0;
    k := s[|s| - 1];
    c := width - 1;
    var p := s[..|s| - 1];
    DropLast(items, s, n);
    TotalsNonNegative(items, p);
    DpCellDominates(items, k, c - items[k].weight, p);
    assert Value(items, p) + items[k].value > INT_MAX;
  }

  /**
    Some candidate overflows exactly when the true optimum does not fit an
    int: the abort fires even on a candidate that would not win, but such a
    candidate never exceeds the optimum, so nothing is lost by aborting.
   */
  lemma NoOverflowIffOptimumFits(items: seq<Item>, width: int)
    requires ValidItems(items) && width >= 1
    ensures NoOverflow(items, width) <==> DpCell(items, |items|, width - 1).value <= INT_MAX
  {
    if !NoOverflow(items, width) {
      var k, c :| 0 <= k < |items| && 0 <= c < width && CandidateOverflows(items, k, c);
      OverflowBoundsOptimum(items, width, k, c);
    }
    if DpCell(items, |items|, width - 1).value > INT_MAX {
      var k, c := OptimumOverflowIsCandidate(items, width);
    }
  }

  /** The DP optimum is the exhaustive reference `brute_force_optimal`. */
  lemma BruteForceMatchesDp(items: seq<Item>, capacity: int)
    requires ValidItems(items) && capacity >= 0
    ensures BruteForceOptimal(items, capacity) == DpCell(items, |items|, capacity).value
  {
    var s := BruteForceAttained(items, capacity);
    DpCellDominates(items, |items|, capacity, s);
    TraceSound(items, |items|, capacity);
    BruteForceBound(items, capacity, Trace(items, |items|, capacity));
  }

  /**
    What a successful solve promises: ascending distinct indices below the
    item count, total weight within the capacity, total value equal to the
    reported optimum, and no subset within the capacity that beats it
    lexicographically (more value, or as much value and less weight).
   */
  ghost predicate IsOptimalSolution(items: seq<Item>, capacity: int, res: KnapsackResult) {
    && IsSelection(res.selectedIndices, |items|)
    && res.selectedCount == |res.selectedIndices|
    && Weight(items, res.selectedIndices) <= capacity
    && Value(items, res.selectedIndices) == res.optimalValue
    && forall s :: IsSelection(s, |items|) && Weight(items, s) <= capacity ==>
         !Better(Totals(items, s), Totals(items, res.selectedIndices))
  }

  /**
    The result the solver builds: the value of the best last-row cell and the
    walk back from the capacity `select_best_cap` picks, which is that cell's
    weight.
   */
  function Optimum(items: seq<Item>, capacity: int): (r: KnapsackResult)
    requires ValidItems(items) && capacity >= 0
    requires DpCell(items, |items|, capacity).value <= INT_MAX
  {
    var best := DpCell(items, |items|, capacity);
    var picked := Trace(items, |items|, best.weight);
    KnapsackResult(best.value, |picked|, picked)
  }

  lemma OptimumIsOptimal(items: seq<Item>, capacity: int)
    requires ValidItems(items) && capacity >= 0
    requires DpCell(items, |items|, capacity).value <= INT_MAX
    ensures IsOptimalSolution(items, capacity, Optimum(items, capacity))
    ensures Optimum(items, capacity).optimalValue == BruteForceOptimal(items, capacity)
  {
    var n := |items|;
    var best := DpCell(items, n, capacity);
    OptimalWeightCell(items, capacity);
    var picked := Trace(items, n, best.weight);
    TraceSound(items, n, best.weight);
    assert Totals(items, picked) == best;
    forall s | IsSelection(s, n) && Weight(items, s) <= capacity
      ensures !Better(Totals(items, s), Totals(items, picked))
    {
      DpCellDominates(items, n, capacity, s);
    }
    BruteForceMatchesDp(items, capacity);
  }

  /**
    The optimal selection is non-empty exactly when the optimum is positive:
    with every weight positive, a value-0 optimum is beaten on weight by the
    empty subset unless it is the empty subset itself.
   */
  lemma OptimumSelectsIffPositive(items: seq<Item>, capacity: int)
    requires ValidItems(items) && capacity >= 0
    requires DpCell(items, |items|, capacity).value <= INT_MAX
    ensures Optimum(items, capacity).selectedCount > 0 <==> BruteForceOptimal(items, capacity) > 0
  {
    var n := |items|;
    var best := DpCell(items, n, capacity);
    OptimalWeightCell(items, capacity);
    var picked := Trace(items, n, best.weight);
    TraceSound(items, n, best.weight);
    TotalsNonNegative(items, picked);
    var none: seq<nat> := [];
    assert Totals(items, none) == Cell(0, 0);
    DpCellDominates(items, n, capacity, none);
    BruteForceMatchesDp(items, capacity);
  }
}
