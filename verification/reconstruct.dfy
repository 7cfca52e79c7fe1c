/**
  The two steps after the DP: `select_best_cap` scans the final row, and
  `reconstruct_solution` walks the take matrix back from the chosen cell.
 */
module Reconstruct {
  import opened KnapsackTypes
  import opened Selections
  import opened Recurrence

  /**
    `select_best_cap`: an ascending scan that moves only to a strictly better
    cell, so it returns the first capacity holding a lexicographically best
    (maximum value, then minimum weight) cell of the row.
   */
  method SelectBestCap(row: seq<Cell>) returns (best: nat)
    requires |row| >= 1
    ensures best < |row|
    ensures forall c :: 0 <= c < |row| ==> !Better(row[c], row[best])
    ensures forall c :: 0 <= c < best ==> Better(row[best], row[c])
  {
    best := 0;
    var bestVal := row[0].value;
    var bestWeight := row[0].weight;
    var cap := 1;
    while cap < |row|
      invariant 1 <= cap <= |row|
      invariant best < cap
      invariant bestVal == row[best].value && bestWeight == row[best].weight
      invariant forall c :: 0 <= c < cap ==> !Better(row[c], row[best])
      invariant forall c :: 0 <= c < best ==> Better(row[best], row[c])
    {
      var val := row[cap].value;
      var weightAtCap := row[cap].weight;
      if val > bestVal || (val == bestVal && weightAtCap < bestWeight) {
        bestVal := val;
        bestWeight := weightAtCap;
        best := cap;
      }
      cap := cap + 1;
    }
  }

  /**
    The shape `reconstruct_solution` relies on: one row of `width` bits per
    item, and a bit set only where the item fits, so the capacity never
    drops below zero on the walk back.
   */
  predicate TakeFits(items: seq<Item>, take: seq<seq<bool>>, width: nat) {
    && |take| == |items|
    && (forall k :: 0 <= k < |take| ==> |take[k]| == width)
    && (forall k, c :: 0 <= k < |take| && 0 <= c < width && take[k][c] ==> 0 <= items[k].weight <= c)
  }

  /**
    The walk back over the matrix as given: from row `k` and capacity `c`,
    item k - 1 is selected when its bit is set, and the capacity drops by
    its weight.
   */
  function Walk(items: seq<Item>, take: seq<seq<bool>>, width: nat, k: nat, c: nat): seq<nat>
    requires TakeFits(items, take, width) && k <= |items| && c < width
    decreases k
  {
    if k == 0 then []
    else
      var j: nat := k - 1;
      if take[j][c] then Walk(items, take, width, j, c - items[j].weight) + [j]
      else Walk(items, take, width, j, c)
  }

  /** Over the matrix `run_dp` fills, the walk is the trace of the recurrence. */
  lemma {:induction false} WalkIsTrace(items: seq<Item>, take: seq<seq<bool>>, width: nat, k: nat, c: nat)
    requires ValidItems(items) && TakeMatches(items, take, width) && k <= |items| && c < width
    ensures TakeFits(items, take, width)
    ensures Walk(items, take, width, k, c) == Trace(items, k, c)
    decreases k
  {
    if k > 0 {
      TraceStep(items, k, c);
      if take[k - 1][c] {
        WalkIsTrace(items, take, width, k - 1, c - items[k - 1].weight);
      } else {
        WalkIsTrace(items, take, width, k - 1, c);
      }
    }
  }

  /** The first walk of `reconstruct_solution`: how many items the walk back selects. */
  method CountSelected(items: seq<Item>, width: nat, take: seq<seq<bool>>, bestCap: nat)
    returns (selected: nat)
    requires TakeFits(items, take, width) && bestCap < width
    ensures selected == |Walk(items, take, width, |items|, bestCap)|
  {
    var n := |items|;
    ghost var picked := Walk(items, take, width, n, bestCap);
    var cap: nat := bestCap;
    selected := 0;
    var i := n;
    ghost var suffix: seq<nat> := [];
    while i > 0
      invariant 0 <= i <= n && cap <= bestCap
      invariant Walk(items, take, width, i, cap) + suffix == picked
      invariant selected == |suffix|
    {
      i := i - 1;
      if take[i][cap] {
        assert Walk(items, take, width, i + 1, cap) + suffix
            == Walk(items, take, width, i, cap - items[i].weight) + ([i] + suffix);
        selected := selected + 1;
        cap := cap - items[i].weight;
        suffix := [i] + suffix;
      }
    }
  }

  /**
    The second walk of `reconstruct_solution`: the same walk, writing each
    selected index into a buffer of `selected` slots from the end.
   */
  method WriteIndices(items: seq<Item>, width: nat, take: seq<seq<bool>>, bestCap: nat, selected: nat)
    returns (indices: seq<nat>)
    requires TakeFits(items, take, width) && bestCap < width
    requires selected == |Walk(items, take, width, |items|, bestCap)|
    ensures indices == Walk(items, take, width, |items|, bestCap)
  {
    var n := |items|;
    ghost var picked := Walk(items, take, width, n, bestCap);
    var buffer := new nat[selected];
    var write := selected;
    var cap: nat := bestCap;
    var i := n;
    ghost var suffix: seq<nat> := [];
    while i > 0
      invariant 0 <= i <= n && cap <= bestCap
      invariant Walk(items, take, width, i, cap) + suffix == picked
      invariant write == |Walk(items, take, width, i, cap)| <= selected
      invariant buffer[write..] == suffix
    {
      i := i - 1;
      if take[i][cap] {
        assert Walk(items, take, width, i + 1, cap) + suffix
            == Walk(items, take, width, i, cap - items[i].weight) + ([i] + suffix);
        write := write - 1;
        buffer[write] := i;
        assert buffer[write + 1..] == suffix;
        assert buffer[write..] == [i] + suffix;
        cap := cap - items[i].weight;
        suffix := [i] + suffix;
      }
    }
    assert buffer[..] == buffer[write..];
    indices := buffer[..];
  }

  /** `t` is in non-decreasing order: what `qsort` with `compare_size_t` produces. */
  predicate Ascending(t: seq<nat>) {
    forall j, l :: 0 <= j < l < |t| ==> t[j] <= t[l]
  }

  /**
    Sorting a selection leaves it unchanged: the only ascending permutation
    of a strictly ascending sequence is the sequence itself.
   */
  lemma {:induction false} SortedPermutationIsIdentity(s: seq<nat>, t: seq<nat>, n: int)
    requires IsSelection(s, n) && Ascending(t) && multiset(t) == multiset(s)
    ensures t == s
    decreases |s|
  {
    assert |t| == |multiset(t)| == |multiset(s)| == |s|;
    if |s| > 0 {
      SameHead(s, t, n);
      SameTail(s, t);
      SortedPermutationIsIdentity(s[1..], t[1..], n);
      assert s == [s[0]] + s[1..] && t == [t[0]] + t[1..];
    }
  }

  /** Both sequences start with the least element of their common multiset. */
  lemma SameHead(s: seq<nat>, t: seq<nat>, n: int)
    requires IsSelection(s, n) && Ascending(t) && multiset(t) == multiset(s)
    requires |s| > 0 && |t| > 0
    ensures t[0] == s[0] && IsSelection(s[1..], n) && Ascending(t[1..])
  {
    assert t[0] in multiset(s);
    var j :| 0 <= j < |s| && s[j] == t[0];
    assert s[0] in multiset(t);
    var l :| 0 <= l < |t| && t[l] == s[0];
    assert s[0] <= s[j] && t[0] <= t[l];
  }

  /** Dropping an equal head from two permutations of each other leaves permutations. */
  lemma SameTail(s: seq<nat>, t: seq<nat>)
    requires |s| > 0 && |t| > 0 && t[0] == s[0] && multiset(t) == multiset(s)
    ensures multiset(t[1..]) == multiset(s[1..])
  {
    assert s == [s[0]] + s[1..] && t == [t[0]] + t[1..];
    assert multiset(s) == multiset([s[0]]) + multiset(s[1..]);
    assert multiset(t) == multiset([s[0]]) + multiset(t[1..]);
    forall x: nat
      ensures multiset(t[1..])[x] == multiset(s[1..])[x]
    {
      assert multiset(t)[x] == multiset([s[0]])[x] + multiset(t[1..])[x];
      assert multiset(s)[x] == multiset([s[0]])[x] + multiset(s[1..])[x];
    }
  }

  /** The `qsort` of `reconstruct_solution` is a no-op on the indices the walk back writes. */
  lemma QsortIsNoOp(items: seq<Item>, k: nat, c: int, t: seq<nat>)
    requires ValidItems(items) && k <= |items| && c >= 0
    requires Ascending(t) && multiset(t) == multiset(Trace(items, k, c))
    ensures t == Trace(items, k, c)
  {
    TraceSound(items, k, c);
    SortedPermutationIsIdentity(Trace(items, k, c), t, k);
  }

  /**
    `reconstruct_solution`: a first walk from item n - 1 down to 0 counts the
    items whose take bit is set at the current capacity, lowering the
    capacity by each one's weight; a second identical walk writes their
    indices into a buffer of that size from the end. The indices come out
    already ascending, so the final sort leaves them unchanged. Nothing is
    allocated for an empty selection; a failed allocation of the buffer
    yields `None`.
   */
  method ReconstructSolution(items: seq<Item>, width: nat, take: seq<seq<bool>>, row: seq<Cell>,
                             bestCap: nat, indicesAllocOk: bool)
    returns (result: Option<KnapsackResult>)
    requires ValidItems(items) && TakeMatches(items, take, width)
    requires |row| == width && forall c :: 0 <= c < width ==> row[c] == DpCell(items, |items|, c)
    requires bestCap < width && row[bestCap].value <= INT_MAX
    ensures result.None? <==> !indicesAllocOk && |Trace(items, |items|, bestCap)| > 0
    ensures result.Some? ==> result.value.selectedIndices == Trace(items, |items|, bestCap)
    ensures result.Some? ==>
              var r := result.value;
              && r.optimalValue == row[bestCap].value
              && r.selectedCount == |r.selectedIndices|
              && IsSelection(r.selectedIndices, |items|)
              && Weight(items, r.selectedIndices) == row[bestCap].weight <= bestCap
              && Value(items, r.selectedIndices) == r.optimalValue
  {
    WalkIsTrace(items, take, width, |items|, bestCap);
    TraceSound(items, |items|, bestCap);
    var selected := CountSelected(items, width, take, bestCap);
    if selected == 0 {
      return Some(KnapsackResult(row[bestCap].value, 0, []));
    }
    if !indicesAllocOk {
      return None;
    }
    var indices := WriteIndices(items, width, take, bestCap, selected);
    result := Some(KnapsackResult(row[bestCap].value, selected, indices));
  }
}
