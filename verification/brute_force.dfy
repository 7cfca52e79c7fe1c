/**
  The exhaustive reference of the unit tests (`brute_force_optimal`): the best
  total value over every subset of the items whose total weight is within
  the capacity, INT_MIN when no subset fits.
 */
module BruteForce {
  import opened KnapsackTypes
  import opened Selections

  function Max(a: int, b: int): int {
    if a >= b then a else b
  }

  /**
    Best value over the subsets that contain exactly `chosen` among the items
    below `i`: every one of the 2^(n-i) include/exclude choices for the rest is
    tried, and a subset that is too heavy scores INT_MIN.
   */
  function BestExtension(items: seq<Item>, capacity: int, i: nat, chosen: seq<nat>): int
    requires i <= |items| && IsSelection(chosen, i)
    decreases |items| - i
  {
    if i == |items| then
      if Weight(items, chosen) <= capacity then Value(items, chosen) else INT_MIN
    else
      AppendSelection(items, chosen, i);
      Max(BestExtension(items, capacity, i + 1, chosen), BestExtension(items, capacity, i + 1, chosen + [i]))
  }

  function BruteForceOptimal(items: seq<Item>, capacity: int): int {
    BestExtension(items, capacity, 0, [])
  }

  /** The indices of an extension, all at least `i`, that splits on whether it starts with `i`. */
  predicate ExtendsFrom(t: seq<nat>, n: int, i: int) {
    IsSelection(t, n) && forall j :: 0 <= j < |t| ==> i <= t[j]
  }

  /** Splitting an extension on index `i`: taken, the rest extends from i + 1; skipped, it all does. */
  lemma SplitExtension(chosen: seq<nat>, i: nat, t: seq<nat>, n: int)
    requires IsSelection(chosen, i) && ExtendsFrom(t, n, i)
    ensures |t| > 0 && t[0] == i ==>
              && ExtendsFrom(t[1..], n, i + 1)
              && chosen + t == (chosen + [i]) + t[1..]
    ensures !(|t| > 0 && t[0] == i) ==> ExtendsFrom(t, n, i + 1)
  {
    if |t| > 0 && t[0] == i {
      assert chosen + t == (chosen + [i]) + t[1..];
    } else if |t| > 0 {
      forall j | 0 <= j < |t|
        ensures i + 1 <= t[j]
      {
        if j > 0 {
          assert t[0] < t[j];
        }
      }
    }
  }

  /** No subset extending `chosen` that fits scores more than `BestExtension`. */
  lemma {:induction false} ExtensionBound(items: seq<Item>, capacity: int, i: nat, chosen: seq<nat>, t: seq<nat>)
    requires i <= |items| && IsSelection(chosen, i) && ExtendsFrom(t, |items|, i)
    requires InRange(chosen + t, |items|) && Weight(items, chosen + t) <= capacity
    ensures Value(items, chosen + t) <= BestExtension(items, capacity, i, chosen)
    decreases |items| - i
  {
    if i == |items| {
      assert |t| == 0;
      assert chosen + t == chosen;
      assert Weight(items, chosen) <= capacity;
      assert BestExtension(items, capacity, i, chosen) == Value(items, chosen);
    } else {
      AppendSelection(items, chosen, i);
      SplitExtension(chosen, i, t, |items|);
      var skip := BestExtension(items, capacity, i + 1, chosen);
      var take := BestExtension(items, capacity, i + 1, chosen + [i]);
      assert BestExtension(items, capacity, i, chosen) == Max(skip, take);
      if |t| > 0 && t[0] == i {
        ExtensionBound(items, capacity, i + 1, chosen + [i], t[1..]);
        assert Value(items, chosen + t) <= take;
      } else {
        ExtensionBound(items, capacity, i + 1, chosen, t);
        assert Value(items, chosen + t) <= skip;
      }
    }
  }

  /** A `BestExtension` above INT_MIN is the value of some fitting subset extending `chosen`. */
  lemma {:induction false} ExtensionAttained(items: seq<Item>, capacity: int, i: nat, chosen: seq<nat>)
    returns (t: seq<nat>)
    requires i <= |items| && IsSelection(chosen, i)
    requires BestExtension(items, capacity, i, chosen) > INT_MIN
    ensures IsSelection(chosen + t, |items|)
    ensures Weight(items, chosen + t) <= capacity
    ensures Value(items, chosen + t) == BestExtension(items, capacity, i, chosen)
    decreases |items| - i
  {
    if i == |items| {
      t := [];
      assert chosen + t == chosen;
    } else {
      AppendSelection(items, chosen, i);
      var left := BestExtension(items, capacity, i + 1, chosen);
      var right := BestExtension(items, capacity, i + 1, chosen + [i]);
      if left >= right {
        t := ExtensionAttained(items, capacity, i + 1, chosen);
      } else {
        var rest := ExtensionAttained(items, capacity, i + 1, chosen + [i]);
        t := [i] + rest;
        assert chosen + t == (chosen + [i]) + rest;
      }
    }
  }

  /** Every subset within the capacity is worth at most `brute_force_optimal`. */
  lemma BruteForceBound(items: seq<Item>, capacity: int, s: seq<nat>)
    requires IsSelection(s, |items|) && Weight(items, s) <= capacity
    ensures Value(items, s) <= BruteForceOptimal(items, capacity)
  {
    var none: seq<nat> := [];
    EmptyPrefix(s, |items|);
    ExtensionBound(items, capacity, 0, none, s);
  }

  /** Every selection extends the empty one from index 0. */
  lemma EmptyPrefix(s: seq<nat>, n: int)
    requires IsSelection(s, n)
    ensures [] + s == s && ExtendsFrom(s, n, 0) && InRange([] + s, n)
  {
    assert [] + s == s;
  }

  /**
    With a non-negative capacity the empty subset fits, so the reference is
    not INT_MIN: it is the value of some subset within the capacity.
   */
  lemma BruteForceAttained(items: seq<Item>, capacity: int) returns (s: seq<nat>)
    requires capacity >= 0
    ensures BruteForceOptimal(items, capacity) >= 0
    ensures IsSelection(s, |items|) && Weight(items, s) <= capacity
    ensures Value(items, s) == BruteForceOptimal(items, capacity)
  {
    var none: seq<nat> := [];
    assert IsSelection(none, |items|) && Weight(items, none) == 0 && Value(items, none) == 0;
    BruteForceBound(items, capacity, none);
    s := ExtensionAttained(items, capacity, 0, none);
    assert none + s == s;
  }
}
