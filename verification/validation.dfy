/**
  The checks `knapsack_solve_status` makes before any allocation: the ordered
  input validator, and the overflow-checked integer addition and dimension
  guard of src/knapsack.c.
 */
module Validation {
  import opened KnapsackTypes
  import opened Selections

  /** Compiled bounds of the solver. */
  const MAX_ITEMS: int := 100
  const MAX_CAPACITY: int := 100000

  /** The inputs the solver accepts: present, 1..100 items, capacity 0..100000, every item valid. */
  predicate ValidInputs(items: Option<seq<Item>>, capacity: int) {
    && items.Some?
    && 0 < |items.value| <= MAX_ITEMS
    && 0 <= capacity <= MAX_CAPACITY
    && ValidItems(items.value)
  }

  /** The item scan of `validate_inputs`, from index `i` on. */
  function ItemsValidFrom(items: seq<Item>, i: nat): (r: bool)
    requires i <= |items|
    ensures r <==> forall j :: i <= j < |items| ==> ValidItem(items[j])
    decreases |items| - i
  {
    if i == |items| then true
    else if items[i].weight <= 0 || items[i].value < 0 then false
    else ItemsValidFrom(items, i + 1)
  }

  /**
    `validate_inputs`: the checks run in a fixed order and the first one that
    fails decides the status.
   */
  function ValidateInputs(items: Option<seq<Item>>, capacity: Int32): (r: Status)
    ensures r == Ok || r == InvalidItems || r == TooManyItems || r == InvalidCapacity
    ensures r == Ok <==> ValidInputs(items, capacity)
    ensures r == TooManyItems <==> items.Some? && |items.value| > MAX_ITEMS
    ensures r == InvalidCapacity <==>
              items.Some? && 0 < |items.value| <= MAX_ITEMS && (capacity < 0 || capacity > MAX_CAPACITY)
    ensures r == InvalidItems <==>
              || items.None?
              || |items.value| == 0
              || (|items.value| <= MAX_ITEMS && 0 <= capacity <= MAX_CAPACITY && !ValidItems(items.value))
  {
    if items.None? || |items.value| == 0 then InvalidItems
    else if |items.value| > MAX_ITEMS then TooManyItems
    else if capacity < 0 || capacity > MAX_CAPACITY then InvalidCapacity
    else if !ItemsValidFrom(items.value, 0) then InvalidItems
    else Ok
  }

  /**
    `add_int_no_overflow`: the sum is formed in a wider type and accepted
    only when it fits an int.
   */
  function AddIntNoOverflow(lhs: Int32, rhs: Int32): (r: Option<Int32>)
    ensures r.Some? <==> INT_MIN <= lhs + rhs <= INT_MAX
    ensures r.Some? ==> r.value == lhs + rhs
  {
    var sum: int := lhs as int + rhs as int;
    if sum > INT_MAX || sum < INT_MIN then None else Some(sum)
  }

  /** Conversion of a C int to `size_t` (reduction modulo SIZE_MAX + 1). */
  function ToSizeT(x: int): SizeT {
    x % (SIZE_MAX + 1)
  }

  /** `(size_t)capacity + 1U`, wrapping as unsigned arithmetic does. */
  function RowWidth(capacity: Int32): SizeT {
    (ToSizeT(capacity) + 1) % (SIZE_MAX + 1)
  }

  datatype Dims = Dims(width: SizeT, takeSize: SizeT)

  /**
    The dimension guard: rejects a width whose product with the item count
    does not fit `size_t`, or a zero product; otherwise the sizes are exact.
   */
  function DimensionGuard(count: SizeT, capacity: Int32): (r: Option<Dims>)
    ensures r.Some? <==> 0 < RowWidth(capacity) * count <= SIZE_MAX
    ensures r.Some? ==> r.value.width == RowWidth(capacity) && r.value.takeSize == r.value.width * count
  {
    var width := RowWidth(capacity);
    if count != 0 && width > SIZE_MAX / count then
      ProductExceeds(width, count);
      None
    else
      ProductFits(width, count);
      var takeSize := (width * count) % (SIZE_MAX + 1);
      if takeSize == 0 then None else Some(Dims(width, takeSize))
  }

  lemma ProductExceeds(width: nat, count: nat)
    requires count > 0 && width > SIZE_MAX / count
    ensures width * count > SIZE_MAX
  {
    var q := SIZE_MAX / count;
    assert SIZE_MAX == q * count + SIZE_MAX % count;
    assert width >= q + 1;
    assert width * count >= (q + 1) * count;
  }

  lemma ProductFits(width: nat, count: nat)
    requires count == 0 || width <= SIZE_MAX / count
    ensures width * count <= SIZE_MAX
  {
    if count > 0 {
      var q := SIZE_MAX / count;
      assert q * count <= SIZE_MAX;
      assert width * count <= q * count;
    }
  }

  /**
    For validated inputs the guard never fires: width = capacity + 1 and the
    take matrix holds width * count cells, at most 100001 * 100.
   */
  lemma DimensionGuardPassesForValidInputs(count: SizeT, capacity: Int32)
    requires 0 < count <= MAX_ITEMS && 0 <= capacity <= MAX_CAPACITY
    ensures DimensionGuard(count, capacity) == Some(Dims(capacity + 1, (capacity + 1) * count))
  {
    var width := capacity + 1;
    assert RowWidth(capacity) == width;
    ValidDimsFit(width, count);
    var r := DimensionGuard(count, capacity);
    assert r.Some? && r.value == Dims(width, width * count);
  }

  /** The largest take matrix of validated inputs, 100001 * 100 cells, fits `size_t`. */
  lemma ValidDimsFit(width: int, count: int)
    requires 1 <= width <= MAX_CAPACITY + 1 && 1 <= count <= MAX_ITEMS
    ensures 0 < width * count <= SIZE_MAX
  {
    MulMonotone(1, 1, width, count);
    MulMonotone(width, count, MAX_CAPACITY + 1, MAX_ITEMS);
  }

  lemma MulMonotone(a: nat, b: nat, c: nat, d: nat)
    requires a <= c && b <= d
    ensures a * b <= c * d
  {
    assert a * b <= c * b;
  }
}
