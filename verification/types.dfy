/**
  The public data of the knapsack library: machine integer ranges, the item
  and result records of the header, and the status codes the solver reports.
 */
module KnapsackTypes {

  /** A possibly-absent value; `None` stands for a null pointer. */
  datatype Option<+T> = None | Some(value: T)

  /** Range of the C `int` type (32-bit two's complement). */
  const INT_MIN: int := -0x8000_0000
  const INT_MAX: int := 0x7FFF_FFFF

  /** Largest value of `size_t` on the 64-bit targets the library is built for. */
  const SIZE_MAX: int := 0xFFFF_FFFF_FFFF_FFFF

  type Int32 = x: int | INT_MIN <= x <= INT_MAX
  type SizeT = x: int | 0 <= x <= SIZE_MAX

  predicate InInt32(x: int) {
    INT_MIN <= x <= INT_MAX
  }

  /** `knapsack_item_t`: one item, a pair of C ints. */
  datatype Item = Item(weight: Int32, value: Int32)

  /**
    `knapsack_result_t`. A null `selected_indices` pointer is the empty
    sequence; `selectedCount` is kept as its own field as in the struct.
   */
  datatype KnapsackResult = KnapsackResult(optimalValue: Int32, selectedCount: nat, selectedIndices: seq<nat>)

  /** The all-zero result every failure path leaves behind. */
  const Zeroed: KnapsackResult := KnapsackResult(0, 0, [])

  /** `knapsack_status_t`: the outcome codes of `knapsack_solve_status`. */
  datatype Status =
    | Ok
    | NullResult
    | InvalidItems
    | TooManyItems
    | InvalidCapacity
    | DimensionOverflow
    | IntOverflow
    | Alloc

  /**
    What the allocator does on this call: whether the five workspace buffers
    are obtained, and whether the output index buffer is obtained.
   */
  datatype Allocation = Allocation(workspaceOk: bool, indicesOk: bool)
}
