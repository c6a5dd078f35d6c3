/**
 * Shared vocabulary of the memory-pool allocator model: the records the
 * allocator keeps in its arrays, the status codes it returns and its
 * sizing constants.  Pointers into the node heap become slot indices and
 * the pool's byte buffer is represented by offsets only.
 */
module PoolTypes {

  /** The null link of the node list and of a gap-index entry. */
  const NIL: int := -1

  /** Initial capacities and the expansion factor of the growable arrays. */
  const POOL_STORE_INIT_CAPACITY: nat := 20
  const NODE_HEAP_INIT_CAPACITY: nat := 40
  const GAP_IX_INIT_CAPACITY: nat := 40
  const EXPAND_FACTOR: nat := 2

  /**
   * The fill-factor test `(float) used / capacity > 0.75`, stated on exact
   * integers as `4 * used > 3 * capacity`.  The two agree while the counts
   * stay below 2^23: such counts are exact in single precision, and a
   * quotient above 0.75 then exceeds it by more than half a unit in the
   * last place.  Larger counts are not modelled with float rounding.
   */
  predicate OverFilled(used: nat, capacity: nat)
  {
    4 * used > 3 * capacity
  }

  datatype Policy = FirstFit | BestFit

  datatype AllocStatus = AllocOk | AllocFail | AllocCalledAgain | AllocNotFreed

  datatype Option<T> = None | Some(value: T)

  /**
   * One record of the node heap: the segment it describes (offset into the
   * pool's buffer and size), whether the slot is in use and whether the
   * segment is allocated, and the address-order links (slot indices or NIL).
   */
  datatype Node = Node(offset: nat, size: nat, used: bool, isAllocated: bool, prev: int, next: int)

  /** A cleared node-heap slot, as the pool's constructor leaves slots 1.. */
  const UNUSED_NODE: Node := Node(0, 0, false, false, NIL, NIL)

  /** One gap-index entry: the size of a free segment and its node slot. */
  datatype Gap = Gap(size: nat, node: int)

  /** A cleared gap-index slot. */
  const EMPTY_GAP: Gap := Gap(0, NIL)

  /** What mem_inspect_pool reports for one segment. */
  datatype PoolSegment = PoolSegment(size: nat, isAllocated: bool)
}
