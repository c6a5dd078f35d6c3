/**
 * The process-wide pool store of mem_pool.c (lines 71-73): an expandable
 * array of pointers to the open pool managers, its size and its capacity.
 * The store is absent (NULL) until mem_init and again after mem_free.
 *
 * The store's size is set to 0 by mem_init and mem_free and is never
 * incremented, so mem_pool_open always registers its manager in slot 0,
 * overwriting the one there, and mem_pool_close's search for the manager
 * covers no slot at all.  The model keeps both behaviours.
 */
module Registry {
  import opened PoolTypes
  import opened Segments
  import opened PoolState
  import opened MemPool

  class PoolStore {
    /** pool_store: null while the allocator is not initialised. */
    var store: array?<PoolMgr?>
    /** pool_store_size and pool_store_capacity. */
    var size: nat
    var capacity: nat

    /**
     * An initialised store holds `capacity` slots, at least the initial
     * capacity, and its size leaves room for one more registration.
     */
    ghost predicate Valid()
      reads this
    {
      store != null ==> store.Length == capacity && POOL_STORE_INIT_CAPACITY <= capacity && size < capacity
    }

    /** The static initialisers of lines 71-73: no store, size and capacity 0. */
    constructor ()
      ensures Valid() && store == null && size == 0 && capacity == 0
    {
      store := null;
      size := 0;
      capacity := 0;
    }

    /**
     * mem_init (lines 109-129): a second call before mem_free is refused;
     * otherwise a store of the initial capacity is created with every slot
     * empty.
     */
    method Init() returns (status: AllocStatus)
      requires Valid()
      modifies this
      ensures Valid()
      ensures old(store) != null ==> status == AllocCalledAgain && store == old(store)
                                     && size == old(size) && capacity == old(capacity)
      ensures old(store) == null ==> status == AllocOk && store != null && fresh(store)
                                     && capacity == POOL_STORE_INIT_CAPACITY && size == 0
                                     && forall i :: 0 <= i < store.Length ==> store[i] == null
    {
      if store != null {
        return AllocCalledAgain;
      }
      var s := new PoolMgr?[POOL_STORE_INIT_CAPACITY];
      for i := 0 to POOL_STORE_INIT_CAPACITY
        invariant forall j :: 0 <= j < i ==> s[j] == null
      {
        s[i] := null;
      }
      store := s;
      capacity := POOL_STORE_INIT_CAPACITY;
      size := 0;
      status := AllocOk;
    }

    /**
     * mem_free (lines 131-150): refused when there is no store; otherwise
     * the store is released and the size reset.  The capacity keeps its
     * last value, as in the source.
     */
    method Free() returns (status: AllocStatus)
      requires Valid()
      modifies this
      ensures Valid()
      ensures old(store) == null ==> status == AllocCalledAgain && store == null
                                     && size == old(size) && capacity == old(capacity)
      ensures old(store) != null ==> status == AllocOk && store == null
                                     && size == 0 && capacity == old(capacity)
    {
      if store == null {
        return AllocCalledAgain;
      }
      store := null;
      size := 0;
      status := AllocOk;
    }

    /**
     * _mem_resize_pool_store (lines 560-578): past the fill factor the
     * store doubles, keeping its slots; the slots it gains are empty.
     */
    method ResizePoolStore() returns (status: AllocStatus)
      requires Valid() && store != null
      modifies this
      ensures Valid() && store != null && status == AllocOk && size == old(size)
      ensures capacity == if OverFilled(old(size), old(capacity)) then old(capacity) * EXPAND_FACTOR
                          else old(capacity)
      ensures store[..old(capacity)] == old(store[..])
      ensures forall i :: old(capacity) <= i < store.Length ==> store[i] == null
      ensures store == old(store) || fresh(store)
      ensures old(size) == 0 ==> store == old(store) && capacity == old(capacity)
    {
      if OverFilled(size, capacity) {
        var grown := new PoolMgr?[capacity * EXPAND_FACTOR];
        forall i | 0 <= i < grown.Length {
          grown[i] := if i < capacity then store[i] else null;
        }
        capacity := capacity * EXPAND_FACTOR;
        store := grown;
      }
      status := AllocOk;
    }

    /**
     * mem_pool_open (lines 152-241): without a store no pool is opened;
     * otherwise a fresh manager holding one free segment over the whole
     * pool is created and registered in slot `size`, overwriting that slot;
     * the size itself is left as it was.
     */
    method Open(poolSize: nat, pol: Policy) returns (mgr: PoolMgr?)
      requires Valid()
      modifies this, store
      ensures Valid() && size == old(size)
      ensures old(store) == null ==> mgr == null && store == null && capacity == old(capacity)
      ensures old(store) != null ==>
        && mgr != null && fresh(mgr) && mgr.Valid()
        && mgr.totalSize == poolSize && mgr.policy == pol
        && Pristine(mgr.Segs(), poolSize)
        && mgr.numGaps == 1 && mgr.numAllocs == 0 && mgr.allocSize == 0
        && (forall j :: 1 <= j < mgr.heap.Length ==> mgr.heap[j] == UNUSED_NODE)
        && (forall j :: 1 <= j < mgr.gapIx.Length ==> mgr.gapIx[j] == EMPTY_GAP)
        && capacity == (if OverFilled(old(size), old(capacity)) then old(capacity) * EXPAND_FACTOR else old(capacity))
        && store != null && store[..old(capacity)] == old(store[..])[old(size) := mgr]
        && forall i :: old(capacity) <= i < store.Length ==> store[i] == null
      ensures old(store) != null && old(size) == 0 ==> store == old(store) && store[0] == mgr
    {
      if store == null {
        return null;
      }
      var status := ResizePoolStore();
      var storeSize := size;
      if status != AllocOk {
        return null;
      }
      mgr := new PoolMgr.Open(poolSize, pol);
      assert Pristine(mgr.Segs(), poolSize);
      Register(mgr, storeSize);
    }

    /** Line 236: the manager is stored in the given slot of the store. */
    method Register(mgr: PoolMgr, slot: nat)
      requires store != null && slot < store.Length
      modifies store
      ensures store[..] == old(store[..])[slot := mgr]
    {
      store[slot] := mgr;
    }

    /**
     * mem_pool_close (lines 243-277): a null pool fails; a pool with other
     * than one gap, or with any allocation, is not freed; otherwise the
     * manager is released and every one of the first `size` slots of the
     * store that holds it is cleared.
     */
    method Close(mgr: PoolMgr?) returns (status: AllocStatus)
      requires Valid()
      modifies store
      ensures mgr == null ==> status == AllocFail
      ensures mgr != null ==>
        (status == AllocOk <==> mgr.numGaps == 1 && mgr.numAllocs == 0)
        && (status != AllocOk ==> status == AllocNotFreed)
      ensures mgr != null && mgr.Valid() ==> (status == AllocOk <==> Pristine(mgr.Segs(), mgr.totalSize))
      ensures store != null && status == AllocOk ==>
        forall i :: 0 <= i < store.Length ==> store[i] == if i < size && old(store[i]) == mgr then null else old(store[i])
      ensures store != null && status != AllocOk ==> store[..] == old(store[..])
      ensures store != null && size == 0 ==> store[..] == old(store[..])
    {
      if mgr == null {
        return AllocFail;
      }
      if mgr.Valid() {
        assert (mgr.numGaps == 1 && mgr.numAllocs == 0) <==> Pristine(mgr.Segs(), mgr.totalSize) by {
          ClosableIsPristine(mgr.heap[..], mgr.order, mgr.gapIx[..], mgr.numGaps, mgr.usedNodes,
                             mgr.numAllocs, mgr.allocSize, mgr.totalSize);
        }
      }
      if mgr.numGaps != 1 {
        return AllocNotFreed;
      }
      if mgr.numAllocs != 0 {
        return AllocNotFreed;
      }
      if store != null {
        Unregister(mgr);
      }
      status := AllocOk;
    }

    /** Lines 267-271: every one of the first `size` slots holding the manager is cleared. */
    method Unregister(mgr: PoolMgr)
      requires Valid() && store != null
      modifies store
      ensures forall i :: 0 <= i < store.Length ==>
        store[i] == if i < size && old(store[i]) == mgr then null else old(store[i])
    {
      for i := 0 to size
        invariant forall j :: 0 <= j < store.Length ==>
          store[j] == if j < i && old(store[j]) == mgr then null else old(store[j])
      {
        if store[i] == mgr {
          store[i] := null;
        }
      }
    }
  }
}
