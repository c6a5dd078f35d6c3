# mem_pool allocator, modelled in Dafny

mem_pool.c is a user-space memory-pool allocator. A process-wide *pool
store* keeps pointers to the open pools. Each pool is run by a *pool
manager* that carves one byte buffer into segments. The manager keeps:

- a *node heap*, an array of node records linked in address order
  (`prev`/`next`). Each node describes one segment: its offset and size,
  whether the slot is in use, and whether the segment is allocated;
- a *gap index*, an array of `(size, node)` entries for the free segments
  ("gaps"). It is sorted by size, then by node address, and empty slots
  hold `(0, NULL)`;
- the counters `alloc_size`, `num_allocs`, `num_gaps` and `used_nodes`.

An allocation splits a gap. The gap is chosen by *first fit* (a walk of the
list) or *best fit* (the first sufficient entry of the sorted index). A
remainder becomes a new gap node in the first unused heap slot. A free
coalesces the segment with a free successor and with a free predecessor.
The three arrays double when more than three quarters full.

The model is imperative where the source is:

- the pool store is the class `Registry.PoolStore`, with an `array` of
  managers;
- the manager is the class `MemPool.PoolMgr`, with the node heap and gap
  index as `array`s and the counters as fields. Its methods are the
  source's functions, with the source's loops.

Pointers into the node heap become slot indices, and `NULL` becomes
`NIL = -1`. A node's address orders like its slot, because all nodes live
in one array. The pool's bytes are represented by offsets only.

This translation is not faithful everywhere. The source grows the node
heap with `realloc` and then keeps using pointers into the old block (see
"## Findings"). A slot index stays valid when the array grows, so the
model behaves as if every node pointer were moved along with the heap.
`Relocation` states both behaviours on addresses.

Every operation on a manager is proved against a specification on values:

- the ghost field `order` lists the heap slots of the linked list in order;
- `Segs()` reads the *segment list* off the heap (`NodeList.SegsOf`);
- `Valid()` (`PoolState.PoolOk`) says that:
  - the links, `used` flags and `order` agree;
  - the segment list tiles `[0, total_size)`, with no two gaps adjacent and
    every gap non-empty when the pool is not empty;
  - the counters count the list;
  - the live part of the gap index is sorted, names each node once, holds
    exactly the entries of the free segments, and is followed by cleared
    slots.

An allocation performs `Segments.Split` on the segment list, and a free
performs `Segments.Coalesce`. `Segments.RoundTrip` shows that freeing a
fresh allocation undoes it.

Modules, leaves first:

| file | module | contents |
|---|---|---|
| types.dfy | PoolTypes | records, status codes, capacities, the fill-factor test |
| gap_order.dfy | GapOrder | the index order, the bubble insertion, the shift-down delete, the first sufficient entry |
| segments.dfy | Segments | the segment list, its invariant and counters, the placement policies, Split, Coalesce |
| node_list.dfy | NodeList | the linked node heap, and how its link edits act on the segment list |
| heap_edits.dfy | HeapEdits | the whole heap edits of an allocation and of a free |
| pool_state.dfy | PoolState | the manager invariant, and its preservation by open, grow, allocate and free |
| mem_pool.dfy | MemPool | the class PoolMgr and its methods |
| relocation.dfy | Relocation | node addresses and slots; the links after the heap moves, as written and as intended |
| registry.dfy | Registry | the class PoolStore: init, free, open, close |

Behaviours of the source that the model keeps as written:

- `pool_store_size` is set to 0 and never incremented. So `mem_pool_open`
  always writes its manager into slot 0, replacing the pointer there. The
  store never reaches its fill factor, so it never grows. The unregister loop
  of `mem_pool_close` covers no slot, and a closed manager's pointer stays in
  the store.
- `mem_free` keeps `pool_store_capacity`.
- In the bubble pass of `_mem_sort_gap_ix`, the first disjunct of the swap
  test (`current_empty & next_non_empty`) tests one entry twice and can never
  hold. `GapOrder.SwapTestIsKeyOrder` shows that the test is exactly the key
  order on a non-empty entry.
- `mem_new_alloc` grows the node heap before its size check, so a refused
  request can still grow the heap.
- `mem_inspect_pool` reports `used_nodes` as the count. Under `Valid()` this
  is the number of segments it walked.

## Model

| member | source | states |
|---|---|---|
| MemPool.NewNodeHeap | mem_pool.c:210-224 | a fresh heap of the initial capacity: slot 0 is the one used, free node of `size` bytes with no links, and every other slot is unused |
| MemPool.NewGapIx | mem_pool.c:226-231 | a fresh index of the initial capacity: the single entry `(size, slot 0)`, then cleared slots |
| MemPool.PoolMgr.Open | mem_pool.c:199-231 | a new manager is valid; its segment list is one free segment over the whole pool; no allocation, one gap, one used node; slot 0 of the heap and of the index describe that segment, and every other slot of both is cleared |
| PoolState.OpenOk | mem_pool.c:199-231 | the initial heap and index satisfy the manager invariant, with segment list `[Seg(0, size, free, 0)]` |
| MemPool.PoolMgr.ResizeNodeHeap | mem_pool.c:580-595 | past the fill factor the heap doubles, keeping its slots and adding unused ones; afterwards the heap has room for another node; the segment list, index and counters are unchanged and the invariant holds |
| PoolState.PoolOkGrowHeap | mem_pool.c:580-595 | adding unused slots to a valid heap keeps the manager invariant and the segment list |
| MemPool.PoolMgr.ResizeGapIx | mem_pool.c:597-610 | past the fill factor the index doubles, keeping its entries and clearing the new slots; afterwards it has room for two more entries |
| MemPool.PoolMgr.AddToGapIx | mem_pool.c:612-641 | the live index becomes the old live index with the new entry inserted at its position in (size, node) order, one gap more; the slots after it stay cleared |
| MemPool.PoolMgr.AppendGap | mem_pool.c:617-630 | after a grow if needed, the entry is appended after the live entries and counted |
| MemPool.PoolMgr.SortGapIx | mem_pool.c:675-711 | one backward bubble pass over a sorted index ending in a new non-empty entry leaves exactly that index with the entry at its insertion position; the slots after it are untouched |
| GapOrder.SwapTestIsKeyOrder | mem_pool.c:682-689 | the source's three-disjunct swap test holds iff the current entry is non-empty and precedes its predecessor in (size, node) order; an empty entry never moves |
| GapOrder.InsertSorted | mem_pool.c:675-711 | inserting into a sorted index gives a sorted index holding the old entries plus the new one |
| GapOrder.BubbleStep | mem_pool.c:681-703 | at each step the pass swaps exactly while the new entry is above its insertion position, and a swap moves it down one slot |
| MemPool.PoolMgr.FindGapEntry | mem_pool.c:647-654 | the position of the first live entry naming the node, or num_gaps when none does |
| GapOrder.FindNodeLocates | mem_pool.c:647-654 | in an index naming each node once, the search finds the position of a present entry |
| MemPool.PoolMgr.RemoveFromGapIx | mem_pool.c:643-672 | the entries after the found one, up to and including slot num_gaps, move down one slot; slot num_gaps is cleared; one gap fewer |
| GapOrder.RemoveEntry | mem_pool.c:643-672 | removing a present entry from a sorted index removes exactly that entry, keeps the rest sorted, leaves no entry for its node and leaves the tail cleared |
| MemPool.PoolMgr.FirstSufficientSlot | mem_pool.c:320-328 | the first index slot whose size is at least the request, or the capacity when there is none |
| GapOrder.FirstSufficientIsLeast | mem_pool.c:320-328 | in a sorted index followed by cleared slots, the first sufficient slot exists iff some live entry is sufficient, and it is the least sufficient live entry in index order |
| PoolState.BestFitFromIndex | mem_pool.c:320-345 | on a valid pool, the first sufficient index slot exists iff some gap fits, and its entry names a best-fit gap (the smallest, then the lowest slot) |
| PoolState.IndexedNodesFree | mem_pool.c:321-323 | the source's assertion that every indexed node is not allocated holds on every valid pool; the node is also listed and the entry is live |
| MemPool.PoolMgr.FirstFitNode | mem_pool.c:305-314 | the walk from the head stops at the first gap of the list that fits, or at the last node when none before it fits |
| MemPool.PoolMgr.ChooseGap | mem_pool.c:303-345 | the search succeeds iff some gap fits the request, and then chooses the gap the pool's policy selects |
| MemPool.PoolMgr.FirstUnusedSlot | mem_pool.c:375-384 | the first heap slot not in use |
| NodeList.FirstUnusedIsLeastFree | mem_pool.c:375-384 | on a valid heap, the first unused slot is not listed and every slot below it is listed |
| NodeList.UnusedSlotExists | mem_pool.c:375-384 | a heap with fewer listed nodes than slots has an unused slot, so the search ends |
| MemPool.PoolMgr.NewAlloc | mem_pool.c:279-415 | refused iff there are no gaps, the request is not below the pool size or the free bytes, or no gap fits; a refusal changes no segment, entry or counter, and the heap at most gains cleared slots. Otherwise the chosen gap is the policy's choice, the result is its node, the segment list is that gap split, and one more allocation of `size` bytes is counted; the invariant holds either way |
| MemPool.PoolMgr.AllocateFrom | mem_pool.c:290-402 | past the early refusals: refused iff no gap fits, otherwise as NewAlloc |
| MemPool.PoolMgr.Commit | mem_pool.c:348-402 | splitting the chosen gap keeps the invariant; the segment list is the split, and counters and nodes move by one allocation plus one node and one gap if there is a remainder |
| MemPool.PoolMgr.CommitNodes | mem_pool.c:348-402 | the heap becomes the allocation edit of the chosen node, with the remainder in the first unused slot; the index loses the gap's entry and gains the remainder's |
| MemPool.PoolMgr.TakeGap | mem_pool.c:348-368 | the allocation is counted, the gap's entry is removed from the index, and its node becomes an allocation of `size` bytes |
| MemPool.PoolMgr.AddGapNode | mem_pool.c:372-403 | the remainder takes the first unused slot, is linked right after the allocation, and is inserted into the index in order |
| MemPool.PoolMgr.LinkGapNode | mem_pool.c:387-398 | the heap becomes the splice of a free node after node c |
| NodeList.LinkAfterSegs | mem_pool.c:387-398 | splicing an unlisted slot after position k inserts its segment after position k of the segment list |
| HeapEdits.AllocHeapOk | mem_pool.c:348-402 | the allocation's heap edit keeps the list well formed and performs Split on the segment list |
| PoolState.CommitOk | mem_pool.c:348-402 | the commit's heap, order, index and counters satisfy the manager invariant, and the remainder's slot is the least unlisted one |
| PoolState.AllocPoolOk | mem_pool.c:348-402 | an allocation edit whose index trades the gap's entry for the remainder's keeps the manager invariant |
| Segments.SplitOk | mem_pool.c:348-402 | splitting a fitting gap keeps the segment list valid, marks the allocation, places the remainder after it, counts one more allocation of `size` bytes, and trades the gap's entry for the remainder's |
| MemPool.PoolMgr.Inspect | mem_pool.c:523-551 | reports the size and allocation flag of every segment in list order, and a count equal to the number reported |
| MemPool.PoolMgr.DelAlloc | mem_pool.c:417-521 | freeing an allocated segment succeeds, keeps the invariant, coalesces it with its free neighbours, and counts one allocation fewer, its bytes fewer, and one node fewer per merge |
| MemPool.PoolMgr.FindListed | mem_pool.c:428-431 | the walk from the head reaches the listed node |
| MemPool.PoolMgr.Release | mem_pool.c:439-514 | the free at position k performs Coalesce on the segment list and keeps the invariant |
| MemPool.PoolMgr.ReleaseNodes | mem_pool.c:439-514 | the heap becomes the free edit; the index loses the absorbed neighbours' entries and gains the merged gap's |
| MemPool.PoolMgr.ReleaseHead | mem_pool.c:439-479 | the node becomes free and, when its successor is free, absorbs it; that successor's entry leaves the index |
| MemPool.PoolMgr.ReleaseTail | mem_pool.c:490-514 | a free predecessor absorbs the node and is re-indexed under its new size; otherwise the node is indexed itself |
| MemPool.PoolMgr.FreeNode | mem_pool.c:439-443 | the node is marked free, and the allocation count and bytes drop by it |
| MemPool.PoolMgr.MergeNext | mem_pool.c:446-479 | the successor is unlinked and its slot freed, its entry is removed, and the node grows by its size |
| MemPool.PoolMgr.AbsorbNext | mem_pool.c:447-472 | as MergeNext, with the index losing exactly the successor's entry and no longer naming it |
| MemPool.PoolMgr.MergeIntoPrev | mem_pool.c:490-509 | the predecessor's entry is removed, the predecessor grows by the node's size and is re-inserted in order, and the node is unlinked |
| MemPool.PoolMgr.AbsorbIntoPrev | mem_pool.c:489-507 | as MergeIntoPrev, with the index trading exactly the predecessor's old entry for its grown one |
| MemPool.PoolMgr.IndexFreed | mem_pool.c:510-514 | the freed node's entry is added to the index, which stays sorted with one entry per node |
| MemPool.PoolMgr.UnlinkNode | mem_pool.c:455-464 | the heap becomes the unlink of b from after a |
| NodeList.UnlinkSegs | mem_pool.c:455-464 | unlinking the node at position j removes position j from the segment list |
| HeapEdits.FreeHeapOk | mem_pool.c:439-509 | the free's heap edit keeps the list well formed and performs Coalesce on the segment list |
| HeapEdits.MergeNextOk | mem_pool.c:446-479 | merging a free successor into the node is AbsorbNext on the segment list |
| HeapEdits.MergeIntoPrevOk | mem_pool.c:490-509 | merging the node into a free predecessor is AbsorbIntoPrev on the segment list |
| Segments.CoalesceOk | mem_pool.c:439-514 | coalescing a freed segment keeps the list valid; one allocation and its bytes fewer; the absorbed gaps' entries are traded for the merged gap's |
| PoolState.DelOk | mem_pool.c:439-514 | the free's heap, order, index and counters satisfy the manager invariant, and the segment list is coalesced |
| PoolState.DelPoolOk | mem_pool.c:439-514 | a free edit whose index trades the absorbed entries for the merged one keeps the manager invariant |
| Segments.RoundTrip | mem_pool.c:279-521 | on a valid list, freeing an allocation right after making it restores the segment list exactly |
| PoolState.ClosableIsPristine | mem_pool.c:250-257 | on a valid pool, "one gap and no allocation" holds iff the pool is one free segment over its whole size; no allocation already implies one gap |
| Segments.NothingAllocatedIsPristine | mem_pool.c:250-257 | a valid segment list with nothing allocated is exactly one free segment over the pool |
| Registry.PoolStore.constructor | mem_pool.c:71-73 | no store, with size and capacity 0 |
| Registry.PoolStore.Init | mem_pool.c:109-129 | a second call is refused and changes nothing; otherwise a fresh store of 20 empty slots, with size 0 |
| Registry.PoolStore.Free | mem_pool.c:131-150 | refused when there is no store; otherwise the store is dropped and the size reset; the capacity is kept |
| Registry.PoolStore.ResizePoolStore | mem_pool.c:560-578 | the store doubles iff it is past the fill factor; its slots are kept and the new ones empty; an empty store never grows |
| Registry.PoolStore.Open | mem_pool.c:152-241 | no store, no pool. Otherwise a fresh valid manager with the given size and policy, pristine with one gap and no allocation, and with every heap and index slot after slot 0 cleared, is written into slot `size` (always 0) and replaces what was there; every other slot is kept |
| Registry.PoolStore.Register | mem_pool.c:236 | only the given slot changes, to the manager |
| Registry.PoolStore.Close | mem_pool.c:243-277 | a null pool fails. A pool is closed iff it has one gap and no allocation, which on a valid pool means iff it is pristine; otherwise it is not freed and the store is unchanged. On close, the first `size` slots holding the manager are cleared, so with size 0 the store is unchanged |
| Registry.PoolStore.Unregister | mem_pool.c:267-271 | exactly the slots below `size` that hold the manager are cleared |
| Relocation.GrowAsWritten | mem_pool.c:585-587 | the grown heap holds the old links unchanged, followed by null links |
| Relocation.GrowAsWrittenDangles | mem_pool.c:585-587 | once the heap has moved to a disjoint block, a link that named a node of the old block names no node of the new one |
| Relocation.MovedLinkDangles | mem_pool.c:585-587 | a concrete two-node heap moved from address 1000 to 5000 keeps a link into the freed block |
| Relocation.GrowRebased | mem_pool.c:585-587 | the intended grow: each link is moved by the block's displacement, null stays null, and the gained links are null |
| Relocation.RebaseKeepsSlot | mem_pool.c:585-587 | a moved node pointer lands in the new block and names the same slot |
| Relocation.GrowRebasedKeepsLinks | mem_pool.c:585-587 | after the intended grow, every link is null or names a node of the new block, in the same slot as before |

## Left out

- MemPool.PoolMgr.ResizeNodeHeap: the model treats the node heap as if it never moves, or as if every pointer into it were moved along with it. The source does neither. `realloc` (mem_pool.c:587) may move the heap, and nothing then updates the nodes' `prev`/`next` links, the `gap_ix[i].node` entries, or the handles already returned by `mem_new_alloc` (mem_pool.c:414). All of them keep pointing into the freed block. The stale pointers are used in the same call. The first-fit walk follows stale links (mem_pool.c:307-314). The best-fit scan dereferences a stale `gap_ix[i].node` (mem_pool.c:322) and takes it as the chosen node (mem_pool.c:325), and the size check dereferences it again (mem_pool.c:336). Later, `mem_del_alloc`'s walk follows stale links too (mem_pool.c:429-431). MemPool.PoolMgr.NewAlloc and MemPool.PoolMgr.DelAlloc therefore model the pool as it would behave with the links rebased. `Relocation` records the defect; see "## Findings".

- Allocation failure of `malloc`/`realloc` (mem_pool.c:115-123, 167-197, 567-570, 587-590, 603-605). The model always obtains the memory, so the ALLOC_FAIL returns of these paths and the NULL result of `mem_pool_open` on them are not modelled.
- Registry.PoolStore.ResizePoolStore: `realloc` leaves the new slots of the grown store uninitialised; the model clears them. The same holds for MemPool.PoolMgr.ResizeNodeHeap and MemPool.PoolMgr.ResizeGapIx.
- MemPool.PoolMgr.ResizeNodeHeap, MemPool.PoolMgr.ResizeGapIx, Registry.PoolStore.ResizePoolStore: the `float` fill-factor tests (mem_pool.c:563, 582, 599) are stated on exact integers as `4 * used > 3 * capacity`. The two agree while the counts stay below 2^23. Then the counts are exact in single precision, and a quotient above 0.75 exceeds it by more than half a unit in the last place. Past that, `(float)` rounding can make the source decline a grow that the model performs. For example, with 41943040 slots and 31457281 used, the source's quotient rounds to exactly 0.75 and does not grow, but the model grows one call earlier. Single-precision rounding is not modelled.
- `printf` of the resize functions and every commented-out trace are left out, as output only.
- The pool's byte buffer is represented by offsets. Its contents are never read or written by the core, and the payload bytes are not modelled.
- `_mem_invalidate_gap_ix` (mem_pool.c:713-715) is a stub that returns ALLOC_FAIL and is never called.
- MemPool.PoolMgr.DelAlloc: the NULL test after the search (mem_pool.c:432-434) can never succeed, because the walk stops at a node, so its ALLOC_FAIL return is not modelled.
- MemPool.PoolMgr.DelAlloc requires a record that is listed and allocated. The source asserts that the record is allocated (mem_pool.c:426), and on any other pointer its walk frees the last node of the list. It also requires `FreeableAt`: `_mem_add_to_gap_ix` asserts a non-empty gap (mem_pool.c:619), so a zero-byte allocation can only be freed next to a free neighbour.
- The source's `assert`s (for example mem_pool.c:294, 300, 331, 618-619, 646) become preconditions or proved facts. The model does not abort.
- Several calls with side effects sit inside `assert(...)`: the resizes at mem_pool.c:291 and 617, the index removals at 362, 468 and 493, and the index insertions at 400, 495 and 512. The model always performs them, so it models a build with assertions enabled. Under `NDEBUG` none of those calls would run.
- The non-short-circuit `&` and `|` of the source's tests are written with `&&` and `||`. The operands have no side effects, so the results agree.
- `size_t` and `unsigned` arithmetic are unbounded in the model. Sizes stay below `total_size`, and counts stay below the array capacities.
- The `free` calls of `mem_pool_close` (mem_pool.c:259-264, 274) are left out: Dafny memory is not freed. A closed manager keeps its fields, and the store keeps its pointer, as the kept `pool_store_size` quirk implies.
- `mem_free`'s per-slot loop (mem_pool.c:139-145) has an empty body in the source and is not modelled.
- Threads: the source has no locking, and the model is sequential.

## Findings

| source | as written | input that shows it | evidently intended | confidence | as-written member | corrected member |
|---|---|---|---|---|---|---|
| mem_pool.c:585-587 | `_mem_resize_node_heap` grows the heap with `realloc` and updates no pointer into it: node links, `gap_ix[i].node` and returned handles keep their old addresses | a pool with more than 30 of its 40 nodes in use, whose `realloc` moves the heap; the next `mem_new_alloc` then walks links into the freed block (mem_pool.c:307-314) or dereferences stale `gap_ix[i].node` entries (mem_pool.c:322, 325, 336) | every node pointer is moved with the heap and still names the same node | high; not executed | Relocation.GrowAsWrittenDangles | Relocation.GrowRebasedKeepsLinks |
