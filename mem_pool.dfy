/**
 * One pool manager of mem_pool.c: the pool's bookkeeping counters, the node
 * heap (an array of node records linked in address order) and the gap index
 * (an array of (size, node) entries of the free segments, kept sorted), all
 * updated in place by the allocator's operations.
 *
 * The ghost field `order` names the heap slots of the linked list in order;
 * `Segs()` is the segment list the heap describes.  `Valid()` ties the
 * arrays, the counters and the segment list together, and every operation
 * is specified by the edit of `Segs()` it performs.
 */
module MemPool {
  import opened PoolTypes
  import opened GapOrder
  import opened Segments
  import opened NodeList
  import opened HeapEdits
  import opened PoolState

  /**
   * Lines 210-224: a fresh node heap whose slot 0 holds the one free segment
   * of `size` bytes and whose other slots are unused.
   */
  method NewNodeHeap(size: nat) returns (h: array<Node>)
    ensures fresh(h) && h.Length == NODE_HEAP_INIT_CAPACITY
    ensures h[0] == Node(0, size, true, false, NIL, NIL)
    ensures forall j :: 1 <= j < h.Length ==> h[j] == UNUSED_NODE
  {
    h := new Node[NODE_HEAP_INIT_CAPACITY];
    h[0] := Node(0, size, true, false, NIL, NIL);
    for i := 1 to h.Length
      invariant h[0] == Node(0, size, true, false, NIL, NIL)
      invariant forall j :: 1 <= j < i ==> h[j] == UNUSED_NODE
    {
      h[i] := UNUSED_NODE;
    }
  }

  /**
   * Lines 226-231: a fresh gap index holding the single entry for slot 0,
   * the rest empty.
   */
  method NewGapIx(size: nat) returns (g: array<Gap>)
    ensures fresh(g) && g.Length == GAP_IX_INIT_CAPACITY
    ensures g[0] == Gap(size, 0)
    ensures forall j :: 1 <= j < g.Length ==> g[j] == EMPTY_GAP
  {
    g := new Gap[GAP_IX_INIT_CAPACITY];
    g[0] := Gap(size, 0);
    for i := 1 to g.Length
      invariant g[0] == Gap(size, 0)
      invariant forall j :: 1 <= j < i ==> g[j] == EMPTY_GAP
    {
      g[i] := EMPTY_GAP;
    }
  }

  class PoolMgr {
    /** The pool's public record: its size and policy, and its counters. */
    const totalSize: nat
    const policy: Policy
    var allocSize: nat
    var numAllocs: nat
    var numGaps: nat
    /** The manager's node heap (its length is total_nodes) and gap index
      * (its length is gap_ix_capacity). */
    var heap: array<Node>
    var usedNodes: nat
    var gapIx: array<Gap>
    ghost var order: seq<nat>

    /** The segment list the node heap describes. */
    ghost function Segs(): seq<Seg>
      reads this, heap
      requires forall k :: 0 <= k < |order| ==> order[k] < heap.Length
    {
      SegsOf(heap[..], order)
    }

    ghost predicate Valid()
      reads this, heap, gapIx
    {
      PoolOk(heap[..], order, gapIx[..], numGaps, usedNodes, numAllocs, allocSize, totalSize)
    }

    /**
     * mem_pool_open's initialisation of a new manager (lines 199-231): one
     * free segment spanning the pool, held in slot 0 and indexed alone.
     */
    constructor Open(size: nat, pol: Policy)
      ensures Valid() && fresh(heap) && fresh(gapIx)
      ensures totalSize == size && policy == pol
      ensures Segs() == [Seg(0, size, false, 0)]
      ensures allocSize == 0 && numAllocs == 0 && numGaps == 1 && usedNodes == 1
      ensures heap.Length == NODE_HEAP_INIT_CAPACITY && gapIx.Length == GAP_IX_INIT_CAPACITY
      ensures heap[0] == Node(0, size, true, false, NIL, NIL)
      ensures forall j :: 1 <= j < heap.Length ==> heap[j] == UNUSED_NODE
      ensures gapIx[0] == Gap(size, 0)
      ensures forall j :: 1 <= j < gapIx.Length ==> gapIx[j] == EMPTY_GAP
    {
      var h := NewNodeHeap(size);
      var g := NewGapIx(size);
      totalSize := size;
      policy := pol;
      allocSize := 0;
      numAllocs := 0;
      numGaps := 1;
      usedNodes := 1;
      heap := h;
      gapIx := g;
      order := [0];
      new;
      OpenOk(heap[..], gapIx[..], size);
    }

    /**
     * _mem_resize_node_heap (lines 580-595): past the fill factor the heap
     * doubles; the slots it gains are unused.
     */
    method ResizeNodeHeap()
      requires Valid()
      modifies this
      ensures Valid()
      ensures heap[..] == old(heap[..])
        + (if OverFilled(old(usedNodes), old(heap.Length)) then ClearedNodes(old(heap.Length)) else [])
      ensures usedNodes < heap.Length
      ensures heap == old(heap) || fresh(heap)
      ensures Segs() == old(Segs()) && order == old(order) && gapIx == old(gapIx)
      ensures allocSize == old(allocSize) && numAllocs == old(numAllocs)
      ensures numGaps == old(numGaps) && usedNodes == old(usedNodes)
    {
      ghost var h0 := heap[..];
      ghost var ix := gapIx[..];
      assert PoolOk(h0, order, ix, numGaps, usedNodes, numAllocs, allocSize, totalSize);
      if OverFilled(usedNodes, heap.Length) {
        var grown := new Node[heap.Length * EXPAND_FACTOR](_ => UNUSED_NODE);
        forall i | 0 <= i < heap.Length {
          grown[i] := heap[i];
        }
        assert grown[..] == h0 + ClearedNodes(heap.Length);
        PoolOkGrowHeap(h0, order, ix, numGaps, usedNodes, numAllocs, allocSize, totalSize, heap.Length);
        heap := grown;
        assert gapIx[..] == ix;
      }
    }

    /**
     * _mem_resize_gap_ix (lines 597-610): past the fill factor the index
     * doubles; the slots it gains are cleared.
     */
    method ResizeGapIx()
      requires numGaps < gapIx.Length && GAP_IX_INIT_CAPACITY <= gapIx.Length
      modifies this
      ensures gapIx.Length
        == if OverFilled(old(numGaps), old(gapIx.Length)) then old(gapIx.Length) * EXPAND_FACTOR else old(gapIx.Length)
      ensures gapIx[..old(gapIx.Length)] == old(gapIx[..]) && EmptyFrom(gapIx[..], old(gapIx.Length))
      ensures numGaps + 1 < gapIx.Length
      ensures gapIx == old(gapIx) || fresh(gapIx)
      ensures heap == old(heap) && order == old(order)
      ensures allocSize == old(allocSize) && numAllocs == old(numAllocs)
      ensures numGaps == old(numGaps) && usedNodes == old(usedNodes)
    {
      if OverFilled(numGaps, gapIx.Length) {
        var grown := new Gap[gapIx.Length * EXPAND_FACTOR](_ => EMPTY_GAP);
        forall i | 0 <= i < gapIx.Length {
          grown[i] := gapIx[i];
        }
        gapIx := grown;
      }
    }

    /**
     * _mem_add_to_gap_ix (lines 612-641): grow the index if needed, append
     * the entry and let one bubble pass put it in place.  The result is the
     * old index with the entry inserted in order.
     */
    method AddToGapIx(size: nat, node: nat)
      requires GAP_IX_INIT_CAPACITY <= gapIx.Length && numGaps < gapIx.Length
      requires Sorted(gapIx[..numGaps]) && EmptyFrom(gapIx[..], numGaps)
      requires size > 0 && node < heap.Length && !heap[node].isAllocated
      modifies this, gapIx
      ensures numGaps == old(numGaps) + 1
      ensures numGaps < gapIx.Length && GAP_IX_INIT_CAPACITY <= gapIx.Length
      ensures gapIx[..numGaps] == Insert(old(gapIx[..numGaps]), Gap(size, node))
      ensures EmptyFrom(gapIx[..], numGaps)
      ensures gapIx == old(gapIx) || fresh(gapIx)
      ensures heap == old(heap) && order == old(order)
      ensures allocSize == old(allocSize) && numAllocs == old(numAllocs) && usedNodes == old(usedNodes)
    {
      ghost var before := gapIx[..numGaps];
      AppendGap(Gap(size, node));
      ghost var mid := gapIx[..];
      assert gapIx[..numGaps - 1] == before && gapIx[numGaps - 1] == Gap(size, node);
      SortGapIx();
      EmptyFromSameTail(gapIx[..], mid, numGaps);
    }

    /**
     * Lines 617-624 of _mem_add_to_gap_ix: grow the index if needed, then
     * write the entry at slot num_gaps and count it.
     */
    method AppendGap(e: Gap)
      requires GAP_IX_INIT_CAPACITY <= gapIx.Length && numGaps < gapIx.Length
      requires EmptyFrom(gapIx[..], numGaps)
      modifies this, gapIx
      ensures numGaps == old(numGaps) + 1
      ensures numGaps < gapIx.Length && GAP_IX_INIT_CAPACITY <= gapIx.Length
      ensures gapIx[..numGaps] == old(gapIx[..numGaps]) + [e]
      ensures EmptyFrom(gapIx[..], numGaps)
      ensures gapIx == old(gapIx) || fresh(gapIx)
      ensures heap == old(heap) && order == old(order)
      ensures allocSize == old(allocSize) && numAllocs == old(numAllocs) && usedNodes == old(usedNodes)
    {
      ghost var before := gapIx[..numGaps];
      ghost var ix0 := gapIx[..];
      ResizeGapIx();
      var n := numGaps;
      var a := gapIx;
      assert a[..n] == before;
      EmptyFromGrown(a[..], ix0, n);
      ghost var grown := a[..];
      a[n] := e;
      EmptyFromSameTail(a[..], grown, n + 1);
      assert a[..n + 1] == before + [e];
      numGaps := n + 1;
    }

    /**
     * _mem_sort_gap_ix (lines 675-711): one backward bubble pass over the
     * index, whose last live entry is new and positive and whose other live
     * entries are sorted.  It leaves the new entry at its insertion position.
     */
    method SortGapIx()
      requires 1 <= numGaps < gapIx.Length
      requires Sorted(gapIx[..numGaps - 1]) && gapIx[numGaps - 1].size > 0
      modifies gapIx
      ensures gapIx[..numGaps] == Insert(old(gapIx[..numGaps - 1]), old(gapIx[numGaps - 1]))
      ensures gapIx[numGaps..] == old(gapIx[numGaps..])
    {
      var n := numGaps;
      var size := gapIx[n].size;
      ghost var p := gapIx[..n - 1];
      ghost var e := gapIx[n - 1];
      ghost var pos := InsertPos(p, e);
      assert gapIx[..n] == p[..n - 1] + [e] + p[n - 1..];
      var i := n - 1;
      while i > 0
        invariant 0 <= i <= n - 1
        invariant gapIx[n..] == old(gapIx[n..])
        invariant pos <= i ==> gapIx[..n] == p[..i] + [e] + p[i..]
        invariant i < pos ==> gapIx[..n] == Insert(p, e)
      {
        BubbleStep(p, e, i, gapIx[..n]);
        if SwapTest(gapIx[i], gapIx[i - 1]) {
          ghost var a := gapIx[..n];
          var tmp := gapIx[i - 1];
          gapIx[i - 1] := gapIx[i];
          gapIx[i] := tmp;
          assert gapIx[..n] == a[i - 1 := a[i]][i := a[i - 1]];
        }
        i := i - 1;
      }
    }

    /**
     * The search of _mem_remove_from_gap_ix (lines 647-654): the first live
     * entry of the gap index for `node`, or num_gaps when there is none.
     */
    method FindGapEntry(node: int) returns (chosen: nat)
      requires numGaps < gapIx.Length
      ensures chosen == FindNode(gapIx[..], numGaps, node, 0)
    {
      var a := gapIx;
      var n := numGaps;
      chosen := n;
      for i := 0 to n
        invariant chosen == n
        invariant forall j :: 0 <= j < i ==> a[j].node != node
      {
        if a[i].node == node {
          chosen := i;
          break;
        }
      }
      FindNodeIs(a[..], n, node, chosen);
    }

    /**
     * _mem_remove_from_gap_ix (lines 643-672): find the first live entry for
     * `node` (or stop at num_gaps), pull every later entry up to and
     * including the one at num_gaps down by one, clear slot num_gaps and
     * count one gap fewer.
     */
    method RemoveFromGapIx(size: nat, node: int)
      requires size > 0 && 0 < numGaps < gapIx.Length
      modifies this, gapIx
      ensures numGaps == old(numGaps) - 1 && gapIx == old(gapIx)
      ensures gapIx[..] == ShiftDown(old(gapIx[..]), old(numGaps), FindNode(old(gapIx[..]), old(numGaps), node, 0))
      ensures heap == old(heap) && order == old(order)
      ensures allocSize == old(allocSize) && numAllocs == old(numAllocs) && usedNodes == old(usedNodes)
    {
      ghost var s := gapIx[..];
      var a := gapIx;
      var n := numGaps;
      var chosen := FindGapEntry(node);
      for i := chosen to n
        modifies a
        invariant forall j :: 0 <= j < chosen ==> a[j] == s[j]
        invariant forall j :: chosen <= j < i ==> a[j] == s[j + 1]
        invariant forall j :: i <= j < a.Length ==> a[j] == s[j]
      {
        a[i] := a[i + 1];
      }
      a[n] := EMPTY_GAP;
      numGaps := n - 1;
      ShiftDownIs(s, a[..], n, chosen);
    }

    /**
     * The scan of the gap index that both BEST_FIT's search (lines 320-328)
     * and the size check (lines 333-342) perform: the first slot, live or
     * cleared, whose size is at least `size`, or gap_ix_capacity when there
     * is none.  On the way it checks what the source asserts: an entry that
     * refers to a node refers to one that is not allocated.
     */
    method FirstSufficientSlot(size: nat) returns (i: nat)
      requires Valid()
      ensures i == FirstSufficient(gapIx[..], size, 0)
    {
      IndexedNodesFree(heap[..], order, gapIx[..], numGaps, usedNodes, numAllocs, allocSize, totalSize);
      i := 0;
      while i < gapIx.Length
        invariant i <= gapIx.Length
        invariant forall j :: 0 <= j < i ==> gapIx[j].size < size
      {
        if gapIx[i].node != NIL {
          assert !heap[gapIx[i].node].isAllocated;
        }
        if gapIx[i].size >= size {
          return;
        }
        i := i + 1;
      }
    }

    /**
     * FIRST_FIT's walk (lines 302-314): from the head of the list, stop at
     * the first node that is free, used and large enough, or at the last
     * node when no node before it is.
     */
    method FirstFitNode(size: nat) returns (c: nat, ghost k: nat)
      requires Valid()
      ensures k < |Segs()| && c == Segs()[k].slot
      ensures forall j :: 0 <= j < k ==> !Fits(Segs()[j], size)
      ensures Fits(Segs()[k], size) || k == |Segs()| - 1
    {
      c, k := 0, 0;
      while heap[c].next != NIL
        invariant k < |order| && c == order[k]
        invariant forall j :: 0 <= j < k ==> !Fits(Segs()[j], size)
        decreases |order| - k
      {
        LinkAt(heap[..], order, k);
        if !heap[c].isAllocated && heap[c].size >= size && heap[c].used {
          break;
        }
        c := heap[c].next;
        k := k + 1;
      }
      LinkAt(heap[..], order, k);
    }

    /**
     * The search for a slot for a new gap node (lines 375-384): the first
     * slot of the node heap that is not in use.
     */
    method FirstUnusedSlot() returns (g: nat)
      requires exists s :: 0 <= s < heap.Length && !heap[s].used
      ensures g < heap.Length && !heap[g].used
      ensures forall s :: 0 <= s < g ==> heap[s].used
    {
      g := 0;
      while heap[g].used
        invariant g < heap.Length
        invariant forall s :: 0 <= s < g ==> heap[s].used
        decreases heap.Length - g
      {
        g := g + 1;
      }
    }

    /**
     * mem_inspect_pool (lines 523-551): walk the list from its head and
     * report each segment's size and allocation flag; the count reported is
     * used_nodes.
     */
    method Inspect() returns (segments: seq<PoolSegment>, numSegments: nat)
      requires Valid()
      ensures segments == Layout(Segs()) && numSegments == |segments|
    {
      var cur: nat := 0;
      ghost var k: nat := 0;
      segments := [];
      while heap[cur].used
        invariant k < |order| && cur == order[k] && |segments| == k
        invariant forall j :: 0 <= j < k ==> segments[j] == PoolSegment(Segs()[j].size, Segs()[j].isAllocated)
        decreases |order| - k
      {
        LinkAt(heap[..], order, k);
        segments := segments + [PoolSegment(heap[cur].size, heap[cur].isAllocated)];
        if heap[cur].next == NIL {
          break;
        }
        cur := heap[cur].next;
        k := k + 1;
      }
      numSegments := usedNodes;
    }

    /**
     * Lines 387-398: slot g becomes a free node of `size` bytes at
     * `offset`, spliced into the list right after node c.
     */
    method LinkGapNode(c: nat, g: nat, offset: nat, size: nat)
      requires c < heap.Length && g < heap.Length
      requires heap[c].next == NIL || 0 <= heap[c].next < heap.Length
      modifies heap
      ensures heap[..] == LinkAfter(old(heap[..]), c, g, offset, size)
    {
      var next := heap[c].next;
      if next != NIL {
        var gNode, nextNode := heap[g], heap[next];
        heap[g] := gNode.(next := next);
        heap[next] := nextNode.(prev := g);
      }
      heap[c] := heap[c].(next := g);
      heap[g] := heap[g].(prev := c);
      heap[g] := heap[g].(size := size, used := true, isAllocated := false, offset := offset);
    }

    /**
     * The unlinking of node b, the successor of node a, that both merges of
     * mem_del_alloc perform (lines 455-464 and 498-506): a and b's successor
     * are linked to each other, and b's slot is left unused with no links.
     */
    method UnlinkNode(a: nat, b: nat)
      requires a < heap.Length && b < heap.Length
      requires heap[b].next == NIL || 0 <= heap[b].next < heap.Length
      modifies heap
      ensures heap[..] == Unlink(old(heap[..]), a, b)
    {
      var next := heap[b].next;
      if next != NIL {
        var nextNode, aNode := heap[next], heap[a];
        heap[next] := nextNode.(prev := a);
        heap[a] := aNode.(next := next);
      } else {
        heap[a] := heap[a].(next := NIL);
      }
      heap[b] := heap[b].(used := false, next := NIL, prev := NIL);
    }

    /**
     * mem_new_alloc (lines 279-415).  The request is refused when the index
     * is empty, when `size` is not below the pool's size or its free bytes,
     * or when no gap can hold it (the size check runs after the heap may
     * have grown, so a refused request can still grow it).  Otherwise the
     * gap the policy selects is split: its node becomes the allocation, and
     * a remainder becomes a new gap in the first unused slot.
     */
    method NewAlloc(size: nat) returns (r: Option<nat>, ghost k: nat, ghost g: nat)
      requires Valid()
      modifies this, heap, gapIx
      ensures Valid()
      ensures r.None? <==> (old(numGaps) == 0 || totalSize <= size || totalSize - old(allocSize) <= size
                            || !HasFit(old(Segs()), size))
      ensures r.None? ==> old(heap.Length) <= heap.Length && heap[..old(heap.Length)] == old(heap[..])
                          && forall j :: old(heap.Length) <= j < heap.Length ==> heap[j] == UNUSED_NODE
      ensures r.None? ==> (Segs() == old(Segs()) && gapIx == old(gapIx) && gapIx[..] == old(gapIx[..])
                           && numGaps == old(numGaps) && numAllocs == old(numAllocs)
                           && allocSize == old(allocSize) && usedNodes == old(usedNodes))
      ensures r.Some? ==> (k < |old(Segs())| && Placed(policy, old(Segs()), size, k) && r.value == old(Segs())[k].slot
                           && Segs() == Split(old(Segs()), k, size, g)
                           && numAllocs == old(numAllocs) + 1 && allocSize == old(allocSize) + size)
      ensures r.Some? && old(Segs())[k].size > size ==> g !in old(order) && forall s :: 0 <= s < g ==> s in old(order)
    {
      k, g := 0, 0;
      if numGaps == 0 {
        return None, k, g;
      }
      if totalSize <= size || totalSize - allocSize <= size {
        return None, k, g;
      }
      r, k, g := AllocateFrom(size);
    }

    /**
     * mem_new_alloc past its early refusals (lines 290-402): grow the node
     * heap if needed, choose a gap, refuse when none can hold `size`
     * bytes, and otherwise split the chosen gap.
     */
    method AllocateFrom(size: nat) returns (r: Option<nat>, ghost k: nat, ghost g: nat)
      requires Valid() && 0 < numGaps && size < totalSize && size < totalSize - allocSize
      modifies this, heap, gapIx
      ensures Valid()
      ensures r.None? <==> !HasFit(old(Segs()), size)
      ensures r.None? ==> old(heap.Length) <= heap.Length && heap[..old(heap.Length)] == old(heap[..])
                          && forall j :: old(heap.Length) <= j < heap.Length ==> heap[j] == UNUSED_NODE
      ensures r.None? ==> (Segs() == old(Segs()) && gapIx == old(gapIx) && gapIx[..] == old(gapIx[..])
                           && numGaps == old(numGaps) && numAllocs == old(numAllocs)
                           && allocSize == old(allocSize) && usedNodes == old(usedNodes))
      ensures r.Some? ==> (k < |old(Segs())| && Placed(policy, old(Segs()), size, k) && r.value == old(Segs())[k].slot
                           && Segs() == Split(old(Segs()), k, size, g)
                           && numAllocs == old(numAllocs) + 1 && allocSize == old(allocSize) + size)
      ensures r.Some? && old(Segs())[k].size > size ==> g !in old(order) && forall s :: 0 <= s < g ==> s in old(order)
    {
      g := 0;
      ghost var segs0 := Segs();
      ResizeNodeHeap();
      assert Segs() == segs0;
      var c, found;
      c, k, found := ChooseGap(size);
      if !found {
        return None, k, g;
      }
      g := Commit(c, size, k);
      assert Segs() == Split(segs0, k, size, g);
      r := Some(c);
    }

    /**
     * The search of mem_new_alloc (lines 303-344): under first fit, the walk
     * from slot 0 stops at the first used gap node of at least `size` bytes
     * or at the list's last node; under best fit, the node of the first
     * index entry of at least `size` bytes.  Then the size check: some
     * index entry must have at least `size` bytes.
     */
    method ChooseGap(size: nat) returns (c: nat, ghost k: nat, found: bool)
      requires Valid() && 0 < numGaps
      ensures found <==> HasFit(Segs(), size)
      ensures found ==> k < |Segs()| && c == Segs()[k].slot && Placed(policy, Segs(), size, k)
    {
      if policy == FirstFit {
        c, k := FirstFitNode(size);
      } else {
        c := 0;
        var i := FirstSufficientSlot(size);
        k := BestFitFromIndex(Segs(), gapIx[..], numGaps, size);
        if i < gapIx.Length {
          c := gapIx[i].node;
        }
      }
      var sizeCheck := FirstSufficientSlot(size);
      ghost var best := BestFitFromIndex(Segs(), gapIx[..], numGaps, size);
      found := sizeCheck < gapIx.Length;
    }

    /**
     * The commit of mem_new_alloc once a gap is chosen (lines 348-402):
     * count the allocation, drop the gap's index entry, turn its node into
     * the allocation, and give a remainder a node in the first unused slot,
     * linked right after, and an index entry.
     */
    method Commit(c: nat, size: nat, ghost k: nat) returns (ghost g: nat)
      requires Valid()
      requires k < |Segs()| && c == Segs()[k].slot && Fits(Segs()[k], size)
      requires allocSize + size < totalSize && usedNodes < heap.Length
      modifies this, heap, gapIx
      ensures Valid()
      ensures heap == old(heap) && (gapIx == old(gapIx) || fresh(gapIx))
      ensures Segs() == Split(old(Segs()), k, size, g)
      ensures old(Segs())[k].size > size ==> g !in old(order) && forall s :: 0 <= s < g ==> s in old(order)
      ensures numAllocs == old(numAllocs) + 1 && allocSize == old(allocSize) + size
      ensures usedNodes == old(usedNodes) + (if old(Segs())[k].size > size then 1 else 0)
      ensures numGaps == old(numGaps) - 1 + (if old(Segs())[k].size > size then 1 else 0)
    {
      ghost var h0, ix0, n0, order0 := heap[..], gapIx[..], numGaps, order;
      ghost var used0, allocs0, asize0 := usedNodes, numAllocs, allocSize;
      assert Segs() == SegsOf(h0, order0) && c == order0[k];
      assert Segs()[k].size == h0[c].size;
      ghost var w := CommitPre(h0, order0, ix0, n0, used0, allocs0, asize0, totalSize, k, size);
      ghost var cSize := h0[c].size;
      g := CommitNodes(c, size, w, k, h0, ix0, n0, cSize);
      CommitOk(h0, order0, ix0, n0, used0, allocs0, asize0, totalSize, k, c, cSize, size, g, gapIx[..], numGaps,
               heap[..], order, usedNodes, numAllocs, allocSize);
    }

    /**
     * The steps of the commit on the arrays: node c, a used gap node, gives
     * `size` bytes to an allocation; ix1 below is the index without c's
     * entry, and the remainder, if any, gets the first unused slot.
     */
    method CommitNodes(c: nat, size: nat, ghost w: nat, ghost k: nat,
                       ghost h0: seq<Node>, ghost ix0: seq<Gap>, ghost n0: nat, ghost cSize: nat)
      returns (ghost g: nat)
      requires heap[..] == h0 && gapIx[..] == ix0 && numGaps == n0
      requires c < |h0| && h0[c].used && cSize == h0[c].size && 0 < cSize && size <= cSize
      requires h0[c].next == NIL || 0 <= h0[c].next < |h0|
      requires w < |h0| && !h0[w].used
      requires 0 < n0 < |ix0|
      requires IndexOk(ShiftDown(ix0, n0, FindNode(ix0, n0, c, 0)), n0 - 1)
      requires k < |order|
      modifies this, heap, gapIx
      ensures heap == old(heap) && (gapIx == old(gapIx) || fresh(gapIx))
      ensures order == AllocOrder(old(order), k, g, cSize - size)
      ensures numAllocs == old(numAllocs) + 1 && allocSize == old(allocSize) + size
      ensures usedNodes == old(usedNodes) + (if cSize > size then 1 else 0)
      ensures g < |h0| && !h0[g].used
      ensures heap[..] == AllocHeap(h0, c, g, size)
      ensures cSize > size ==> FirstUnused(MarkAllocated(h0, c, size), g)
      ensures IndexCommitted(ix0, n0, c, cSize - size, g, gapIx[..], numGaps)
    {
      g := w;
      var oldGapSize := heap[c].size;
      TakeGap(c, size);
      if oldGapSize - size > 0 {
        ghost var h1, live := heap[..], gapIx[..numGaps];
        assert heap[w] == old(heap[w]);
        g := AddGapNode(c, heap[c].offset + size, oldGapSize - size, w);
        assert heap[..] == LinkAfter(h1, c, g, h0[c].offset + size, h0[c].size - size);
        assert gapIx[..numGaps] == Insert(live, Gap(h0[c].size - size, g));
        assert IndexCommitted(ix0, n0, c, h0[c].size - size, g, gapIx[..], numGaps);
      }
      order := AllocOrder(order, k, g, oldGapSize - size);
    }

    /**
     * Lines 348-368: count the allocation, drop the index entry of node c
     * and turn the node into an allocation of `size` bytes.
     */
    method TakeGap(c: nat, size: nat)
      requires c < heap.Length && 0 < heap[c].size && size <= heap[c].size
      requires 0 < numGaps < gapIx.Length
      modifies this, heap, gapIx
      ensures numAllocs == old(numAllocs) + 1 && allocSize == old(allocSize) + size
      ensures gapIx == old(gapIx) && numGaps == old(numGaps) - 1
      ensures gapIx[..] == ShiftDown(old(gapIx[..]), old(numGaps), FindNode(old(gapIx[..]), old(numGaps), c, 0))
      ensures heap == old(heap) && heap[..] == MarkAllocated(old(heap[..]), c, size)
      ensures usedNodes == old(usedNodes) && order == old(order)
    {
      numAllocs := numAllocs + 1;
      allocSize := allocSize + size;
      var oldGapSize := heap[c].size;
      RemoveFromGapIx(oldGapSize, c);
      heap[c] := heap[c].(size := size, isAllocated := true);
    }

    /**
     * Lines 372-401: the remainder of a split gets the first unused slot of
     * the node heap, is linked in right after node c and is indexed.
     */
    method AddGapNode(c: nat, offset: nat, size: nat, ghost w: nat) returns (g: nat)
      requires c < heap.Length && (heap[c].next == NIL || 0 <= heap[c].next < heap.Length)
      requires w < heap.Length && !heap[w].used
      requires GAP_IX_INIT_CAPACITY <= gapIx.Length && numGaps < gapIx.Length
      requires Sorted(gapIx[..numGaps]) && EmptyFrom(gapIx[..], numGaps) && size > 0
      modifies this, heap, gapIx
      ensures heap == old(heap) && g < heap.Length
      ensures FirstUnused(old(heap[..]), g)
      ensures heap[..] == LinkAfter(old(heap[..]), c, g, offset, size)
      ensures usedNodes == old(usedNodes) + 1 && numGaps == old(numGaps) + 1
      ensures numGaps < gapIx.Length && GAP_IX_INIT_CAPACITY <= gapIx.Length
      ensures gapIx[..numGaps] == Insert(old(gapIx[..numGaps]), Gap(size, g))
      ensures EmptyFrom(gapIx[..], numGaps)
      ensures (gapIx == old(gapIx) || fresh(gapIx)) && order == old(order)
      ensures allocSize == old(allocSize) && numAllocs == old(numAllocs)
    {
      g := FirstUnusedSlot();
      assert FirstUnused(heap[..], g);
      LinkGapNode(c, g, offset, size);
      usedNodes := usedNodes + 1;
      AddToGapIx(size, g);
    }

    /**
     * Lines 439-443: the allocation at node c becomes a gap, and the
     * counters forget it.
     */
    method FreeNode(c: nat)
      requires c < heap.Length && 0 < numAllocs && heap[c].size <= allocSize
      modifies this, heap
      ensures heap == old(heap) && heap[..] == old(heap[..])[c := old(heap[c]).(isAllocated := false)]
      ensures numAllocs == old(numAllocs) - 1 && allocSize == old(allocSize) - old(heap[c].size)
      ensures gapIx == old(gapIx) && gapIx[..] == old(gapIx[..]) && numGaps == old(numGaps)
      ensures usedNodes == old(usedNodes) && order == old(order)
    {
      heap[c] := heap[c].(isAllocated := false);
      numAllocs := numAllocs - 1;
      allocSize := allocSize - heap[c].size;
    }

    /**
     * Lines 447-472: the free successor nx of node c is unlinked, its slot
     * becomes unused, its index entry is removed, and c takes over its bytes.
     */
    method MergeNext(c: nat, nx: nat)
      requires c < heap.Length && nx < heap.Length && c != nx
      requires heap[nx].next == NIL || 0 <= heap[nx].next < heap.Length
      requires 0 < heap[nx].size && 0 < numGaps < gapIx.Length
      requires heap[nx].used ==> 0 < usedNodes
      modifies this, heap, gapIx
      ensures heap == old(heap) && heap[..] == MergeNextHeap(old(heap[..]), c, nx)
      ensures gapIx == old(gapIx) && numGaps == old(numGaps) - 1
      ensures gapIx[..] == ShiftDown(old(gapIx[..]), old(numGaps), FindNode(old(gapIx[..]), old(numGaps), nx, 0))
      ensures usedNodes == old(usedNodes) - (if old(heap[nx].used) then 1 else 0)
      ensures numAllocs == old(numAllocs) && allocSize == old(allocSize) && order == old(order)
    {
      if heap[nx].used {
        usedNodes := usedNodes - 1;
      }
      var nxSize := heap[nx].size;
      UnlinkNode(c, nx);
      ghost var h1 := heap[..];
      RemoveFromGapIx(nxSize, nx);
      heap[c] := heap[c].(size := heap[c].size + nxSize);
      assert heap[..] == GrowNode(h1, c, nxSize);
    }

    /** Lines 447-472 with the index bookkeeping: nx's entry leaves the index. */
    method AbsorbNext(c: nat, nx: nat, ghost eN: Gap)
      requires c < heap.Length && nx < heap.Length && c != nx
      requires heap[nx].next == NIL || 0 <= heap[nx].next < heap.Length
      requires 0 < heap[nx].size && (heap[nx].used ==> 0 < usedNodes)
      requires IndexOk(gapIx[..], numGaps)
      requires eN == Gap(heap[nx].size, nx) && eN in multiset(gapIx[..numGaps])
      modifies this, heap, gapIx
      ensures heap == old(heap) && heap[..] == MergeNextHeap(old(heap[..]), c, nx)
      ensures gapIx == old(gapIx) && IndexOk(gapIx[..], numGaps)
      ensures multiset(gapIx[..numGaps]) == old(multiset(gapIx[..numGaps])) - multiset{eN}
      ensures forall i :: 0 <= i < numGaps ==> gapIx[i].node != nx
      ensures usedNodes == old(usedNodes) - (if old(heap[nx].used) then 1 else 0)
      ensures numAllocs == old(numAllocs) && allocSize == old(allocSize) && order == old(order)
    {
      ghost var ix0, n0 := gapIx[..], numGaps;
      IndexRemove(ix0, n0, eN);
      MergeNext(c, nx);
    }

    /**
     * Lines 489-507: the free predecessor p of node c takes over c's bytes,
     * with its index entry re-inserted under the new size, and c is unlinked
     * and its slot becomes unused.
     */
    method MergeIntoPrev(p: nat, c: nat)
      requires p < heap.Length && c < heap.Length && p != c
      requires heap[c].next == NIL || 0 <= heap[c].next < heap.Length
      requires 0 < heap[p].size && !heap[p].isAllocated && 0 < usedNodes
      requires 0 < numGaps < gapIx.Length
      requires IndexOk(ShiftDown(gapIx[..], numGaps, FindNode(gapIx[..], numGaps, p, 0)), numGaps - 1)
      modifies this, heap, gapIx
      ensures heap == old(heap) && heap[..] == MergeIntoPrevHeap(old(heap[..]), p, c)
      ensures gapIx == old(gapIx) || fresh(gapIx)
      ensures numGaps == old(numGaps) && GAP_IX_INIT_CAPACITY <= gapIx.Length && numGaps < gapIx.Length
      ensures EmptyFrom(gapIx[..], numGaps)
      ensures gapIx[..numGaps]
        == Insert(ShiftDown(old(gapIx[..]), old(numGaps), FindNode(old(gapIx[..]), old(numGaps), p, 0))[..old(numGaps) - 1],
                  Gap(old(heap[p].size) + old(heap[c].size), p))
      ensures usedNodes == old(usedNodes) - 1
      ensures numAllocs == old(numAllocs) && allocSize == old(allocSize) && order == old(order)
    {
      ghost var h0, ix0, n0 := heap[..], gapIx[..], numGaps;
      RemoveFromGapIx(heap[p].size, p);
      ghost var live := ShiftDown(ix0, n0, FindNode(ix0, n0, p, 0))[..n0 - 1];
      assert gapIx[..numGaps] == live;
      var grown := heap[p].size + heap[c].size;
      heap[p] := heap[p].(size := grown);
      ghost var h1 := heap[..];
      assert h1 == GrowNode(h0, p, h0[c].size);
      AddToGapIx(grown, p);
      ghost var ix2 := gapIx[..];
      assert ix2[..numGaps] == Insert(live, Gap(grown, p));
      UnlinkNode(p, c);
      assert heap[..] == Unlink(h1, p, c);
      usedNodes := usedNodes - 1;
      assert gapIx[..] == ix2;
    }

    /**
     * Lines 489-507 with the index bookkeeping: the free predecessor p's
     * entry is replaced by one for its grown size, and c leaves the list.
     */
    method AbsorbIntoPrev(p: nat, c: nat, ghost pSize: nat, ghost e: Gap)
      requires p < heap.Length && c < heap.Length && p != c
      requires heap[c].next == NIL || 0 <= heap[c].next < heap.Length
      requires 0 < heap[p].size && !heap[p].isAllocated && 0 < usedNodes
      requires IndexOk(gapIx[..], numGaps) && Gap(pSize, p) in multiset(gapIx[..numGaps])
      requires pSize == heap[p].size && e == Gap(pSize + heap[c].size, p)
      modifies this, heap, gapIx
      ensures heap == old(heap) && heap[..] == MergeIntoPrevHeap(old(heap[..]), p, c)
      ensures gapIx == old(gapIx) || fresh(gapIx)
      ensures IndexOk(gapIx[..], numGaps)
      ensures multiset(gapIx[..numGaps]) == old(multiset(gapIx[..numGaps])) - multiset{Gap(pSize, p)} + multiset{e}
      ensures usedNodes == old(usedNodes) - 1
      ensures numAllocs == old(numAllocs) && allocSize == old(allocSize) && order == old(order)
    {
      ghost var ix0, n0 := gapIx[..], numGaps;
      assert 0 < numGaps && IndexOk(ShiftDown(ix0, n0, FindNode(ix0, n0, p, 0)), n0 - 1) by {
        IndexRemove(ix0, n0, Gap(pSize, p));
      }
      MergeIntoPrev(p, c);
      assert Gap(pSize, p).node == p;
      RegrowIndexed(ix0, n0, Gap(pSize, p), e, gapIx[..], numGaps);
    }

    /** Lines 509-512 with the index bookkeeping: the freed node c gets its own entry. */
    method IndexFreed(c: nat)
      requires c < heap.Length && !heap[c].isAllocated && 0 < heap[c].size
      requires IndexOk(gapIx[..], numGaps)
      requires forall i :: 0 <= i < numGaps ==> gapIx[i].node != c
      modifies this, gapIx
      ensures (gapIx == old(gapIx) || fresh(gapIx)) && IndexOk(gapIx[..], numGaps)
      ensures multiset(gapIx[..numGaps]) == old(multiset(gapIx[..numGaps])) + multiset{Gap(old(heap[c].size), c)}
      ensures heap == old(heap) && order == old(order)
      ensures allocSize == old(allocSize) && numAllocs == old(numAllocs) && usedNodes == old(usedNodes)
    {
      ghost var ix0, n0 := gapIx[..], numGaps;
      AddToGapIx(heap[c].size, c);
      IndexInsert(ix0, n0, Gap(heap[c].size, c), gapIx[..]);
    }

    /**
     * The rewrites of mem_del_alloc (lines 439-512) for the allocated node c,
     * whose list neighbours are nx (absorbed when nextFree) and p (absorbing
     * when prevFree): on the arrays they perform ReleaseHeap, and the index
     * loses the absorbed entries and gains the coalesced gap's.
     */
    method ReleaseNodes(c: nat, ghost nx: nat, ghost nextFree: bool, ghost p: nat, ghost prevFree: bool)
      requires ReleaseReady(heap[..], gapIx[..], numGaps, usedNodes, numAllocs, allocSize, c, nx, nextFree, p, prevFree)
      modifies this, heap, gapIx
      ensures heap == old(heap) && (gapIx == old(gapIx) || fresh(gapIx))
      ensures heap[..] == ReleaseHeap(old(heap[..]), c, nx, nextFree, p, prevFree)
      ensures order == old(order)
      ensures numAllocs == old(numAllocs) - 1 && allocSize == old(allocSize) - old(heap[c].size)
      ensures usedNodes == old(usedNodes) - Merges(nextFree, prevFree)
      ensures IndexOk(gapIx[..], numGaps)
      ensures multiset(gapIx[..numGaps])
        == old(multiset(gapIx[..numGaps])) - AbsorbedGaps(old(heap[..]), nx, nextFree, p, prevFree)
           + multiset{MergedGap(old(heap[..]), c, nx, nextFree, p, prevFree)}
    {
      ghost var h0, M0 := heap[..], multiset(gapIx[..numGaps]);
      ReleaseHead(c, nx, nextFree, !prevFree);
      ghost var B := if prevFree then multiset{Gap(h0[p].size, p)} else multiset{};
      ghost var M2 := multiset(gapIx[..numGaps]);
      ReleaseTail(c, p, prevFree, h0[p].size, B, MergedGap(h0, c, nx, nextFree, p, prevFree));
      ReleasedIndex(h0, c, nx, nextFree, p, prevFree, M0, M2, multiset(gapIx[..numGaps]));
    }

    /**
     * mem_del_alloc (lines 417-521). The source asserts that the record is
     * allocated, and _mem_add_to_gap_ix asserts a non-empty gap, so the
     * record is the segment at some position k that FreeableAt admits. The
     * search walks the list from the head slot as lines 428-431 do; it stops
     * at c, since c is listed.
     */
    method DelAlloc(c: nat, ghost k: nat) returns (status: AllocStatus)
      requires Valid() && k < |Segs()| && c == Segs()[k].slot && FreeableAt(Segs(), k)
      modifies this, heap, gapIx
      ensures status == AllocOk && Valid()
      ensures Segs() == Coalesce(old(Segs()), k)
      ensures numAllocs == old(numAllocs) - 1 && allocSize == old(allocSize) - old(Segs())[k].size
      ensures usedNodes == old(usedNodes) - Merges(NextFree(old(Segs()), k), PrevFree(old(Segs()), k))
    {
      assert Segs() == SegsOf(heap[..], order) && order[k] == c;
      var node := FindListed(c, k);
      Release(node, k);
      status := AllocOk;
    }

    /** Lines 427-431: the walk along the list from the head slot to the listed node c. */
    method FindListed(c: nat, ghost k: nat) returns (node: nat)
      requires ListOk(heap[..], order) && k < |order| && order[k] == c
      ensures node == c
    {
      node := 0;
      ghost var j := 0;
      while node != c && heap[node].next != NIL
        invariant j < |order| && node == order[j]
        invariant forall i :: 0 <= i < j ==> order[i] != c
        decreases |order| - j
      {
        LinkAt(heap[..], order, j);
        node := heap[node].next;
        j := j + 1;
      }
      LinkAt(heap[..], order, j);
    }

    /** The free of the segment at position k, on a valid pool (lines 439-512). */
    method Release(c: nat, ghost k: nat)
      requires Valid() && k < |Segs()| && c == Segs()[k].slot && FreeableAt(Segs(), k)
      modifies this, heap, gapIx
      ensures Valid()
      ensures Segs() == Coalesce(old(Segs()), k)
      ensures numAllocs == old(numAllocs) - 1 && allocSize == old(allocSize) - old(Segs())[k].size
      ensures usedNodes == old(usedNodes) - Merges(NextFree(old(Segs()), k), PrevFree(old(Segs()), k))
    {
      ghost var h0, ix0, n0, order0 := heap[..], gapIx[..], numGaps, order;
      ghost var used0, allocs0, asize0 := usedNodes, numAllocs, allocSize;
      assert Segs() == SegsOf(h0, order0) && c == order0[k];
      ghost var nx, nextFree, p, prevFree := NeighboursAt(h0, order0, k);
      DelPre(h0, order0, ix0, n0, used0, allocs0, asize0, totalSize, k, c, nx, nextFree, p, prevFree);
      ReleaseNodes(c, nx, nextFree, p, prevFree);
      order := FreeOrder(h0, order, k);
      DelOk(h0, order0, ix0, n0, used0, allocs0, asize0, totalSize, k, c, nx, nextFree, p, prevFree,
            heap[..], order, gapIx[..], numGaps, usedNodes, numAllocs, allocSize);
    }

    /**
     * Lines 439-472: node c is freed and, when its successor nx is free,
     * absorbs it; the index loses nx's entry. When `cleared`, no entry names c.
     */
    method ReleaseHead(c: nat, ghost nx: nat, ghost nextFree: bool, ghost cleared: bool)
      requires c < heap.Length && nx < heap.Length
      requires 0 < numAllocs && heap[c].size <= allocSize && heap[c].isAllocated && heap[c].used
      requires heap[c].next == NIL || 0 <= heap[c].next < heap.Length
      requires heap[c].next != c
      requires nextFree <==> heap[c].next != NIL && !heap[heap[c].next].isAllocated
      requires nextFree ==> heap[c].next == nx && 0 < heap[nx].size && 0 < usedNodes && heap[nx].next != c
                            && (heap[nx].next == NIL || 0 <= heap[nx].next < heap.Length)
      requires IndexOk(gapIx[..], numGaps)
      requires nextFree ==> Gap(heap[nx].size, nx) in multiset(gapIx[..numGaps])
      requires cleared ==> forall i :: 0 <= i < numGaps ==> gapIx[i].node != c
      modifies this, heap, gapIx
      ensures heap == old(heap) && gapIx == old(gapIx) && IndexOk(gapIx[..], numGaps)
      ensures heap[..] == if nextFree then MergeNextHeap(old(heap[..])[c := old(heap[c]).(isAllocated := false)], c, nx)
                          else old(heap[..])[c := old(heap[c]).(isAllocated := false)]
      ensures multiset(gapIx[..numGaps])
        == old(multiset(gapIx[..numGaps])) - (if nextFree then multiset{Gap(old(heap[nx].size), nx)} else multiset{})
      ensures cleared ==> forall i :: 0 <= i < numGaps ==> gapIx[i].node != c
      ensures numAllocs == old(numAllocs) - 1 && allocSize == old(allocSize) - old(heap[c].size)
      ensures usedNodes == old(usedNodes) - (if nextFree && old(heap[nx].used) then 1 else 0)
      ensures order == old(order)
      ensures heap[c].used && !heap[c].isAllocated && heap[c].prev == old(heap[c].prev)
      ensures heap[c].size == old(heap[c].size) + (if nextFree then old(heap[nx].size) else 0)
      ensures heap[c].next == NIL || 0 <= heap[c].next < heap.Length
      ensures forall i :: 0 <= i < heap.Length && i != c ==> heap[i].isAllocated == old(heap[i].isAllocated)
      ensures forall i :: 0 <= i < heap.Length && i != c && i != nx ==> heap[i].size == old(heap[i].size)
    {
      ghost var h0, ix0, n0 := heap[..], gapIx[..], numGaps;
      ghost var eN := Gap(h0[nx].size, nx);
      FreeNode(c);
      var next := heap[c].next;
      if next != NIL && !heap[next].isAllocated {
        assert heap[nx] == h0[nx];
        AbsorbNext(c, next, eN);
        if cleared {
          SubOfRemoved(multiset(gapIx[..numGaps]), multiset(ix0[..n0]), eN);
          NoNodeKept(ix0, n0, gapIx[..], numGaps, c);
        }
      }
      MergeNextKeeps(h0, c, nx, nextFree, heap[..]);
    }

    /**
     * Lines 489-512: a free predecessor p absorbs node c; otherwise c's own
     * entry is added to the index.
     */
    method ReleaseTail(c: nat, ghost p: nat, ghost prevFree: bool, ghost pSize: nat,
                       ghost absorbed: multiset<Gap>, ghost e: Gap)
      requires c < heap.Length && p < heap.Length && heap[c].used && !heap[c].isAllocated
      requires IndexOk(gapIx[..], numGaps)
      requires heap[c].next == NIL || 0 <= heap[c].next < heap.Length
      requires heap[c].prev == NIL || 0 <= heap[c].prev < heap.Length
      requires prevFree <==> heap[c].prev != NIL && !heap[heap[c].prev].isAllocated
      requires prevFree ==> heap[c].prev == p && p != c && 0 < heap[p].size && 0 < usedNodes
                            && pSize == heap[p].size && Gap(pSize, p) in multiset(gapIx[..numGaps])
      requires !prevFree ==> 0 < heap[c].size && forall i :: 0 <= i < numGaps ==> gapIx[i].node != c
      requires absorbed == if prevFree then multiset{Gap(pSize, p)} else multiset{}
      requires e == Gap((if prevFree then pSize else 0) + heap[c].size, if prevFree then p else c)
      modifies this, heap, gapIx
      ensures heap == old(heap) && (gapIx == old(gapIx) || fresh(gapIx))
      ensures heap[..] == if prevFree then MergeIntoPrevHeap(old(heap[..]), p, c) else old(heap[..])
      ensures usedNodes == old(usedNodes) - (if prevFree then 1 else 0)
      ensures IndexOk(gapIx[..], numGaps)
      ensures multiset(gapIx[..numGaps]) == old(multiset(gapIx[..numGaps])) - absorbed + multiset{e}
      ensures numAllocs == old(numAllocs) && allocSize == old(allocSize) && order == old(order)
    {
      var prev := heap[c].prev;
      if prev != NIL && !heap[prev].isAllocated {
        AbsorbIntoPrev(prev, c, pSize, e);
      } else {
        IndexFreed(c);
      }
    }
  }
}
