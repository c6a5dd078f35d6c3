/**
 * The invariant of one pool manager, stated on snapshots of its arrays, and
 * the lemmas that carry it across the steps of mem_new_alloc and
 * mem_del_alloc.  MemPool's methods perform the steps on the arrays; the
 * reasoning about sequences that shows the invariant survives lives here.
 */
module PoolState {
  import opened PoolTypes
  import opened GapOrder
  import opened Segments
  import opened NodeList
  import opened HeapEdits

  function ClearedNodes(n: nat): (r: seq<Node>)
    ensures |r| == n && forall i :: 0 <= i < n ==> r[i] == UNUSED_NODE
  {
    seq(n, _ => UNUSED_NODE)
  }

  function ClearedGaps(n: nat): (r: seq<Gap>)
    ensures |r| == n && forall i :: 0 <= i < n ==> r[i] == EMPTY_GAP
  {
    seq(n, _ => EMPTY_GAP)
  }

  /**
   * The invariant of one pool manager, on a snapshot of its state: the
   * node list is well formed and describes a valid segment list, the
   * counters agree with it, and the live prefix of the gap index holds
   * exactly the entries of its free segments, in index order.
   */
  ghost predicate PoolOk(h: seq<Node>, order: seq<nat>, ix: seq<Gap>, numGaps: nat,
                         usedNodes: nat, numAllocs: nat, allocSize: nat, total: nat)
  {
    && ListOk(h, order)
    && SegsOk(SegsOf(h, order), total)
    && usedNodes == |order| && usedNodes <= |h|
    && numAllocs == CountAlloc(SegsOf(h, order)) && allocSize == SumAlloc(SegsOf(h, order))
    && allocSize <= total && (total == 0 ==> numAllocs == 0)
    && IndexOk(ix, numGaps)
    && multiset(ix[..numGaps]) == multiset(FreeEntries(SegsOf(h, order)))
  }

  /**
   * The gap index's shape: room for one more entry, the live prefix sorted
   * by (size, node) with one entry per node, and every slot after it cleared.
   */
  ghost predicate IndexOk(ix: seq<Gap>, numGaps: nat)
  {
    && GAP_IX_INIT_CAPACITY <= |ix| && numGaps < |ix|
    && Sorted(ix[..numGaps]) && NodesDistinct(ix[..numGaps]) && EmptyFrom(ix, numGaps)
  }

  /** Growing the node heap with unused slots keeps the invariant. */
  lemma PoolOkGrowHeap(h: seq<Node>, order: seq<nat>, ix: seq<Gap>, numGaps: nat,
                       usedNodes: nat, numAllocs: nat, allocSize: nat, total: nat, n: nat)
    requires PoolOk(h, order, ix, numGaps, usedNodes, numAllocs, allocSize, total)
    ensures PoolOk(h + ClearedNodes(n), order, ix, numGaps, usedNodes, numAllocs, allocSize, total)
    ensures SegsOf(h + ClearedNodes(n), order) == SegsOf(h, order)
  {
    GrowHeap(h, order, ClearedNodes(n));
  }

  /**
   * The source asserts, while scanning the gap index (lines 321-323 and
   * 335-337), that an entry with a node refers to a node that is not
   * allocated.  Under the invariant every such entry is live and refers to
   * a free node of the list.
   */
  lemma IndexedNodesFree(h: seq<Node>, order: seq<nat>, ix: seq<Gap>, numGaps: nat,
                         usedNodes: nat, numAllocs: nat, allocSize: nat, total: nat)
    requires PoolOk(h, order, ix, numGaps, usedNodes, numAllocs, allocSize, total)
    ensures forall i :: 0 <= i < |ix| && ix[i].node != NIL ==>
      i < numGaps && 0 <= ix[i].node < |h| && ix[i].node in order && !h[ix[i].node].isAllocated
  {
    var segs := SegsOf(h, order);
    forall i | 0 <= i < |ix| && ix[i].node != NIL
      ensures i < numGaps && 0 <= ix[i].node < |h| && ix[i].node in order && !h[ix[i].node].isAllocated
    {
      assert i < numGaps;
      var m := IndexedIsFree(segs, ix, numGaps, i);
      assert segs[m] == SegOf(h, order[m]);
    }
  }

  /** An entry of the live index is one of its first n slots. */
  lemma LiveEntry(ix: seq<Gap>, n: nat, e: Gap) returns (m: nat)
    requires n <= |ix| && e in multiset(ix[..n])
    ensures m < n && ix[m] == e
  {
    assert e in ix[..n];
    var j :| 0 <= j < n && ix[..n][j] == e;
    m := j;
  }

  /** A free segment's entry is in an index of the free segments. */
  lemma FreeIsIndexed(segs: seq<Seg>, ix: seq<Gap>, n: nat, j: nat)
    requires n <= |ix| && multiset(ix[..n]) == multiset(FreeEntries(segs))
    requires j < |segs| && !segs[j].isAllocated
    ensures Entry(segs[j]) in multiset(ix[..n])
  {
    FreeEntryOf(segs, j);
    assert Entry(segs[j]) in multiset(FreeEntries(segs));
  }

  /** A live entry of an index of the free segments is the entry of one of them. */
  lemma IndexedIsFree(segs: seq<Seg>, ix: seq<Gap>, n: nat, i: nat) returns (m: nat)
    requires n <= |ix| && multiset(ix[..n]) == multiset(FreeEntries(segs)) && i < n
    ensures m < |segs| && !segs[m].isAllocated && Entry(segs[m]) == ix[i]
  {
    assert ix[..n][i] == ix[i];
    assert ix[i] in multiset(ix[..n]);
    assert ix[i] in FreeEntries(segs);
    m := FreeEntryFrom(segs, ix[i]);
  }

  /**
   * BEST_FIT through the index: the first slot of the index whose size is
   * at least `size` exists exactly when some free segment can hold `size`,
   * and it is the entry of a best-fitting segment.
   */
  lemma BestFitFromIndex(segs: seq<Seg>, ix: seq<Gap>, n: nat, size: nat) returns (k: nat)
    requires IndexOk(ix, n) && multiset(ix[..n]) == multiset(FreeEntries(segs))
    requires size > 0 || n > 0
    ensures var i := FirstSufficient(ix, size, 0);
      && (i < |ix| <==> HasFit(segs, size))
      && (i < |ix| ==> k < |segs| && Entry(segs[k]) == ix[i] && IsBestFit(segs, size, k))
  {
    var i := FirstSufficient(ix, size, 0);
    FirstSufficientIsLeast(ix, n, size);
    if HasFit(segs, size) {
      var j :| 0 <= j < |segs| && Fits(segs[j], size);
      FreeIsIndexed(segs, ix, n, j);
      var m := LiveEntry(ix, n, Entry(segs[j]));
      assert ix[m].size >= size;
    }
    k := 0;
    if i < |ix| {
      k := IndexedIsFree(segs, ix, n, i);
      forall j | 0 <= j < |segs| && Fits(segs[j], size)
        ensures Le(Entry(segs[k]), Entry(segs[j]))
      {
        FreeIsIndexed(segs, ix, n, j);
        var m := LiveEntry(ix, n, Entry(segs[j]));
      }
    }
  }

  /**
   * No live entry refers to a slot that holds no free segment: the index
   * holds entries of free segments only.
   */
  lemma NotIndexed(segs: seq<Seg>, p: seq<Gap>, x: int)
    requires multiset(p) <= multiset(FreeEntries(segs))
    requires forall m :: 0 <= m < |segs| && !segs[m].isAllocated ==> segs[m].slot != x
    ensures forall i :: 0 <= i < |p| ==> p[i].node != x
  {
    forall i | 0 <= i < |p|
      ensures p[i].node != x
    {
      assert p[i] in multiset(p);
      assert p[i] in FreeEntries(segs);
      var m := FreeEntryFrom(segs, p[i]);
    }
  }


  /**
   * The shift-down delete of an indexed entry keeps the index well formed,
   * removes exactly that entry and leaves none for its node.
   */
  lemma IndexRemove(ix: seq<Gap>, n: nat, e: Gap)
    requires IndexOk(ix, n) && e in multiset(ix[..n])
    ensures 0 < n && FindNode(ix, n, e.node, 0) < n
    ensures var r := ShiftDown(ix, n, FindNode(ix, n, e.node, 0));
      && IndexOk(r, n - 1)
      && multiset(r[..n - 1]) == multiset(ix[..n]) - multiset{e}
      && (forall i :: 0 <= i < n - 1 ==> r[i].node != e.node)
  {
    RemoveEntry(ix, n, e);
  }

  /**
   * Appending an entry for a node the index does not hold and bubbling it
   * into place keeps the index well formed and adds exactly that entry.
   */
  lemma IndexInsert(ix: seq<Gap>, n: nat, e: Gap, ix2: seq<Gap>)
    requires IndexOk(ix, n) && forall i :: 0 <= i < n ==> ix[i].node != e.node
    requires GAP_IX_INIT_CAPACITY <= |ix2| && n + 1 < |ix2| && EmptyFrom(ix2, n + 1)
    requires ix2[..n + 1] == Insert(ix[..n], e)
    ensures IndexOk(ix2, n + 1)
    ensures multiset(ix2[..n + 1]) == multiset(ix[..n]) + multiset{e}
  {
    InsertSorted(ix[..n], e);
    InsertDistinct(ix[..n], e);
  }

  /**
   * Allocating `size` bytes from the gap at position k of the list, with g
   * an unused slot, keeps the pool invariant: the heap after the rewrites
   * describes the split list, the counters count one allocation of `size`
   * more, and an index that lost the gap's entry and gained the
   * remainder's is the index of the split list.
   */
  lemma AllocPoolOk(h: seq<Node>, order: seq<nat>, ix: seq<Gap>, n: nat, used: nat, allocs: nat,
                    asize: nat, total: nat, k: nat, c: nat, cSize: nat, size: nat, residual: int, g: nat,
                    ix2: seq<Gap>, n2: nat)
    requires PoolOk(h, order, ix, n, used, allocs, asize, total)
    requires k < |order| && c == order[k] && c < |h| && cSize == h[c].size && residual == cSize - size
    requires Fits(SegsOf(h, order)[k], size) && asize + size < total
    requires g < |h| && !h[g].used && used < |h|
    requires IndexOk(ix2, n2)
    requires multiset(ix2[..n2]) == multiset(ix[..n]) - multiset{Entry(SegsOf(h, order)[k])}
      + (if cSize - size > 0 then multiset{Gap(cSize - size, g)} else multiset{})
    ensures forall m :: 0 <= m < |AllocOrder(order, k, g, residual)| ==>
      AllocOrder(order, k, g, residual)[m] < |AllocHeap(h, c, g, size)|
    ensures SegsOf(AllocHeap(h, c, g, size), AllocOrder(order, k, g, residual)) == Split(SegsOf(h, order), k, size, g)
    ensures PoolOk(AllocHeap(h, c, g, size), AllocOrder(order, k, g, residual), ix2, n2,
                   used + (if residual > 0 then 1 else 0), allocs + 1, asize + size, total)
  {
    AllocListOk(h, order, used, allocs, asize, total, k, c, cSize, size, residual, g);
    AllocIndexed(h, order, ix, n, k, c, cSize, size, g, ix2, n2);
  }

  /** The heap half of AllocPoolOk: the list and its segments. */
  lemma AllocListOk(h: seq<Node>, order: seq<nat>, used: nat, allocs: nat, asize: nat, total: nat,
                    k: nat, c: nat, cSize: nat, size: nat, residual: int, g: nat)
    requires ListOk(h, order) && SegsOk(SegsOf(h, order), total) && used == |order| && used < |h|
    requires allocs == CountAlloc(SegsOf(h, order)) && asize == SumAlloc(SegsOf(h, order))
    requires k < |order| && c == order[k] && cSize == h[c].size && residual == cSize - size
    requires Fits(SegsOf(h, order)[k], size)
    requires g < |h| && !h[g].used
    ensures ListOk(AllocHeap(h, c, g, size), AllocOrder(order, k, g, residual))
    ensures forall m :: 0 <= m < |AllocOrder(order, k, g, residual)| ==>
      AllocOrder(order, k, g, residual)[m] < |AllocHeap(h, c, g, size)|
    ensures SegsOf(AllocHeap(h, c, g, size), AllocOrder(order, k, g, residual)) == Split(SegsOf(h, order), k, size, g)
    ensures SegsOk(Split(SegsOf(h, order), k, size, g), total)
    ensures |AllocOrder(order, k, g, residual)| == used + (if residual > 0 then 1 else 0)
    ensures |AllocOrder(order, k, g, residual)| <= |AllocHeap(h, c, g, size)|
    ensures CountAlloc(Split(SegsOf(h, order), k, size, g)) == allocs + 1
    ensures SumAlloc(Split(SegsOf(h, order), k, size, g)) == asize + size
  {
    var segs := SegsOf(h, order);
    assert segs[k].size == cSize;
    AllocHeapOk(h, order, k, size, g);
    SegsOfSlots(h, order);
    SplitReplacement(segs, k, size, g, total);
    SplitCounters(segs, k, size, g);
  }

  /** The index half of AllocPoolOk: the index is that of the split list. */
  lemma AllocIndexed(h: seq<Node>, order: seq<nat>, ix: seq<Gap>, n: nat, k: nat, c: nat, cSize: nat,
                     size: nat, g: nat, ix2: seq<Gap>, n2: nat)
    requires forall m :: 0 <= m < |order| ==> order[m] < |h|
    requires n <= |ix| && multiset(ix[..n]) == multiset(FreeEntries(SegsOf(h, order)))
    requires k < |order| && c == order[k] && c < |h| && cSize == h[c].size
    requires Fits(SegsOf(h, order)[k], size)
    requires n2 <= |ix2|
    requires multiset(ix2[..n2]) == multiset(ix[..n]) - multiset{Entry(SegsOf(h, order)[k])}
      + (if cSize - size > 0 then multiset{Gap(cSize - size, g)} else multiset{})
    ensures multiset(ix2[..n2]) == multiset(FreeEntries(Split(SegsOf(h, order), k, size, g)))
  {
    var segs := SegsOf(h, order);
    assert segs[k].size == cSize;
    SplitIndexed(segs, ix, n, k, size, g);
  }

  /**
   * Splitting a gap trades its entry in an index of the free segments for
   * the remainder's, when there is a remainder.
   */
  lemma SplitIndexed(segs: seq<Seg>, ix: seq<Gap>, n: nat, k: nat, size: nat, g: nat)
    requires n <= |ix| && multiset(ix[..n]) == multiset(FreeEntries(segs))
    requires k < |segs| && Fits(segs[k], size)
    ensures multiset(FreeEntries(Split(segs, k, size, g)))
      == multiset(ix[..n]) - multiset{Entry(segs[k])}
         + (if segs[k].size - size > 0 then multiset{Gap(segs[k].size - size, g)} else multiset{})
  {
    SplitTrade(FreeEntries(segs), FreeEntries(Split(segs, k, size, g)), ix[..n], Entry(segs[k]),
               if segs[k].size - size > 0 then multiset{Gap(segs[k].size - size, g)} else multiset{})
      by {
        SplitEntries(segs, k, size, g);
        FreeEntryOf(segs, k);
      }
  }

  /** SplitIndexed over the entries alone. */
  lemma SplitTrade(before: seq<Gap>, after: seq<Gap>, live: seq<Gap>, e: Gap, x: multiset<Gap>)
    requires multiset(live) == multiset(before) && e in before
    requires multiset(after) + multiset{e} == multiset(before) + x
    ensures multiset(after) == multiset(live) - multiset{e} + x
  {
    MultisetTrade(multiset(after), multiset(before), e, x);
  }

  lemma MultisetTrade(after: multiset<Gap>, before: multiset<Gap>, e: Gap, x: multiset<Gap>)
    requires after + multiset{e} == before + x && e in before
    ensures after == before - multiset{e} + x
  {
    MultisetTradeAll(after, before, multiset{e}, x);
  }

  /** Multiset cancellation: what is added to both sides can be taken away. */
  lemma MultisetTradeAll(after: multiset<Gap>, before: multiset<Gap>, gone: multiset<Gap>, x: multiset<Gap>)
    requires after + gone == before + x && gone <= before
    ensures after == before - gone + x
  {
    forall y
      ensures after[y] == (before - gone + x)[y]
    {
      assert (after + gone)[y] == (before + x)[y];
    }
  }

  /**
   * Freeing the allocation at position k of the list keeps the pool
   * invariant: the heap after the rewrites describes the coalesced list,
   * the counters count one allocation fewer and one node fewer per merge,
   * and an index that lost the absorbed neighbours' entries and gained the
   * merged gap's is the index of the coalesced list.
   */
  lemma DelPoolOk(h: seq<Node>, order: seq<nat>, ix: seq<Gap>, n: nat, used: nat, allocs: nat,
                  asize: nat, total: nat, k: nat, ix2: seq<Gap>, n2: nat,
                  h2: seq<Node>, order2: seq<nat>, used2: nat, allocs2: nat, asize2: nat)
    requires PoolOk(h, order, ix, n, used, allocs, asize, total)
    requires k < |order| && FreeableAt(SegsOf(h, order), k)
    requires IndexOk(ix2, n2)
    requires multiset(ix2[..n2]) == multiset(ix[..n]) - AbsorbedEntries(SegsOf(h, order), k)
      + multiset{Gap(CoalescedSize(SegsOf(h, order), k), SegsOf(h, order)[CoalescedIndex(SegsOf(h, order), k)].slot)}
    requires h2 == FreeHeap(h, order, k) && order2 == FreeOrder(h, order, k)
    requires used2 == used - Merges(NextFree(SegsOf(h, order), k), PrevFree(SegsOf(h, order), k))
    requires allocs2 == allocs - 1 && asize2 == asize - SegsOf(h, order)[k].size
    ensures forall m :: 0 <= m < |order2| ==> order2[m] < |h2|
    ensures SegsOf(h2, order2) == Coalesce(SegsOf(h, order), k)
    ensures PoolOk(h2, order2, ix2, n2, used2, allocs2, asize2, total)
  {
    DelListOk(h, order, used, allocs, asize, total, k, h2, order2, used2, allocs2, asize2);
    DelIndexed(SegsOf(h, order), ix, n, k, total, ix2, n2);
  }

  /** The heap half of DelPoolOk: the list, its segments and the counters. */
  lemma DelListOk(h: seq<Node>, order: seq<nat>, used: nat, allocs: nat, asize: nat, total: nat, k: nat,
                  h2: seq<Node>, order2: seq<nat>, used2: nat, allocs2: nat, asize2: nat)
    requires ListOk(h, order) && SegsOk(SegsOf(h, order), total) && used == |order| && used <= |h|
    requires allocs == CountAlloc(SegsOf(h, order)) && asize == SumAlloc(SegsOf(h, order))
    requires k < |order| && FreeableAt(SegsOf(h, order), k)
    requires h2 == FreeHeap(h, order, k) && order2 == FreeOrder(h, order, k)
    requires used2 == used - Merges(NextFree(SegsOf(h, order), k), PrevFree(SegsOf(h, order), k))
    requires allocs2 == allocs - 1 && asize2 == asize - SegsOf(h, order)[k].size
    ensures ListOk(h2, order2) && (forall m :: 0 <= m < |order2| ==> order2[m] < |h2|)
    ensures SegsOf(h2, order2) == Coalesce(SegsOf(h, order), k)
    ensures SegsOk(Coalesce(SegsOf(h, order), k), total)
    ensures |order2| == used2 && used2 <= |h2|
    ensures CountAlloc(Coalesce(SegsOf(h, order), k)) == allocs2 && SumAlloc(Coalesce(SegsOf(h, order), k)) == asize2
  {
    FreeHeapOk(h, order, k);
    CoalesceOk(SegsOf(h, order), k, total);
  }

  /** The index half of DelPoolOk: the index is that of the coalesced list. */
  lemma DelIndexed(segs: seq<Seg>, ix: seq<Gap>, n: nat, k: nat, total: nat, ix2: seq<Gap>, n2: nat)
    requires SegsOk(segs, total) && FreeableAt(segs, k)
    requires n <= |ix| && multiset(ix[..n]) == multiset(FreeEntries(segs))
    requires n2 <= |ix2|
    requires multiset(ix2[..n2]) == multiset(ix[..n]) - AbsorbedEntries(segs, k)
        + multiset{Gap(CoalescedSize(segs, k), segs[CoalescedIndex(segs, k)].slot)}
    ensures multiset(ix2[..n2]) == multiset(FreeEntries(Coalesce(segs, k)))
  {
    var r := Coalesce(segs, k);
    var i := CoalescedIndex(segs, k);
    CoalesceOk(segs, k, total);
    var merged := multiset{Gap(CoalescedSize(segs, k), segs[i].slot)};
    assert multiset{Entry(r[i])} == merged;
    AbsorbedIndexed(segs, ix, n, k);
    MultisetTradeAll(multiset(FreeEntries(r)), multiset(FreeEntries(segs)), AbsorbedEntries(segs, k), merged);
  }

  /** The neighbours a free absorbs are indexed. */
  lemma AbsorbedIndexed(segs: seq<Seg>, ix: seq<Gap>, n: nat, k: nat)
    requires SlotsDistinct(segs) && k < |segs|
    requires n <= |ix| && multiset(ix[..n]) == multiset(FreeEntries(segs))
    ensures AbsorbedEntries(segs, k) <= multiset(ix[..n])
  {
    if NextFree(segs, k) {
      FreeIsIndexed(segs, ix, n, k + 1);
    }
    if PrevFree(segs, k) {
      FreeIsIndexed(segs, ix, n, k - 1);
    }
    if NextFree(segs, k) && PrevFree(segs, k) {
      assert segs[k - 1].slot != segs[k + 1].slot;
      assert Entry(segs[k - 1]) != Entry(segs[k + 1]);
    }
  }

  /**
   * The gap index after the commit of mem_new_alloc: ix2 is ix with the
   * entry of node c removed by the shift-down delete and, when residual
   * bytes remain, the entry of node g inserted by the bubble pass.
   */
  predicate IndexCommitted(ix: seq<Gap>, n: nat, c: nat, residual: int, g: nat, ix2: seq<Gap>, n2: nat)
    requires 0 < n < |ix|
  {
    var ix1 := ShiftDown(ix, n, FindNode(ix, n, c, 0));
    && (residual == 0 ==> ix2 == ix1 && n2 == n - 1)
    && (residual > 0 ==> && n2 == n && GAP_IX_INIT_CAPACITY <= |ix2| && n2 < |ix2| && EmptyFrom(ix2, n2)
                         && ix2[..n2] == Insert(ix1[..n - 1], Gap(residual, g)))
  }

  /**
   * The commit of mem_new_alloc, on snapshots: the gap's entry removed by
   * the shift-down delete and, when bytes remain, the remainder's entry
   * inserted by the bubble pass, leave the index of the split list; the
   * rewritten heap describes the split list, the counters count one
   * allocation of `size` more, and the remainder's slot is the least slot
   * the list did not hold.
   */
  lemma CommitOk(h: seq<Node>, order: seq<nat>, ix: seq<Gap>, n: nat, used: nat, allocs: nat,
                 asize: nat, total: nat, k: nat, c: nat, cSize: nat, size: nat, g: nat, ix2: seq<Gap>, n2: nat,
                 h2: seq<Node>, order2: seq<nat>, used2: nat, allocs2: nat, asize2: nat)
    requires PoolOk(h, order, ix, n, used, allocs, asize, total)
    requires k < |order| && c == order[k] && c < |h| && cSize == h[c].size
    requires Fits(SegsOf(h, order)[k], size) && asize + size < total
    requires g < |h| && !h[g].used && used < |h| && 0 < n
    requires IndexCommitted(ix, n, c, cSize - size, g, ix2, n2)
    requires cSize > size ==> FirstUnused(MarkAllocated(h, c, size), g)
    requires h2 == AllocHeap(h, c, g, size)
    requires order2 == AllocOrder(order, k, g, cSize - size)
    requires used2 == used + (if cSize > size then 1 else 0)
    requires allocs2 == allocs + 1 && asize2 == asize + size
    ensures cSize > size ==> g !in order && forall s :: 0 <= s < g ==> s in order
    ensures (forall m :: 0 <= m < |order2| ==> order2[m] < |h2|)
    ensures SegsOf(h2, order2) == Split(SegsOf(h, order), k, size, g)
    ensures PoolOk(h2, order2, ix2, n2, used2, allocs2, asize2, total)
  {
    var segs := SegsOf(h, order);
    var ix1 := ShiftDown(ix, n, FindNode(ix, n, c, 0));
    assert Entry(segs[k]) == Gap(cSize, c);
    assert forall m :: 0 <= m < |segs| && !segs[m].isAllocated ==> segs[m].slot != g by {
      forall m | 0 <= m < |segs| && !segs[m].isAllocated
        ensures segs[m].slot != g
      {
        assert segs[m].slot == order[m];
      }
    }
    assert IndexOk(ix1, n - 1) && multiset(ix1[..n - 1]) == multiset(ix[..n]) - multiset{Entry(segs[k])} by {
      FreeIsIndexed(segs, ix, n, k);
      IndexRemove(ix, n, Entry(segs[k]));
    }
    CommitIndexed(segs, ix, n, k, size, g, ix1, ix2, n2, cSize - size);
    AllocPoolOk(h, order, ix, n, used, allocs, asize, total, k, c, cSize, size, cSize - size, g, ix2, n2);
    if cSize > size {
      FirstUnusedIsLeastFree(h, order, c, size, g);
    }
  }

  /**
   * What the commit of mem_new_alloc needs of the state it starts from:
   * the chosen node is a used gap node with a valid successor link, an
   * unused slot exists (w is one), and the index stays well formed once
   * the node's entry is deleted.
   */
  lemma CommitPre(h: seq<Node>, order: seq<nat>, ix: seq<Gap>, n: nat, used: nat, allocs: nat,
                  asize: nat, total: nat, k: nat, size: nat) returns (w: nat)
    requires PoolOk(h, order, ix, n, used, allocs, asize, total)
    requires k < |order| && Fits(SegsOf(h, order)[k], size) && used < |h| && 0 < total
    ensures var c := order[k];
      && c < |h| && h[c].used && 0 < h[c].size && size <= h[c].size
      && (h[c].next == NIL || 0 <= h[c].next < |h|)
      && w < |h| && !h[w].used
      && 0 < n < |ix|
      && IndexOk(ShiftDown(ix, n, FindNode(ix, n, c, 0)), n - 1)
  {
    var segs := SegsOf(h, order);
    var c := order[k];
    assert segs[k] == SegOf(h, c);
    FreeIsIndexed(segs, ix, n, k);
    IndexRemove(ix, n, Entry(segs[k]));
    UnusedSlotExists(h, order);
    w :| 0 <= w < |h| && !h[w].used;
    LinkAt(h, order, k);
  }

  /**
   * The index half of CommitOk: ix1 is the index with the gap's entry
   * removed, ix2 that index with the remainder's entry inserted, if any.
   */
  lemma CommitIndexed(segs: seq<Seg>, ix: seq<Gap>, n: nat, k: nat, size: nat, g: int,
                      ix1: seq<Gap>, ix2: seq<Gap>, n2: nat, residual: int)
    requires 0 < n <= |ix| && multiset(ix[..n]) == multiset(FreeEntries(segs))
    requires k < |segs| && Fits(segs[k], size)
    requires forall m :: 0 <= m < |segs| && !segs[m].isAllocated ==> segs[m].slot != g
    requires IndexOk(ix1, n - 1) && multiset(ix1[..n - 1]) == multiset(ix[..n]) - multiset{Entry(segs[k])}
    requires residual == segs[k].size - size
    requires residual == 0 ==> ix2 == ix1 && n2 == n - 1
    requires residual > 0 ==> && n2 == n && GAP_IX_INIT_CAPACITY <= |ix2| && n2 < |ix2| && EmptyFrom(ix2, n2)
                              && ix2[..n2] == Insert(ix1[..n - 1], Gap(residual, g))
    ensures IndexOk(ix2, n2)
    ensures multiset(ix2[..n2]) == multiset(ix[..n]) - multiset{Entry(segs[k])}
        + (if residual > 0 then multiset{Gap(residual, g)} else multiset{})
  {
    if residual > 0 {
      SubOfRemoved(multiset(ix1[..n - 1]), multiset(ix[..n]), Entry(segs[k]));
      NotIndexed(segs, ix1[..n - 1], g);
      IndexInsert(ix1, n - 1, Gap(residual, g), ix2);
    }
  }

  /** What is left after removing an entry is part of what there was. */
  lemma SubOfRemoved(a: multiset<Gap>, b: multiset<Gap>, e: Gap)
    requires a == b - multiset{e}
    ensures a <= b
  {
    forall x | x in a
      ensures a[x] <= b[x]
    {
    }
  }

  /** How many neighbours a free absorbs. */
  function Merges(nextFree: bool, prevFree: bool): nat
  {
    (if nextFree then 1 else 0) + (if prevFree then 1 else 0)
  }

  /**
   * The index entries mem_del_alloc removes, read off the heap h it starts
   * from: that of the absorbed successor nx and that of the absorbing
   * predecessor p.
   */
  function AbsorbedGaps(h: seq<Node>, nx: nat, nextFree: bool, p: nat, prevFree: bool): multiset<Gap>
    requires nx < |h| && p < |h|
  {
    (if nextFree then multiset{Gap(h[nx].size, nx)} else multiset{})
    + (if prevFree then multiset{Gap(h[p].size, p)} else multiset{})
  }

  /** The index entry mem_del_alloc adds: the coalesced gap, held by p or by c. */
  function MergedGap(h: seq<Node>, c: nat, nx: nat, nextFree: bool, p: nat, prevFree: bool): Gap
    requires c < |h| && nx < |h| && p < |h|
  {
    Gap((if prevFree then h[p].size else 0) + h[c].size + (if nextFree then h[nx].size else 0),
        if prevFree then p else c)
  }

  /**
   * The index after a free: first the successor's entry leaves (M1), then the
   * predecessor's entry leaves and the merged gap's arrives (M2).
   */
  lemma ReleasedIndex(h: seq<Node>, c: nat, nx: nat, nextFree: bool, p: nat, prevFree: bool,
                      M0: multiset<Gap>, M1: multiset<Gap>, M2: multiset<Gap>)
    requires c < |h| && nx < |h| && p < |h|
    requires M1 == M0 - (if nextFree then multiset{Gap(h[nx].size, nx)} else multiset{})
    requires M2 == M1 - (if prevFree then multiset{Gap(h[p].size, p)} else multiset{})
                  + multiset{MergedGap(h, c, nx, nextFree, p, prevFree)}
    ensures M2 == M0 - AbsorbedGaps(h, nx, nextFree, p, prevFree) + multiset{MergedGap(h, c, nx, nextFree, p, prevFree)}
  {
    RemoveTwice(M0, if nextFree then multiset{Gap(h[nx].size, nx)} else multiset{},
                if prevFree then multiset{Gap(h[p].size, p)} else multiset{});
  }

  /**
   * The state mem_pool_open builds is well formed and describes one free
   * segment spanning the pool.
   */
  lemma OpenOk(h: seq<Node>, g: seq<Gap>, size: nat)
    requires |h| == NODE_HEAP_INIT_CAPACITY && h[0] == Node(0, size, true, false, NIL, NIL)
    requires forall j :: 1 <= j < |h| ==> h[j] == UNUSED_NODE
    requires |g| == GAP_IX_INIT_CAPACITY && g[0] == Gap(size, 0)
    requires forall j :: 1 <= j < |g| ==> g[j] == EMPTY_GAP
    ensures SegsOf(h, [0]) == [Seg(0, size, false, 0)]
    ensures PoolOk(h, [0], g, 1, 1, 0, 0, size)
  {
    var s := Seg(0, size, false, 0);
    assert SegsOf(h, [0])[0] == s;
    assert SegsOf(h, [0]) == [s];
    CountersSingle(s);
    assert g[..1] == [Gap(size, 0)];
  }

  /**
   * An index that had the entry eP deleted and then e, for the same node,
   * inserted is well formed and holds e in place of eP.
   */
  lemma RegrowIndexed(ix: seq<Gap>, n: nat, eP: Gap, e: Gap, ix2: seq<Gap>, n2: nat)
    requires IndexOk(ix, n)
    requires eP in multiset(ix[..n])
    requires e.node == eP.node
    requires n2 == n
    requires GAP_IX_INIT_CAPACITY <= |ix2| && n2 < |ix2|
    requires EmptyFrom(ix2, n2)
    requires 0 < n
    requires ix2[..n2] == Insert(ShiftDown(ix, n, FindNode(ix, n, eP.node, 0))[..n - 1], e)
    ensures IndexOk(ix2, n2)
    ensures multiset(ix2[..n2]) == multiset(ix[..n]) - multiset{eP} + multiset{e}
  {
    IndexRemove(ix, n, eP);
    IndexInsert(ShiftDown(ix, n, FindNode(ix, n, eP.node, 0)), n - 1, e, ix2);
  }

  /** Removing a then b removes a + b. */
  lemma RemoveTwice(m: multiset<Gap>, a: multiset<Gap>, b: multiset<Gap>)
    ensures m - a - b == m - (a + b)
  {
    forall x
      ensures (m - a - b)[x] == (m - (a + b))[x]
    {
    }
  }

  /** Entries kept from an index without an entry for x have none either. */
  lemma NoNodeKept(ix: seq<Gap>, n: nat, r: seq<Gap>, m: nat, x: int)
    requires n <= |ix| && m <= |r| && multiset(r[..m]) <= multiset(ix[..n])
    requires forall i :: 0 <= i < n ==> ix[i].node != x
    ensures forall i :: 0 <= i < m ==> r[i].node != x
  {
    forall i | 0 <= i < m
      ensures r[i].node != x
    {
      assert r[..m][i] in multiset(r[..m]);
      assert r[i] in multiset(ix[..n]);
      var j :| 0 <= j < n && ix[..n][j] == r[i];
    }
  }

  /**
   * The neighbours of position k of the list as mem_del_alloc reads them
   * (lines 446 and 488): nx follows c and p precedes it, each taken part in
   * the free only when it exists and is free; an absent one is named c.
   */
  ghost predicate Neighbours(h: seq<Node>, order: seq<nat>, k: nat, c: nat,
                             nx: nat, nextFree: bool, p: nat, prevFree: bool)
  {
    && k < |order| && (forall m :: 0 <= m < |order| ==> order[m] < |h|) && c == order[k]
    && nx == (if k + 1 < |order| then order[k + 1] else c)
    && p == (if k > 0 then order[k - 1] else c)
    && nextFree == (k + 1 < |order| && !h[order[k + 1]].isAllocated)
    && prevFree == (k > 0 && !h[order[k - 1]].isAllocated)
  }

  /** The neighbours of position k of the list. */
  lemma NeighboursAt(h: seq<Node>, order: seq<nat>, k: nat) returns (nx: nat, nextFree: bool, p: nat, prevFree: bool)
    requires k < |order| && forall m :: 0 <= m < |order| ==> order[m] < |h|
    ensures Neighbours(h, order, k, order[k], nx, nextFree, p, prevFree)
  {
    nx := if k + 1 < |order| then order[k + 1] else order[k];
    p := if k > 0 then order[k - 1] else order[k];
    nextFree := k + 1 < |order| && !h[order[k + 1]].isAllocated;
    prevFree := k > 0 && !h[order[k - 1]].isAllocated;
  }

  /**
   * What the rewrites of mem_del_alloc need of the arrays: c is an allocated
   * listed node, its links are in range, nextFree and prevFree say whether
   * its neighbours nx and p are free, the merged gap is not empty, and the
   * index holds the neighbours' entries and, when c keeps its slot in the
   * index, none for c.
   */
  ghost predicate ReleaseReady(h: seq<Node>, ix: seq<Gap>, n: nat, used: nat, allocs: nat, asize: nat,
                               c: nat, nx: nat, nextFree: bool, p: nat, prevFree: bool)
  {
    && c < |h| && nx < |h| && p < |h|
    && h[c].isAllocated && h[c].used && 0 < allocs && h[c].size <= asize
    && (h[c].next == NIL || 0 <= h[c].next < |h|) && h[c].next != c
    && (nextFree <==> h[c].next != NIL && !h[h[c].next].isAllocated)
    && (nextFree ==> h[c].next == nx && nx != c && 0 < h[nx].size && h[nx].used
                     && h[nx].next != c && (h[nx].next == NIL || 0 <= h[nx].next < |h|))
    && (h[c].prev == NIL || 0 <= h[c].prev < |h|) && h[c].prev != c
    && (prevFree <==> h[c].prev != NIL && !h[h[c].prev].isAllocated)
    && (prevFree ==> h[c].prev == p && p != c && p != nx && 0 < h[p].size)
    && (!prevFree ==> 0 < h[c].size + (if nextFree then h[nx].size else 0))
    && Merges(nextFree, prevFree) <= used
    && IndexOk(ix, n)
    && (nextFree ==> Gap(h[nx].size, nx) in multiset(ix[..n]))
    && (prevFree ==> Gap(h[p].size, p) in multiset(ix[..n])
                       - (if nextFree then multiset{Gap(h[nx].size, nx)} else multiset{}))
    && (!prevFree ==> forall i :: 0 <= i < n ==> ix[i].node != c)
  }

  /** A valid pool is ready for the free at any position FreeableAt admits. */
  lemma DelPre(h: seq<Node>, order: seq<nat>, ix: seq<Gap>, n: nat, used: nat, allocs: nat,
               asize: nat, total: nat, k: nat, c: nat, nx: nat, nextFree: bool, p: nat, prevFree: bool)
    requires PoolOk(h, order, ix, n, used, allocs, asize, total)
    requires FreeableAt(SegsOf(h, order), k) && Neighbours(h, order, k, c, nx, nextFree, p, prevFree)
    ensures ReleaseReady(h, ix, n, used, allocs, asize, c, nx, nextFree, p, prevFree)
  {
    DelPreLinks(h, order, ix, n, used, allocs, asize, total, k, c, nx, nextFree, p, prevFree);
    DelPreIndex(h, order, ix, n, used, allocs, asize, total, k, c, nx, nextFree, p, prevFree);
  }

  /** The link facts the rewrites of mem_del_alloc rely on, read off a valid pool. */
  lemma DelPreLinks(h: seq<Node>, order: seq<nat>, ix: seq<Gap>, n: nat, used: nat, allocs: nat,
                    asize: nat, total: nat, k: nat, c: nat, nx: nat, nextFree: bool, p: nat, prevFree: bool)
    requires PoolOk(h, order, ix, n, used, allocs, asize, total)
    requires FreeableAt(SegsOf(h, order), k) && Neighbours(h, order, k, c, nx, nextFree, p, prevFree)
    ensures c < |h| && nx < |h| && p < |h|
    ensures h[c].isAllocated && h[c].used && 0 < allocs && h[c].size <= asize
    ensures (h[c].next == NIL || 0 <= h[c].next < |h|) && h[c].next != c
    ensures nextFree <==> h[c].next != NIL && !h[h[c].next].isAllocated
    ensures nextFree ==> h[c].next == nx && nx != c && 0 < h[nx].size && h[nx].used
                         && h[nx].next != c && (h[nx].next == NIL || 0 <= h[nx].next < |h|)
    ensures (h[c].prev == NIL || 0 <= h[c].prev < |h|) && h[c].prev != c
    ensures prevFree <==> h[c].prev != NIL && !h[h[c].prev].isAllocated
    ensures prevFree ==> h[c].prev == p && p != c && p != nx && 0 < h[p].size
    ensures !prevFree ==> 0 < h[c].size + (if nextFree then h[nx].size else 0)
    ensures Merges(nextFree, prevFree) <= used
  {
    var segs := SegsOf(h, order);
    assert segs[k] == SegOf(h, c);
    assert 0 < allocs && h[c].size <= asize && 0 < total by {
      CoalesceOk(segs, k, total);
    }
    assert GapsPositive(segs);
    LinkAt(h, order, k);
    DelNextLinks(h, order, k, c, nx, nextFree, p, prevFree);
    if k > 0 {
      assert segs[k - 1] == SegOf(h, p);
      assert order[k - 1] != order[k];
    }
    if nextFree && prevFree {
      assert order[k - 1] != order[k + 1];
    }
  }

  /** The successor's half of DelPreLinks. */
  lemma DelNextLinks(h: seq<Node>, order: seq<nat>, k: nat, c: nat, nx: nat, nextFree: bool, p: nat, prevFree: bool)
    requires ListOk(h, order) && Neighbours(h, order, k, c, nx, nextFree, p, prevFree)
    ensures nx < |h| && (h[c].next == NIL || 0 <= h[c].next < |h|) && h[c].next != c
    ensures nextFree <==> h[c].next != NIL && !h[h[c].next].isAllocated
    ensures nextFree ==> h[c].next == nx && nx != c && h[nx].used
                         && h[nx].next != c && (h[nx].next == NIL || 0 <= h[nx].next < |h|)
  {
    LinkAt(h, order, k);
    if k + 1 < |order| {
      LinkAt(h, order, k + 1);
      assert order[k + 1] != order[k];
      if k + 2 < |order| {
        assert order[k + 2] != order[k];
      }
    }
  }

  /** The index facts the rewrites of mem_del_alloc rely on, read off a valid pool. */
  lemma DelPreIndex(h: seq<Node>, order: seq<nat>, ix: seq<Gap>, n: nat, used: nat, allocs: nat,
                    asize: nat, total: nat, k: nat, c: nat, nx: nat, nextFree: bool, p: nat, prevFree: bool)
    requires PoolOk(h, order, ix, n, used, allocs, asize, total)
    requires FreeableAt(SegsOf(h, order), k) && Neighbours(h, order, k, c, nx, nextFree, p, prevFree)
    ensures nx < |h| && p < |h|
    ensures nextFree ==> Gap(h[nx].size, nx) in multiset(ix[..n])
    ensures prevFree ==> Gap(h[p].size, p) in multiset(ix[..n])
                           - (if nextFree then multiset{Gap(h[nx].size, nx)} else multiset{})
    ensures !prevFree ==> forall i :: 0 <= i < n ==> ix[i].node != c
  {
    var segs := SegsOf(h, order);
    assert AbsorbedGaps(h, nx, nextFree, p, prevFree) <= multiset(ix[..n]) by {
      AbsorbedIndexed(segs, ix, n, k);
      GapsAsEntries(h, order, k, c, nx, nextFree, p, prevFree);
    }
    AbsorbedIn(multiset(ix[..n]), Gap(h[nx].size, nx), Gap(h[p].size, p), nextFree, prevFree);
    AllocNotIndexed(segs, ix, n, k, c);
  }

  /** What the index holds of the absorbed neighbours' entries, one at a time. */
  lemma AbsorbedIn(live: multiset<Gap>, a: Gap, b: Gap, nextFree: bool, prevFree: bool)
    requires (if nextFree then multiset{a} else multiset{}) + (if prevFree then multiset{b} else multiset{}) <= live
    ensures nextFree ==> a in live
    ensures prevFree ==> b in live - (if nextFree then multiset{a} else multiset{})
  {
    var A := if nextFree then multiset{a} else multiset{};
    var B := if prevFree then multiset{b} else multiset{};
    assert B <= live - A by {
      forall y
        ensures B[y] <= (live - A)[y]
      {
        assert (A + B)[y] <= live[y];
      }
    }
    if nextFree {
      assert a in A;
    }
    if prevFree {
      assert b in B;
    }
  }

  /** An allocated segment has no entry in an index of the free segments. */
  lemma AllocNotIndexed(segs: seq<Seg>, ix: seq<Gap>, n: nat, k: nat, c: nat)
    requires SlotsDistinct(segs) && k < |segs| && segs[k].isAllocated && segs[k].slot == c
    requires n <= |ix| && multiset(ix[..n]) == multiset(FreeEntries(segs))
    ensures forall i :: 0 <= i < n ==> ix[i].node != c
  {
    NotIndexed(segs, ix[..n], c);
    forall i | 0 <= i < n
      ensures ix[i].node != c
    {
      assert ix[..n][i] == ix[i];
    }
  }

  /**
   * Freeing position k, as the arrays do it, keeps the pool invariant and
   * coalesces the segment list.
   */
  lemma DelOk(h: seq<Node>, order: seq<nat>, ix: seq<Gap>, n: nat, used: nat, allocs: nat,
              asize: nat, total: nat, k: nat, c: nat, nx: nat, nextFree: bool, p: nat, prevFree: bool,
              h2: seq<Node>, order2: seq<nat>, ix2: seq<Gap>, n2: nat, used2: nat, allocs2: nat, asize2: nat)
    requires PoolOk(h, order, ix, n, used, allocs, asize, total)
    requires FreeableAt(SegsOf(h, order), k) && Neighbours(h, order, k, c, nx, nextFree, p, prevFree)
    requires IndexOk(ix2, n2)
    requires multiset(ix2[..n2]) == multiset(ix[..n]) - AbsorbedGaps(h, nx, nextFree, p, prevFree)
                                     + multiset{MergedGap(h, c, nx, nextFree, p, prevFree)}
    requires h2 == ReleaseHeap(h, c, nx, nextFree, p, prevFree) && order2 == FreeOrder(h, order, k)
    requires used2 == used - Merges(nextFree, prevFree) && allocs2 == allocs - 1 && asize2 == asize - h[c].size
    ensures forall m :: 0 <= m < |order2| ==> order2[m] < |h2|
    ensures SegsOf(h2, order2) == Coalesce(SegsOf(h, order), k)
    ensures PoolOk(h2, order2, ix2, n2, used2, allocs2, asize2, total)
    ensures asize2 == asize - SegsOf(h, order)[k].size
    ensures used2 == used - Merges(NextFree(SegsOf(h, order), k), PrevFree(SegsOf(h, order), k))
  {
    GapsAsEntries(h, order, k, c, nx, nextFree, p, prevFree);
    assert h2 == FreeHeap(h, order, k) by {
      FreeHeapIsRelease(h, order, k, nx, p);
    }
    DelPoolOk(h, order, ix, n, used, allocs, asize, total, k, ix2, n2, h2, order2, used2, allocs2, asize2);
  }

  /** The heap-level names of the absorbed and merged entries are their segment-level ones. */
  lemma GapsAsEntries(h: seq<Node>, order: seq<nat>, k: nat, c: nat, nx: nat, nextFree: bool, p: nat, prevFree: bool)
    requires Neighbours(h, order, k, c, nx, nextFree, p, prevFree)
    ensures NextFree(SegsOf(h, order), k) == nextFree && PrevFree(SegsOf(h, order), k) == prevFree
    ensures c < |h| && SegsOf(h, order)[k].size == h[c].size
    ensures AbsorbedGaps(h, nx, nextFree, p, prevFree) == AbsorbedEntries(SegsOf(h, order), k)
    ensures MergedGap(h, c, nx, nextFree, p, prevFree)
      == Gap(CoalescedSize(SegsOf(h, order), k), SegsOf(h, order)[CoalescedIndex(SegsOf(h, order), k)].slot)
  {
    NeighbourSegs(h, order, k, c, nx, nextFree, p, prevFree);
  }

  /** The segments of c and its neighbours are read off their slots. */
  lemma NeighbourSegs(h: seq<Node>, order: seq<nat>, k: nat, c: nat, nx: nat, nextFree: bool, p: nat, prevFree: bool)
    requires Neighbours(h, order, k, c, nx, nextFree, p, prevFree)
    ensures c < |h| && nx < |h| && p < |h| && SegsOf(h, order)[k] == SegOf(h, c)
    ensures nextFree == NextFree(SegsOf(h, order), k)
    ensures nextFree ==> SegsOf(h, order)[k + 1] == SegOf(h, nx)
    ensures prevFree == PrevFree(SegsOf(h, order), k)
    ensures prevFree ==> SegsOf(h, order)[k - 1] == SegOf(h, p)
  {
  }

  /**
   * mem_pool_close's guard (lines 250-257): a pool with exactly one gap and
   * no allocation is exactly a pool that is one free segment over its whole
   * size.  Of the two tests the allocation count alone decides it.
   */
  lemma ClosableIsPristine(h: seq<Node>, order: seq<nat>, ix: seq<Gap>, n: nat, used: nat, allocs: nat,
                           asize: nat, total: nat)
    requires PoolOk(h, order, ix, n, used, allocs, asize, total)
    ensures (n == 1 && allocs == 0) <==> Pristine(SegsOf(h, order), total)
    ensures allocs == 0 ==> n == 1
  {
    var segs := SegsOf(h, order);
    NothingAllocatedIsPristine(segs, total);
    assert |multiset(ix[..n])| == n;
  }
}
