/**
 * The node-heap rewrites of mem_new_alloc and mem_del_alloc, each shown to
 * keep the list well formed and to perform the corresponding edit of the
 * segment list: allocation splits a gap, freeing coalesces.
 */
module HeapEdits {
  import opened PoolTypes
  import opened Segments
  import opened NodeList

  /**
   * mem_new_alloc's node rewrites (lines 366-398): node c becomes an
   * allocation of `size` bytes and, when bytes remain, unused slot g becomes
   * the gap node holding them, linked right after c.
   */
  function AllocHeap(h: seq<Node>, c: nat, g: nat, size: nat): (r: seq<Node>)
    requires c < |h| && g < |h| && size <= h[c].size
    ensures |r| == |h|
  {
    var residual := h[c].size - size;
    if residual > 0 then LinkAfter(MarkAllocated(h, c, size), c, g, h[c].offset + size, residual)
    else MarkAllocated(h, c, size)
  }

  /** Lines 366-368: node c shrinks to `size` bytes and is marked allocated. */
  function MarkAllocated(h: seq<Node>, c: nat, size: nat): seq<Node>
    requires c < |h|
  {
    h[c := h[c].(size := size, isAllocated := true)]
  }

  /** The list after AllocHeap: g joins it right after c when bytes remain. */
  function AllocOrder(order: seq<nat>, k: nat, g: nat, residual: nat): (r: seq<nat>)
    requires k < |order|
    ensures |r| == |order| + (if residual > 0 then 1 else 0)
  {
    if residual > 0 then order[..k + 1] + [g] + order[k + 1..] else order
  }

  /** Allocating from the gap at position k splits that gap. */
  lemma AllocHeapOk(h: seq<Node>, order: seq<nat>, k: nat, size: nat, g: nat)
    requires ListOk(h, order) && k < |order| && Fits(SegsOf(h, order)[k], size)
    requires g < |h| && !h[g].used
    ensures var c := order[k];
      var h' := AllocHeap(h, c, g, size);
      var order' := AllocOrder(order, k, g, h[c].size - size);
      && ListOk(h', order')
      && SegsOf(h', order') == Split(SegsOf(h, order), k, size, g)
  {
    var c := order[k];
    var segs := SegsOf(h, order);
    var residual := h[c].size - size;
    MarkAllocatedOk(h, order, k, size);
    var h1 := MarkAllocated(h, c, size);
    assert h1[g] == h[g];
    if residual > 0 {
      AllocWithRemainderOk(h1, order, k, segs, size, g);
      assert AllocHeap(h, c, g, size) == LinkAfter(h1, c, g, segs[k].offset + size, segs[k].size - size);
      assert AllocOrder(order, k, g, residual) == order[..k + 1] + [g] + order[k + 1..];
    } else {
      SplitAsEdit(segs, k, size, g);
      assert AllocHeap(h, c, g, size) == h1;
      assert AllocOrder(order, k, g, residual) == order;
    }
  }

  /**
   * The gap is larger than the request: once node c is marked allocated
   * (giving h1), a gap node for the rest is linked after it.
   */
  lemma AllocWithRemainderOk(h1: seq<Node>, order: seq<nat>, k: nat, segs: seq<Seg>, size: nat, g: nat)
    requires ListOk(h1, order) && k < |order| && k < |segs| && size < segs[k].size
    requires SegsOf(h1, order) == segs[k := segs[k].(size := size, isAllocated := true)]
    requires g < |h1| && !h1[g].used
    ensures var h' := LinkAfter(h1, order[k], g, segs[k].offset + size, segs[k].size - size);
      var order' := order[..k + 1] + [g] + order[k + 1..];
      && ListOk(h', order')
      && SegsOf(h', order') == Split(segs, k, size, g)
  {
    LinkAfterOk(h1, order, k, g, segs[k].offset + size, segs[k].size - size);
    SplitAsEdit(segs, k, size, g);
  }

  lemma MarkAllocatedOk(h: seq<Node>, order: seq<nat>, k: nat, size: nat)
    requires ListOk(h, order) && k < |order|
    ensures ListOk(MarkAllocated(h, order[k], size), order)
    ensures SegsOf(MarkAllocated(h, order[k], size), order)
      == SegsOf(h, order)[k := SegsOf(h, order)[k].(size := size, isAllocated := true)]
  {
    UpdateInPlace(h, order, k, h[order[k]].(size := size, isAllocated := true));
  }

  /** Split, as an update of the gap in place followed by an insertion after it. */
  lemma SplitAsEdit(segs: seq<Seg>, k: nat, size: nat, slot: nat)
    requires k < |segs| && size <= segs[k].size
    ensures var s1 := segs[k := segs[k].(size := size, isAllocated := true)];
      var residual := segs[k].size - size;
      && (residual > 0 ==>
            Split(segs, k, size, slot) == s1[..k + 1] + [Seg(segs[k].offset + size, residual, false, slot)] + s1[k + 1..])
      && (residual == 0 ==> Split(segs, k, size, slot) == s1)
  {
    var s1 := segs[k := segs[k].(size := size, isAllocated := true)];
    assert s1[..k + 1] == segs[..k] + [s1[k]];
    assert s1[k + 1..] == segs[k + 1..];
  }

  /**
   * The first rewrite of mem_del_alloc (line 439): the node at c is marked
   * free, which frees its segment in place.
   */
  lemma MarkFreeOk(h: seq<Node>, order: seq<nat>, k: nat)
    requires ListOk(h, order) && k < |order|
    ensures var c := order[k];
      var h' := h[c := h[c].(isAllocated := false)];
      && ListOk(h', order)
      && SegsOf(h', order) == SegsOf(h, order)[k := SegsOf(h, order)[k].(isAllocated := false)]
  {
    UpdateInPlace(h, order, k, h[order[k]].(isAllocated := false));
  }

  /**
   * Lines 450-472: the free successor n of node c is unlinked, its slot
   * becomes unused, and c takes over its bytes.
   */
  function MergeNextHeap(h: seq<Node>, c: nat, n: nat): seq<Node>
    requires c < |h| && n < |h|
  {
    GrowNode(Unlink(h, c, n), c, h[n].size)
  }

  /** Node c takes over d more bytes. */
  function GrowNode(h: seq<Node>, c: nat, d: nat): seq<Node>
    requires c < |h|
  {
    h[c := h[c].(size := h[c].size + d)]
  }

  lemma MergeNextOk(h: seq<Node>, order: seq<nat>, k: nat)
    requires ListOk(h, order) && k + 1 < |order| && !h[order[k + 1]].isAllocated
    ensures var h' := MergeNextHeap(h, order[k], order[k + 1]);
      var order' := order[..k + 1] + order[k + 2..];
      && ListOk(h', order')
      && SegsOf(h', order') == AbsorbNext(SegsOf(h, order), k)
  {
    var c := order[k];
    var n := order[k + 1];
    var segs := SegsOf(h, order);
    var order2 := order[..k + 1] + order[k + 2..];
    UnlinkOk(h, order, k + 1);
    var h2 := Unlink(h, c, n);
    assert order2[k] == c;
    GrowInPlace(h2, order2, k, h[n].size);
    AbsorbNextAsEdit(segs, k);
  }

  /** Growing the node at position k by d bytes grows its segment in place. */
  lemma GrowInPlace(h: seq<Node>, order: seq<nat>, k: nat, d: nat)
    requires ListOk(h, order) && k < |order|
    ensures ListOk(GrowNode(h, order[k], d), order)
    ensures SegsOf(GrowNode(h, order[k], d), order)
      == SegsOf(h, order)[k := SegsOf(h, order)[k].(size := SegsOf(h, order)[k].size + d)]
  {
    var c := order[k];
    UpdateInPlace(h, order, k, h[c].(size := h[c].size + d));
  }

  /** AbsorbNext drops the successor, then grows the segment at k in place. */
  lemma AbsorbNextAsEdit(segs: seq<Seg>, k: nat)
    requires k + 1 < |segs| && !segs[k + 1].isAllocated
    ensures AbsorbNext(segs, k)
      == (segs[..k + 1] + segs[k + 2..])[k := segs[k].(size := segs[k].size + segs[k + 1].size)]
  {
    var merged := segs[k].(size := segs[k].size + segs[k + 1].size);
    var t := segs[..k + 1] + segs[k + 2..];
    assert t[k := merged] == segs[..k] + [merged] + segs[k + 2..];
  }

  /**
   * Lines 491-507: a free predecessor p of node c takes over c's bytes, c is
   * unlinked and its slot becomes unused.
   */
  function MergeIntoPrevHeap(h: seq<Node>, p: nat, c: nat): seq<Node>
    requires p < |h| && c < |h|
  {
    Unlink(GrowNode(h, p, h[c].size), p, c)
  }

  lemma MergeIntoPrevOk(h: seq<Node>, order: seq<nat>, k: nat)
    requires ListOk(h, order) && 0 < k < |order|
    requires !h[order[k]].isAllocated && !h[order[k - 1]].isAllocated
    ensures ListOk(MergeIntoPrevHeap(h, order[k - 1], order[k]), order[..k] + order[k + 1..])
    ensures SegsOf(MergeIntoPrevHeap(h, order[k - 1], order[k]), order[..k] + order[k + 1..])
      == AbsorbIntoPrev(SegsOf(h, order), k)
  {
    var p := order[k - 1];
    var c := order[k];
    var segs := SegsOf(h, order);
    var h1 := GrowNode(h, p, h[c].size);
    var order' := order[..k] + order[k + 1..];
    var t := segs[k - 1 := segs[k - 1].(size := segs[k - 1].size + h[c].size)];
    assert p != c && h1[c] == h[c];
    assert ListOk(h1, order) && SegsOf(h1, order) == t by {
      GrowInPlace(h, order, k - 1, h[c].size);
    }
    assert ListOk(Unlink(h1, p, c), order') && SegsOf(Unlink(h1, p, c), order') == t[..k] + t[k + 1..] by {
      UnlinkOk(h1, order, k);
    }
    assert AbsorbIntoPrev(segs, k) == t[..k] + t[k + 1..] by {
      AbsorbIntoPrevAsEdit(segs, k, h[c].size);
    }
    assert MergeIntoPrevHeap(h, p, c) == Unlink(h1, p, c);
  }

  /** AbsorbIntoPrev grows the predecessor by d, the size of the segment at k, then drops that segment. */
  lemma AbsorbIntoPrevAsEdit(segs: seq<Seg>, k: nat, d: nat)
    requires 0 < k < |segs| && !segs[k - 1].isAllocated && d == segs[k].size
    ensures AbsorbIntoPrev(segs, k)
      == segs[k - 1 := segs[k - 1].(size := segs[k - 1].size + d)][..k]
         + segs[k - 1 := segs[k - 1].(size := segs[k - 1].size + d)][k + 1..]
  {
    var merged := segs[k - 1].(size := segs[k - 1].size + d);
    var t := segs[k - 1 := merged];
    assert t[..k] == segs[..k - 1] + [merged];
    assert t[k + 1..] == segs[k + 1..];
  }

  /**
   * All of mem_del_alloc's node rewrites (lines 439-509) for the allocated
   * node at position k of the list: it is marked free, absorbs a free
   * successor, and is absorbed by a free predecessor.
   */
  function FreeHeap(h: seq<Node>, order: seq<nat>, k: nat): (r: seq<Node>)
    requires (forall m :: 0 <= m < |order| ==> order[m] < |h|) && k < |order|
    ensures |r| == |h|
  {
    var c := order[k];
    var h1 := h[c := h[c].(isAllocated := false)];
    var h2 := if k + 1 < |order| && !h[order[k + 1]].isAllocated then MergeNextHeap(h1, c, order[k + 1]) else h1;
    if k > 0 && !h[order[k - 1]].isAllocated then MergeIntoPrevHeap(h2, order[k - 1], c) else h2
  }

  /**
   * The same rewrites by slots: node c is marked free, absorbs its
   * successor nx when nextFree, and is absorbed by its predecessor p when
   * prevFree.
   */
  function ReleaseHeap(h: seq<Node>, c: nat, nx: nat, nextFree: bool, p: nat, prevFree: bool): (r: seq<Node>)
    requires c < |h| && nx < |h| && p < |h|
    ensures |r| == |h|
  {
    var h1 := h[c := h[c].(isAllocated := false)];
    var h2 := if nextFree then MergeNextHeap(h1, c, nx) else h1;
    if prevFree then MergeIntoPrevHeap(h2, p, c) else h2
  }

  /**
   * What freeing c and absorbing its free successor nx leave in place: c
   * keeps its predecessor link and stays listed, and apart from c and nx no
   * slot changes its size or allocation flag.
   */
  lemma MergeNextKeeps(h0: seq<Node>, c: nat, nx: nat, nextFree: bool, h2: seq<Node>)
    requires c < |h0| && nx < |h0| && h0[c].used
    requires nextFree ==> nx != c && h0[c].next == nx && h0[nx].next != c
                          && (h0[nx].next == NIL || 0 <= h0[nx].next < |h0|)
    requires !nextFree ==> h0[c].next == NIL || 0 <= h0[c].next < |h0|
    requires h2 == if nextFree then MergeNextHeap(h0[c := h0[c].(isAllocated := false)], c, nx)
                   else h0[c := h0[c].(isAllocated := false)]
    ensures |h2| == |h0| && h2[c].used && !h2[c].isAllocated && h2[c].prev == h0[c].prev
    ensures h2[c].size == h0[c].size + (if nextFree then h0[nx].size else 0)
    ensures h2[c].next == NIL || 0 <= h2[c].next < |h2|
    ensures forall i :: 0 <= i < |h0| && i != c ==> h2[i].isAllocated == h0[i].isAllocated
    ensures forall i :: 0 <= i < |h0| && i != c && i != nx ==> h2[i].size == h0[i].size
  {
  }

  /** FreeHeap is ReleaseHeap with the neighbours the list names. */
  lemma FreeHeapIsRelease(h: seq<Node>, order: seq<nat>, k: nat, nx: nat, p: nat)
    requires (forall m :: 0 <= m < |order| ==> order[m] < |h|) && k < |order|
    requires k + 1 < |order| ==> nx == order[k + 1]
    requires k > 0 ==> p == order[k - 1]
    requires nx < |h| && p < |h|
    ensures FreeHeap(h, order, k)
      == ReleaseHeap(h, order[k], nx, k + 1 < |order| && !h[order[k + 1]].isAllocated,
                     p, k > 0 && !h[order[k - 1]].isAllocated)
  {
  }

  /** The list after FreeHeap: the absorbed nodes leave it. */
  function FreeOrder(h: seq<Node>, order: seq<nat>, k: nat): (r: seq<nat>)
    requires (forall m :: 0 <= m < |order| ==> order[m] < |h|) && k < |order|
  {
    var o1 := if k + 1 < |order| && !h[order[k + 1]].isAllocated then order[..k + 1] + order[k + 2..] else order;
    if k > 0 && !h[order[k - 1]].isAllocated then o1[..k] + o1[k + 1..] else o1
  }

  /** Freeing the node at position k coalesces its segment with free neighbours. */
  lemma FreeHeapOk(h: seq<Node>, order: seq<nat>, k: nat)
    requires ListOk(h, order) && k < |order|
    ensures var h' := FreeHeap(h, order, k);
      var order' := FreeOrder(h, order, k);
      && ListOk(h', order') && (forall m :: 0 <= m < |order'| ==> order'[m] < |h'|)
      && SegsOf(h', order') == Coalesce(SegsOf(h, order), k)
  {
    var c := order[k];
    var segs := SegsOf(h, order);
    var h1 := h[c := h[c].(isAllocated := false)];
    var nextFree := k + 1 < |order| && !h[order[k + 1]].isAllocated;
    var h2 := if nextFree then MergeNextHeap(h1, c, order[k + 1]) else h1;
    var o1 := if nextFree then order[..k + 1] + order[k + 2..] else order;
    var s2 := AbsorbNext(segs[k := segs[k].(isAllocated := false)], k);
    FreeNextStage(h, order, k, h2, o1);
    if k > 0 && !h[order[k - 1]].isAllocated {
      assert !h2[o1[k - 1]].isAllocated by {
        assert s2[k - 1] == segs[k - 1] && segs[k - 1] == SegOf(h, order[k - 1]);
      }
      MergeIntoPrevOk(h2, o1, k);
    } else {
      assert k > 0 ==> s2[k - 1] == segs[k - 1];
    }
  }

  /** The first two steps of a free: node k is marked free and absorbs a free successor. */
  lemma FreeNextStage(h: seq<Node>, order: seq<nat>, k: nat, h2: seq<Node>, o1: seq<nat>)
    requires ListOk(h, order) && k < |order|
    requires h2 == if k + 1 < |order| && !h[order[k + 1]].isAllocated
                   then MergeNextHeap(h[order[k] := h[order[k]].(isAllocated := false)], order[k], order[k + 1])
                   else h[order[k] := h[order[k]].(isAllocated := false)]
    requires o1 == if k + 1 < |order| && !h[order[k + 1]].isAllocated then order[..k + 1] + order[k + 2..] else order
    ensures ListOk(h2, o1) && (forall m :: 0 <= m < |o1| ==> o1[m] < |h2|)
    ensures SegsOf(h2, o1) == AbsorbNext(SegsOf(h, order)[k := SegsOf(h, order)[k].(isAllocated := false)], k)
    ensures k < |o1| && o1[k] == order[k] && (k > 0 ==> o1[k - 1] == order[k - 1])
  {
    var c := order[k];
    var segs := SegsOf(h, order);
    var h1 := h[c := h[c].(isAllocated := false)];
    var segs1 := segs[k := segs[k].(isAllocated := false)];
    MarkFreeOk(h, order, k);
    assert SegsOf(h1, order) == segs1;
    if k + 1 < |order| && !h[order[k + 1]].isAllocated {
      assert segs[k + 1] == SegOf(h, order[k + 1]);
      assert h1[order[k + 1]] == h[order[k + 1]];
      MergeNextOk(h1, order, k);
    }
  }
}
