/**
 * The node heap as the source keeps it: an array of node records whose
 * `prev`/`next` slot links form the address-ordered list, headed by slot 0.
 * A ghost sequence `order` names the slots of the list in order; ListOk says
 * the links, the `used` flags and `order` agree, and SegsOf reads the
 * segment list off the heap.  The lemmas show that the link rewrites of
 * mem_new_alloc and mem_del_alloc perform the list edits of Segments.
 */
module NodeList {
  import opened PoolTypes
  import opened Segments

  /** The slots of `order` are live, distinct nodes of h, headed by slot 0. */
  predicate OrderOk(h: seq<Node>, order: seq<nat>)
  {
    && |order| >= 1 && order[0] == 0
    && (forall k :: 0 <= k < |order| ==> order[k] < |h| && h[order[k]].used)
    && (forall i, j :: 0 <= i < j < |order| ==> order[i] != order[j])
  }

  /** Each node of the list links to its neighbours in `order`, NIL at the ends. */
  predicate LinksOk(h: seq<Node>, order: seq<nat>)
    requires forall k :: 0 <= k < |order| ==> order[k] < |h|
  {
    && (forall k :: 0 <= k < |order| ==> h[order[k]].next == if k + 1 < |order| then order[k + 1] else NIL)
    && (forall k :: 0 <= k < |order| ==> h[order[k]].prev == if k > 0 then order[k - 1] else NIL)
  }

  /**
   * Every used slot is in the list, and an unused slot has no successor and
   * is not marked allocated.
   */
  predicate SlotsAccounted(h: seq<Node>, order: seq<nat>)
  {
    && (forall s :: 0 <= s < |h| && h[s].used ==> s in order)
    && (forall s :: 0 <= s < |h| && !h[s].used ==> h[s].next == NIL && !h[s].isAllocated)
  }

  predicate ListOk(h: seq<Node>, order: seq<nat>)
  {
    OrderOk(h, order) && LinksOk(h, order) && SlotsAccounted(h, order)
  }

  function SegOf(h: seq<Node>, s: nat): Seg
    requires s < |h|
  {
    Seg(h[s].offset, h[s].size, h[s].isAllocated, s)
  }

  /** The segment list the heap describes, read in list order. */
  function SegsOf(h: seq<Node>, order: seq<nat>): (r: seq<Seg>)
    requires forall k :: 0 <= k < |order| ==> order[k] < |h|
    ensures |r| == |order|
    ensures forall k :: 0 <= k < |order| ==> r[k] == SegOf(h, order[k])
  {
    seq(|order|, k requires 0 <= k < |order| => SegOf(h, order[k]))
  }

  /** The slots of the segment list are the slots of `order`. */
  lemma SegsOfSlots(h: seq<Node>, order: seq<nat>)
    requires ListOk(h, order)
    ensures SlotsDistinct(SegsOf(h, order))
    ensures forall s :: 0 <= s < |h| && !h[s].used ==> FreshSlot(SegsOf(h, order), s)
  {
    var segs := SegsOf(h, order);
    forall i, j | 0 <= i < j < |segs|
      ensures segs[i].slot != segs[j].slot
    {
    }
  }

  /**
   * A node rewritten in place without touching its flags `used` or its
   * links keeps the list, and changes one segment of it.
   */
  lemma UpdateInPlace(h: seq<Node>, order: seq<nat>, k: nat, v: Node)
    requires ListOk(h, order) && k < |order|
    requires v.used == h[order[k]].used && v.next == h[order[k]].next && v.prev == h[order[k]].prev
    ensures ListOk(h[order[k] := v], order)
    ensures SegsOf(h[order[k] := v], order) == SegsOf(h, order)[k := SegOf(h[order[k] := v], order[k])]
  {
    var h' := h[order[k] := v];
    forall s | 0 <= s < |h'| && h'[s].used
      ensures s in order
    {
      assert h[s].used;
    }
  }

  /** The links of the node at position k of the list. */
  lemma LinkAt(h: seq<Node>, order: seq<nat>, k: nat)
    requires ListOk(h, order) && k < |order|
    ensures h[order[k]].next == if k + 1 < |order| then order[k + 1] else NIL
    ensures h[order[k]].prev == if k > 0 then order[k - 1] else NIL
  {
    assert LinksOk(h, order);
  }

  /** Growing the heap with cleared slots changes neither the list nor the segments. */
  lemma GrowHeap(h: seq<Node>, order: seq<nat>, extra: seq<Node>)
    requires ListOk(h, order)
    requires forall i :: 0 <= i < |extra| ==> extra[i] == UNUSED_NODE
    ensures ListOk(h + extra, order)
    ensures SegsOf(h + extra, order) == SegsOf(h, order)
  {
    var h' := h + extra;
    assert forall s :: |h| <= s < |h'| ==> h'[s] == extra[s - |h|];
    assert forall s :: 0 <= s < |h| ==> h'[s] == h[s];
  }

  /**
   * The link rewrites of mem_new_alloc (lines 387-398), in the source's
   * order: unused slot g becomes a free node of `size` bytes at `offset`,
   * spliced into the list right after node c.
   */
  function LinkAfter(h: seq<Node>, c: nat, g: nat, offset: nat, size: nat): seq<Node>
    requires c < |h| && g < |h|
  {
    var n := h[c].next;
    var h1 := if 0 <= n < |h| then h[g := h[g].(next := n)][n := h[n].(prev := g)] else h;
    var h2 := h1[c := h1[c].(next := g)];
    var h3 := h2[g := h2[g].(prev := c)];
    h3[g := h3[g].(size := size, used := true, isAllocated := false, offset := offset)]
  }

  lemma LinkAfterNodes(h: seq<Node>, order: seq<nat>, k: nat, g: nat, offset: nat, size: nat)
    requires ListOk(h, order) && k < |order| && g < |h| && !h[g].used
    ensures var c := order[k];
      var n := h[c].next;
      var h' := LinkAfter(h, c, g, offset, size);
      && |h'| == |h|
      && h'[g] == Node(offset, size, true, false, c, n)
      && h'[c] == h[c].(next := g)
      && (n != NIL ==> k + 1 < |order| && n == order[k + 1] && h'[n] == h[n].(prev := g))
      && (n == NIL ==> k + 1 == |order|)
      && forall s :: 0 <= s < |h| && s != c && s != g && s != n ==> h'[s] == h[s]
  {
    var c := order[k];
    assert g !in order;
    assert c != g;
    if k + 1 < |order| {
      assert order[k + 1] != g && order[k + 1] != c;
    }
  }

  /** Splicing a fresh node in after position k inserts its segment after k. */
  lemma LinkAfterOk(h: seq<Node>, order: seq<nat>, k: nat, g: nat, offset: nat, size: nat)
    requires ListOk(h, order) && k < |order| && g < |h| && !h[g].used
    ensures var h' := LinkAfter(h, order[k], g, offset, size);
      var order' := order[..k + 1] + [g] + order[k + 1..];
      && ListOk(h', order')
      && SegsOf(h', order') == SegsOf(h, order)[..k + 1] + [Seg(offset, size, false, g)] + SegsOf(h, order)[k + 1..]
  {
    LinkAfterNodes(h, order, k, g, offset, size);
    LinkAfterUsed(h, order, k, g, offset, size);
    LinkAfterOrder(h, order, k, g, offset, size);
    LinkAfterLinks(h, order, k, g, offset, size);
    LinkAfterAccounted(h, order, k, g, offset, size);
    LinkAfterSegOf(h, order, k, g, offset, size);
    LinkAfterSegs(h, order, k, g, offset, size);
  }

  lemma LinkAfterOrder(h: seq<Node>, order: seq<nat>, k: nat, g: nat, offset: nat, size: nat)
    requires OrderOk(h, order) && k < |order| && g < |h| && !h[g].used
    requires var h' := LinkAfter(h, order[k], g, offset, size);
      && |h'| == |h| && h'[g].used
      && forall s :: 0 <= s < |h| && h[s].used ==> h'[s].used
    ensures OrderOk(LinkAfter(h, order[k], g, offset, size), order[..k + 1] + [g] + order[k + 1..])
  {
    var h' := LinkAfter(h, order[k], g, offset, size);
    var order' := order[..k + 1] + [g] + order[k + 1..];
    InsertedAfter(order, k, g);
    forall m | 0 <= m < |order'|
      ensures order'[m] < |h'| && h'[order'[m]].used
    {
    }
    forall i, j | 0 <= i < j < |order'|
      ensures order'[i] != order'[j]
    {
    }
  }

  /** LinkAfter marks g used and keeps every used slot used. */
  lemma LinkAfterUsed(h: seq<Node>, order: seq<nat>, k: nat, g: nat, offset: nat, size: nat)
    requires ListOk(h, order) && k < |order| && g < |h| && !h[g].used
    ensures var h' := LinkAfter(h, order[k], g, offset, size);
      && |h'| == |h| && h'[g].used
      && forall s :: 0 <= s < |h| && h[s].used ==> h'[s].used
  {
    LinkAfterNodes(h, order, k, g, offset, size);
  }

  /** The positions of a sequence with one element inserted after position k. */
  lemma InsertedAfter<T>(s: seq<T>, k: nat, x: T)
    requires k < |s|
    ensures var s' := s[..k + 1] + [x] + s[k + 1..];
      && |s'| == |s| + 1
      && forall m :: 0 <= m < |s'| ==>
        s'[m] == if m <= k then s[m] else if m == k + 1 then x else s[m - 1]
  {
  }

  lemma LinkAfterLinks(h: seq<Node>, order: seq<nat>, k: nat, g: nat, offset: nat, size: nat)
    requires ListOk(h, order) && k < |order| && g < |h| && !h[g].used
    ensures var order' := order[..k + 1] + [g] + order[k + 1..];
      && (forall m :: 0 <= m < |order'| ==> order'[m] < |h|)
      && LinksOk(LinkAfter(h, order[k], g, offset, size), order')
  {
    LinkAfterNodes(h, order, k, g, offset, size);
    assert g !in order;
    SpliceLinks(h, LinkAfter(h, order[k], g, offset, size), order, k, g, h[order[k]].next);
  }

  /**
   * The links of a heap h' in which g has been spliced in after position k:
   * g points at its neighbours, they point at g, and no other node changed.
   */
  lemma SpliceLinks(h: seq<Node>, h': seq<Node>, order: seq<nat>, k: nat, g: nat, n: int)
    requires OrderOk(h, order) && LinksOk(h, order) && k < |order| && g < |h| && g !in order
    requires n == h[order[k]].next && |h'| == |h|
    requires h'[g].prev == order[k] && h'[g].next == n
    requires h'[order[k]] == h[order[k]].(next := g)
    requires n != NIL ==> 0 <= n < |h| && h'[n] == h[n].(prev := g)
    requires forall s :: 0 <= s < |h| && s != order[k] && s != g && s != n ==> h'[s] == h[s]
    ensures var order' := order[..k + 1] + [g] + order[k + 1..];
      && (forall m :: 0 <= m < |order'| ==> order'[m] < |h|)
      && LinksOk(h', order')
  {
    var order' := order[..k + 1] + [g] + order[k + 1..];
    assert |order'| == |order| + 1;
    forall m | 0 <= m < |order'|
      ensures order'[m] < |h|
    {
      if m > k + 1 {
        assert order'[m] == order[m - 1];
      }
    }
    forall m | 0 <= m < |order'|
      ensures h'[order'[m]].next == if m + 1 < |order'| then order'[m + 1] else NIL
      ensures h'[order'[m]].prev == if m > 0 then order'[m - 1] else NIL
    {
      if m < k {
        assert order'[m] == order[m] && order'[m + 1] == order[m + 1];
        assert m > 0 ==> order'[m - 1] == order[m - 1];
        assert order[m] != order[k] && order[m] != g;
        assert k + 1 < |order| ==> order[m] != order[k + 1];
        assert h'[order[m]] == h[order[m]];
      } else if m == k {
        assert order'[k] == order[k] && order'[k + 1] == g;
        assert k > 0 ==> order'[k - 1] == order[k - 1];
      } else if m == k + 1 {
        assert order'[m] == g && order'[k] == order[k];
        assert m + 1 < |order'| ==> order'[m + 1] == order[k + 1];
      } else if m == k + 2 {
        assert order'[m] == order[k + 1] == n && order'[m - 1] == g;
        assert m + 1 < |order'| ==> order'[m + 1] == order[k + 2];
      } else {
        assert order'[m] == order[m - 1] && order'[m - 1] == order[m - 2];
        assert m + 1 < |order'| ==> order'[m + 1] == order[m];
        assert order[m - 1] != order[k] && order[m - 1] != order[k + 1] && order[m - 1] != g;
        assert h'[order[m - 1]] == h[order[m - 1]];
      }
    }
    assert LinksOk(h', order');
  }

  lemma LinkAfterAccounted(h: seq<Node>, order: seq<nat>, k: nat, g: nat, offset: nat, size: nat)
    requires ListOk(h, order) && k < |order| && g < |h| && !h[g].used
    ensures SlotsAccounted(LinkAfter(h, order[k], g, offset, size), order[..k + 1] + [g] + order[k + 1..])
  {
    var c := order[k];
    var h' := LinkAfter(h, c, g, offset, size);
    var order' := order[..k + 1] + [g] + order[k + 1..];
    LinkAfterNodes(h, order, k, g, offset, size);
    forall s | 0 <= s < |h'| && h'[s].used
      ensures s in order'
    {
      if s != g {
        assert h[s].used;
        var m :| 0 <= m < |order| && order[m] == s;
        if m <= k {
          assert order'[m] == s;
        } else {
          assert order'[m + 1] == s;
        }
      } else {
        assert order'[k + 1] == g;
      }
    }
    forall s | 0 <= s < |h'| && !h'[s].used
      ensures h'[s].next == NIL && !h'[s].isAllocated
    {
      assert s != g && s != c;
      assert !h[s].used;
      assert s !in order;
    }
  }

  lemma LinkAfterSegs(h: seq<Node>, order: seq<nat>, k: nat, g: nat, offset: nat, size: nat)
    requires k < |order| && g < |h| && g !in order && forall m :: 0 <= m < |order| ==> order[m] < |h|
    requires var h' := LinkAfter(h, order[k], g, offset, size);
      && |h'| == |h| && SegOf(h', g) == Seg(offset, size, false, g)
      && forall s :: 0 <= s < |h| && s != g ==> SegOf(h', s) == SegOf(h, s)
    ensures var order' := order[..k + 1] + [g] + order[k + 1..];
      && (forall m :: 0 <= m < |order'| ==> order'[m] < |h|)
      && SegsOf(LinkAfter(h, order[k], g, offset, size), order')
         == SegsOf(h, order)[..k + 1] + [Seg(offset, size, false, g)] + SegsOf(h, order)[k + 1..]
  {
    var h' := LinkAfter(h, order[k], g, offset, size);
    var order' := order[..k + 1] + [g] + order[k + 1..];
    var segs := SegsOf(h, order);
    var want := segs[..k + 1] + [Seg(offset, size, false, g)] + segs[k + 1..];
    InsertedAfter(order, k, g);
    InsertedAfter(segs, k, Seg(offset, size, false, g));
    forall m | 0 <= m < |order'|
      ensures SegsOf(h', order')[m] == want[m]
    {
      if m <= k {
        assert SegOf(h', order[m]) == SegOf(h, order[m]);
      } else if m > k + 1 {
        assert SegOf(h', order[m - 1]) == SegOf(h, order[m - 1]);
      }
    }
  }

  /** LinkAfter changes the segment of slot g only; the list's slots are not g. */
  lemma LinkAfterSegOf(h: seq<Node>, order: seq<nat>, k: nat, g: nat, offset: nat, size: nat)
    requires ListOk(h, order) && k < |order| && g < |h| && !h[g].used
    ensures var h' := LinkAfter(h, order[k], g, offset, size);
      && |h'| == |h| && g !in order
      && (forall m :: 0 <= m < |order| ==> order[m] < |h|)
      && SegOf(h', g) == Seg(offset, size, false, g)
      && forall s :: 0 <= s < |h| && s != g ==> SegOf(h', s) == SegOf(h, s)
  {
    LinkAfterNodes(h, order, k, g, offset, size);
  }

  /**
   * The link rewrites that take node b, the successor of node a, out of the
   * list: a and b's successor are linked to each other, and b's slot becomes
   * unused with no links.
   */
  function Unlink(h: seq<Node>, a: nat, b: nat): seq<Node>
    requires a < |h| && b < |h|
  {
    var n := h[b].next;
    var h1 := if 0 <= n < |h| then h[n := h[n].(prev := a)][a := h[a].(next := n)] else h[a := h[a].(next := NIL)];
    h1[b := h1[b].(used := false, next := NIL, prev := NIL)]
  }

  lemma UnlinkNodes(h: seq<Node>, order: seq<nat>, j: nat)
    requires ListOk(h, order) && 0 < j < |order| && !h[order[j]].isAllocated
    ensures var a := order[j - 1];
      var b := order[j];
      var n := h[b].next;
      var h' := Unlink(h, a, b);
      && |h'| == |h|
      && h'[b] == h[b].(used := false, next := NIL, prev := NIL)
      && h'[a] == h[a].(next := n)
      && (n != NIL ==> j + 1 < |order| && n == order[j + 1] && h'[n] == h[n].(prev := a))
      && (n == NIL ==> j + 1 == |order|)
      && forall s :: 0 <= s < |h| && s != a && s != b && s != n ==> h'[s] == h[s]
  {
    var a := order[j - 1];
    var b := order[j];
    assert a != b;
    if j + 1 < |order| {
      assert order[j + 1] != a && order[j + 1] != b;
    }
  }

  /** Unlinking the free node at position j removes its segment from the list. */
  lemma UnlinkOk(h: seq<Node>, order: seq<nat>, j: nat)
    requires ListOk(h, order) && 0 < j < |order| && !h[order[j]].isAllocated
    ensures var h' := Unlink(h, order[j - 1], order[j]);
      var order' := order[..j] + order[j + 1..];
      && ListOk(h', order')
      && SegsOf(h', order') == SegsOf(h, order)[..j] + SegsOf(h, order)[j + 1..]
  {
    UnlinkNodes(h, order, j);
    UnlinkOrder(h, order, j);
    UnlinkLinks(h, order, j);
    UnlinkAccounted(h, order, j);
    UnlinkSegs(h, order, j);
  }

  lemma UnlinkOrder(h: seq<Node>, order: seq<nat>, j: nat)
    requires ListOk(h, order) && 0 < j < |order| && !h[order[j]].isAllocated
    ensures OrderOk(Unlink(h, order[j - 1], order[j]), order[..j] + order[j + 1..])
  {
    var h' := Unlink(h, order[j - 1], order[j]);
    UnlinkNodes(h, order, j);
    forall s | 0 <= s < |h| && s != order[j] && h[s].used
      ensures h'[s].used
    {
    }
    DropOrder(h, h', order, j);
  }

  /** Dropping position j from `order` keeps it a list of h' when h' keeps every other used slot. */
  lemma DropOrder(h: seq<Node>, h': seq<Node>, order: seq<nat>, j: nat)
    requires OrderOk(h, order) && 0 < j < |order| && |h'| == |h|
    requires forall s :: 0 <= s < |h| && s != order[j] && h[s].used ==> h'[s].used
    ensures OrderOk(h', order[..j] + order[j + 1..])
  {
    var order' := order[..j] + order[j + 1..];
    assert |order'| == |order| - 1 && order'[0] == order[0];
    forall m | 0 <= m < |order'|
      ensures order'[m] < |h'| && h'[order'[m]].used
    {
      var q := if m < j then m else m + 1;
      assert order'[m] == order[q] && q != j;
    }
    forall a, b | 0 <= a < b < |order'|
      ensures order'[a] != order'[b]
    {
      var qa := if a < j then a else a + 1;
      var qb := if b < j then b else b + 1;
      assert order'[a] == order[qa] && order'[b] == order[qb] && qa < qb;
    }
  }

  lemma UnlinkLinks(h: seq<Node>, order: seq<nat>, j: nat)
    requires ListOk(h, order) && 0 < j < |order| && !h[order[j]].isAllocated
    ensures var order' := order[..j] + order[j + 1..];
      && (forall m :: 0 <= m < |order'| ==> order'[m] < |h|)
      && LinksOk(Unlink(h, order[j - 1], order[j]), order')
  {
    var a := order[j - 1];
    var b := order[j];
    var n := h[b].next;
    var h' := Unlink(h, a, b);
    var order' := order[..j] + order[j + 1..];
    UnlinkNodes(h, order, j);
    LinkAt(h, order, j);
    forall m | 0 <= m < |order'|
      ensures h'[order'[m]].next == if m + 1 < |order'| then order'[m + 1] else NIL
      ensures h'[order'[m]].prev == if m > 0 then order'[m - 1] else NIL
    {
      var p := if m < j then m else m + 1;
      assert order'[m] == order[p];
      LinkAt(h, order, p);
      assert m + 1 < |order'| ==> order'[m + 1] == order[if m + 1 < j then m + 1 else m + 2];
      assert m > 0 ==> order'[m - 1] == order[if m - 1 < j then m - 1 else m];
      if p < j - 1 || p > j + 1 {
        assert order[p] != a && order[p] != b;
        assert j + 1 < |order| ==> order[p] != order[j + 1];
        assert h'[order[p]] == h[order[p]];
      }
    }
    assert |h'| == |h|;
    assert LinksOk(h', order');
  }

  lemma UnlinkAccounted(h: seq<Node>, order: seq<nat>, j: nat)
    requires ListOk(h, order) && 0 < j < |order| && !h[order[j]].isAllocated
    ensures SlotsAccounted(Unlink(h, order[j - 1], order[j]), order[..j] + order[j + 1..])
  {
    var b := order[j];
    var h' := Unlink(h, order[j - 1], b);
    var order' := order[..j] + order[j + 1..];
    UnlinkNodes(h, order, j);
    forall s | 0 <= s < |h'| && h'[s].used
      ensures s in order'
    {
      assert s != b;
      assert h[s].used;
      var m :| 0 <= m < |order| && order[m] == s;
      if m < j {
        assert order'[m] == s;
      } else {
        assert order'[m - 1] == s;
      }
    }
    forall s | 0 <= s < |h'| && !h'[s].used
      ensures h'[s].next == NIL && !h'[s].isAllocated
    {
      if s != b {
        assert !h[s].used;
        assert s !in order;
      }
    }
  }

  lemma UnlinkSegs(h: seq<Node>, order: seq<nat>, j: nat)
    requires ListOk(h, order) && 0 < j < |order| && !h[order[j]].isAllocated
    ensures var order' := order[..j] + order[j + 1..];
      && (forall m :: 0 <= m < |order'| ==> order'[m] < |h|)
      && SegsOf(Unlink(h, order[j - 1], order[j]), order') == SegsOf(h, order)[..j] + SegsOf(h, order)[j + 1..]
  {
    var b := order[j];
    var h' := Unlink(h, order[j - 1], b);
    var order' := order[..j] + order[j + 1..];
    UnlinkNodes(h, order, j);
    assert forall s :: 0 <= s < |h| && s != b ==> SegOf(h', s) == SegOf(h, s);
    var segs := SegsOf(h, order);
    var want := segs[..j] + segs[j + 1..];
    forall m | 0 <= m < |order'|
      ensures SegsOf(h', order')[m] == want[m]
    {
      if m < j {
        assert want[m] == segs[m] && order'[m] == order[m];
      } else {
        assert want[m] == segs[m + 1] && order'[m] == order[m + 1];
      }
    }
  }

  /**
   * While the list holds fewer nodes than the heap has slots, some slot is
   * unused: the search for a slot for a new gap node always succeeds.
   */
  lemma UnusedSlotExists(h: seq<Node>, order: seq<nat>)
    requires ListOk(h, order) && |order| < |h|
    ensures exists s :: 0 <= s < |h| && !h[s].used
  {
    if forall s :: 0 <= s < |h| ==> h[s].used {
      assert Range(|h|) <= Elems(order);
      RangeSize(|h|);
      ElemsSize(order);
      SubsetSize(Range(|h|), Elems(order));
      assert false;
    }
  }

  /** The slots 0 .. n - 1. */
  function Range(n: nat): (r: set<nat>)
    ensures forall s: int :: s in r <==> 0 <= s < n
  {
    if n == 0 then {} else Range(n - 1) + {n - 1}
  }

  /** The slots named in `order`. */
  function Elems(order: seq<nat>): (r: set<nat>)
    ensures forall x :: x in r <==> x in order
  {
    if order == [] then {} else Elems(order[..|order| - 1]) + {order[|order| - 1]}
  }

  lemma {:induction false} RangeSize(n: nat)
    ensures |Range(n)| == n
  {
    if n > 0 {
      RangeSize(n - 1);
    }
  }

  lemma {:induction false} ElemsSize(order: seq<nat>)
    ensures |Elems(order)| <= |order|
  {
    if order != [] {
      ElemsSize(order[..|order| - 1]);
    }
  }

  lemma SubsetSize(a: set<nat>, b: set<nat>)
    requires a <= b
    ensures |a| <= |b|
  {
    assert b == a + (b - a);
    assert a * (b - a) == {};
  }

  /** g is the first slot of the heap that is not in use. */
  predicate FirstUnused(h: seq<Node>, g: nat)
  {
    g < |h| && !h[g].used && forall s :: 0 <= s < g ==> h[s].used
  }

  /**
   * Used slots are exactly the listed ones, so the first unused slot of the
   * heap, before or after a listed node is rewritten in place, is the least
   * slot the list does not hold.
   */
  lemma FirstUnusedIsLeastFree(h: seq<Node>, order: seq<nat>, c: nat, size: nat, g: nat)
    requires ListOk(h, order) && c < |h| && h[c].used
    requires FirstUnused(h[c := h[c].(size := size, isAllocated := true)], g)
    ensures g !in order && forall s :: 0 <= s < g ==> s in order
  {
    assert forall s :: 0 <= s < g ==> h[s].used by {
      forall s | 0 <= s < g
        ensures h[s].used
      {
        assert h[c := h[c].(size := size, isAllocated := true)][s].used;
      }
    }
  }
}
