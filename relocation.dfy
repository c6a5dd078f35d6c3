/**
 * The node heap as the allocator lays it out in memory: a block of `cap`
 * node records, `stride` bytes apart, starting at address `base`, whose
 * `next` links are byte addresses with NULL as 0.  The rest of the model
 * names a node by its slot.  This module relates addresses to slots and
 * records what _mem_resize_node_heap does to the stored links when
 * `realloc` moves the block, against the rebasing it evidently intends.
 */
module Relocation {

  /** The null pointer. */
  const NULL: int := 0

  /** The address of slot `k` of a block at `base`. */
  function Addr(base: nat, stride: nat, k: nat): (p: nat)
    ensures base <= p
  {
    base + k * stride
  }

  /** `p` is the address of one of the `cap` node records of the block. */
  predicate InBlock(base: nat, stride: nat, cap: nat, p: int)
  {
    stride > 0 && base <= p < base + cap * stride && (p - base) % stride == 0
  }

  /** The slot of a record address of the block. */
  function SlotOf(base: nat, stride: nat, p: int): (k: nat)
    requires stride > 0 && base <= p
    ensures (p - base) % stride == 0 ==> p == Addr(base, stride, k)
  {
    (p - base) / stride
  }

  /** A stored link is null or names a record of the block. */
  predicate LinksOk(base: nat, stride: nat, cap: nat, links: seq<int>)
  {
    forall i :: 0 <= i < |links| ==> links[i] == NULL || InBlock(base, stride, cap, links[i])
  }

  /**
   * The grow of _mem_resize_node_heap as written (mem_pool.c:585-587):
   * `realloc` copies the records, links included, to the new block
   * unchanged; the `extra` records it gains are taken as null.
   */
  function GrowAsWritten(links: seq<int>, extra: nat): (r: seq<int>)
    ensures |r| == |links| + extra
    ensures r[..|links|] == links
    ensures forall i :: |links| <= i < |r| ==> r[i] == NULL
  {
    links + seq(extra, _ => NULL)
  }

  /**
   * As written, once `realloc` moves the heap every non-null link still
   * holds an address in the old block, which is freed and disjoint from the
   * new one: no stored link names a record of the new heap.
   */
  lemma GrowAsWrittenDangles(oldBase: nat, newBase: nat, stride: nat, cap: nat, links: seq<int>, i: nat)
    requires |links| == cap && i < cap
    requires InBlock(oldBase, stride, cap, links[i])
    requires oldBase + cap * stride <= newBase || newBase + 2 * cap * stride <= oldBase
    ensures !InBlock(newBase, stride, 2 * cap, GrowAsWritten(links, cap)[i])
  {
  }

  /** A concrete instance: a two-node list moved from address 1000 to 5000. */
  lemma MovedLinkDangles()
    ensures LinksOk(1000, 48, 2, [Addr(1000, 48, 1), NULL])
    ensures !InBlock(5000, 48, 4, GrowAsWritten([Addr(1000, 48, 1), NULL], 2)[0])
  {
  }

  /** The pointer `p` into the block at `oldBase`, moved to `newBase`. */
  function Rebase(oldBase: nat, newBase: nat, p: int): (q: int)
    ensures p == NULL ==> q == NULL
    ensures p != NULL ==> q - newBase == p - oldBase
  {
    if p == NULL then NULL else p - oldBase + newBase
  }

  /**
   * The grow as evidently intended: the records are copied and every
   * non-null link is moved into the new block; the gained records are null.
   */
  function GrowRebased(oldBase: nat, newBase: nat, links: seq<int>, extra: nat): (r: seq<int>)
    ensures |r| == |links| + extra
    ensures forall i :: 0 <= i < |links| ==> r[i] == Rebase(oldBase, newBase, links[i])
    ensures forall i :: |links| <= i < |r| ==> r[i] == NULL
  {
    seq(|links|, i requires 0 <= i < |links| => Rebase(oldBase, newBase, links[i]))
      + seq(extra, _ => NULL)
  }

  /** Moving a record pointer keeps its slot and lands it in the larger block. */
  lemma RebaseKeepsSlot(oldBase: nat, newBase: nat, stride: nat, cap: nat, newCap: nat, p: int)
    requires oldBase > 0 && newBase > 0 && cap <= newCap
    requires InBlock(oldBase, stride, cap, p)
    ensures InBlock(newBase, stride, newCap, Rebase(oldBase, newBase, p))
    ensures SlotOf(newBase, stride, Rebase(oldBase, newBase, p)) == SlotOf(oldBase, stride, p)
  {
    assert cap * stride <= newCap * stride by {
      MulMono(cap, newCap, stride);
    }
  }

  lemma MulMono(a: nat, b: nat, c: nat)
    requires a <= b
    ensures a * c <= b * c
  {
  }

  /**
   * The intended grow keeps every link valid in the new block, naming the
   * same slot as before, wherever `realloc` put the block.  This is why
   * the rest of the model may name nodes by slot across a grow.
   */
  lemma GrowRebasedKeepsLinks(oldBase: nat, newBase: nat, stride: nat, cap: nat, links: seq<int>)
    requires oldBase > 0 && newBase > 0 && |links| == cap
    requires LinksOk(oldBase, stride, cap, links)
    ensures LinksOk(newBase, stride, 2 * cap, GrowRebased(oldBase, newBase, links, cap))
    ensures forall i :: 0 <= i < cap && links[i] != NULL ==>
      SlotOf(newBase, stride, GrowRebased(oldBase, newBase, links, cap)[i]) == SlotOf(oldBase, stride, links[i])
  {
    var r := GrowRebased(oldBase, newBase, links, cap);
    forall i | 0 <= i < cap && links[i] != NULL
      ensures InBlock(newBase, stride, 2 * cap, r[i])
      ensures SlotOf(newBase, stride, r[i]) == SlotOf(oldBase, stride, links[i])
    {
      RebaseKeepsSlot(oldBase, newBase, stride, cap, 2 * cap, links[i]);
    }
  }
}
