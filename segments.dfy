/**
 * The address-ordered segment list of one pool, as a value: what the node
 * heap's linked list describes once the links are followed.  The pool's
 * invariants (the segments tile [0, total_size), no two neighbouring gaps,
 * the counters agree with the segments) and the two edits the allocator
 * makes to the list (splitting a gap on allocation, coalescing on free) are
 * stated and proved here; MemPool shows that the array code performs them.
 */
module Segments {
  import opened PoolTypes
  import opened GapOrder

  /** One segment: its range in the buffer, its flag and the slot holding it. */
  datatype Seg = Seg(offset: nat, size: nat, isAllocated: bool, slot: nat)

  /** The gap-index entry that stands for a free segment. */
  function Entry(s: Seg): Gap
  {
    Gap(s.size, s.slot)
  }

  /** The segments cover [0, total) in address order, without holes or overlaps. */
  predicate Tiles(segs: seq<Seg>, total: nat)
  {
    && |segs| >= 1
    && segs[0].offset == 0
    && (forall k :: 1 <= k < |segs| ==> segs[k].offset == segs[k - 1].offset + segs[k - 1].size)
    && segs[|segs| - 1].offset + segs[|segs| - 1].size == total
  }

  /** Free segments are eagerly coalesced: no two neighbours are both free. */
  predicate NoAdjacentGaps(segs: seq<Seg>)
  {
    forall k :: 1 <= k < |segs| ==> segs[k - 1].isAllocated || segs[k].isAllocated
  }

  predicate SlotsDistinct(segs: seq<Seg>)
  {
    forall i, j :: 0 <= i < j < |segs| ==> segs[i].slot != segs[j].slot
  }

  predicate GapsPositive(segs: seq<Seg>)
  {
    forall k :: 0 <= k < |segs| && !segs[k].isAllocated ==> segs[k].size > 0
  }

  /**
   * The structural invariant of a pool's segment list.  A pool opened with
   * size 0 holds one gap of size 0; every other gap is non-empty.
   */
  predicate SegsOk(segs: seq<Seg>, total: nat)
  {
    Tiles(segs, total) && NoAdjacentGaps(segs) && SlotsDistinct(segs)
    && (total > 0 ==> GapsPositive(segs))
  }

  function CountAlloc(segs: seq<Seg>): nat
  {
    if segs == [] then 0
    else (if segs[0].isAllocated then 1 else 0) + CountAlloc(segs[1..])
  }

  function SumAlloc(segs: seq<Seg>): nat
  {
    if segs == [] then 0
    else (if segs[0].isAllocated then segs[0].size else 0) + SumAlloc(segs[1..])
  }

  /** The gap-index entries of the free segments, in address order. */
  function FreeEntries(segs: seq<Seg>): seq<Gap>
  {
    if segs == [] then []
    else (if segs[0].isAllocated then [] else [Entry(segs[0])]) + FreeEntries(segs[1..])
  }

  /** What mem_inspect_pool reports, segment by segment. */
  function Layout(segs: seq<Seg>): (r: seq<PoolSegment>)
    ensures |r| == |segs|
    ensures forall k :: 0 <= k < |segs| ==> r[k] == PoolSegment(segs[k].size, segs[k].isAllocated)
  {
    seq(|segs|, k requires 0 <= k < |segs| => PoolSegment(segs[k].size, segs[k].isAllocated))
  }

  /** The counters and the free entries of two runs laid end to end. */
  lemma CountersAppend(a: seq<Seg>, b: seq<Seg>)
    ensures CountAlloc(a + b) == CountAlloc(a) + CountAlloc(b)
    ensures SumAlloc(a + b) == SumAlloc(a) + SumAlloc(b)
    ensures FreeEntries(a + b) == FreeEntries(a) + FreeEntries(b)
  {
    CountAllocAppend(a, b);
    SumAllocAppend(a, b);
    FreeEntriesAppend(a, b);
  }

  lemma {:induction false} CountAllocAppend(a: seq<Seg>, b: seq<Seg>)
    ensures CountAlloc(a + b) == CountAlloc(a) + CountAlloc(b)
  {
    if a == [] {
      assert a + b == b;
    } else {
      assert (a + b)[0] == a[0] && (a + b)[1..] == a[1..] + b;
      CountAllocAppend(a[1..], b);
    }
  }

  lemma {:induction false} SumAllocAppend(a: seq<Seg>, b: seq<Seg>)
    ensures SumAlloc(a + b) == SumAlloc(a) + SumAlloc(b)
  {
    if a == [] {
      assert a + b == b;
    } else {
      assert (a + b)[0] == a[0] && (a + b)[1..] == a[1..] + b;
      SumAllocAppend(a[1..], b);
    }
  }

  lemma {:induction false} FreeEntriesAppend(a: seq<Seg>, b: seq<Seg>)
    ensures FreeEntries(a + b) == FreeEntries(a) + FreeEntries(b)
  {
    if a == [] {
      assert a + b == b;
    } else {
      assert (a + b)[0] == a[0] && (a + b)[1..] == a[1..] + b;
      var head := if a[0].isAllocated then [] else [Entry(a[0])];
      assert FreeEntries(a + b) == head + FreeEntries(a[1..] + b);
      FreeEntriesAppend(a[1..], b);
      assert head + (FreeEntries(a[1..]) + FreeEntries(b)) == (head + FreeEntries(a[1..])) + FreeEntries(b);
    }
  }

  lemma CountersSingle(s: Seg)
    ensures CountAlloc([s]) == (if s.isAllocated then 1 else 0)
    ensures SumAlloc([s]) == (if s.isAllocated then s.size else 0)
    ensures FreeEntries([s]) == (if s.isAllocated then [] else [Entry(s)])
  {
    assert [s][1..] == [];
  }

  /** The entry of a free segment is among the free entries. */
  lemma {:induction false} FreeEntryOf(segs: seq<Seg>, j: nat)
    requires j < |segs| && !segs[j].isAllocated
    ensures Entry(segs[j]) in FreeEntries(segs)
  {
    var head := if segs[0].isAllocated then [] else [Entry(segs[0])];
    assert FreeEntries(segs) == head + FreeEntries(segs[1..]);
    if j > 0 {
      assert segs[1..][j - 1] == segs[j];
      FreeEntryOf(segs[1..], j - 1);
    }
  }

  /** Every free entry is the entry of a free segment. */
  lemma {:induction false} FreeEntryFrom(segs: seq<Seg>, e: Gap) returns (m: nat)
    requires e in FreeEntries(segs)
    ensures m < |segs| && !segs[m].isAllocated && Entry(segs[m]) == e
  {
    var head := if segs[0].isAllocated then [] else [Entry(segs[0])];
    assert FreeEntries(segs) == head + FreeEntries(segs[1..]);
    if !segs[0].isAllocated && e == Entry(segs[0]) {
      m := 0;
    } else {
      assert e in FreeEntries(segs[1..]);
      var m' := FreeEntryFrom(segs[1..], e);
      m := m' + 1;
      assert segs[1..][m'] == segs[m];
    }
  }

  /** Distinct slots give an index whose entries name distinct nodes. */
  lemma {:induction false} FreeEntriesDistinct(segs: seq<Seg>)
    requires SlotsDistinct(segs)
    ensures NodesDistinct(FreeEntries(segs))
  {
    if segs != [] {
      var t := segs[1..];
      assert SlotsDistinct(t) by {
        forall i, j | 0 <= i < j < |t|
          ensures t[i].slot != t[j].slot
        {
          assert t[i] == segs[i + 1] && t[j] == segs[j + 1];
        }
      }
      FreeEntriesDistinct(t);
      if !segs[0].isAllocated {
        var f := FreeEntries(segs);
        assert f == [Entry(segs[0])] + FreeEntries(t);
        forall i, j | 0 <= i < j < |f|
          ensures f[i].node != f[j].node
        {
          if i == 0 {
            assert f[j] in FreeEntries(t);
            var m := FreeEntryFrom(t, f[j]);
            assert t[m] == segs[m + 1];
          } else {
            assert f[i] == FreeEntries(t)[i - 1] && f[j] == FreeEntries(t)[j - 1];
          }
        }
      }
    }
  }

  /** The number of free segments. */
  lemma {:induction false} CountsAddUp(segs: seq<Seg>)
    ensures CountAlloc(segs) + |FreeEntries(segs)| == |segs|
  {
    if segs != [] {
      CountsAddUp(segs[1..]);
    }
  }

  /** A segment that can hold `size` bytes. */
  predicate Fits(s: Seg, size: nat)
  {
    !s.isAllocated && s.size >= size
  }

  predicate HasFit(segs: seq<Seg>, size: nat)
  {
    exists k :: 0 <= k < |segs| && Fits(segs[k], size)
  }

  /** FIRST_FIT: the first segment in address order that can hold `size`. */
  predicate IsFirstFit(segs: seq<Seg>, size: nat, k: nat)
  {
    k < |segs| && Fits(segs[k], size) && forall j :: 0 <= j < k ==> !Fits(segs[j], size)
  }

  /**
   * BEST_FIT: a segment that can hold `size` and is least in the gap-index
   * order among all that can: the smallest sufficient gap, and among gaps of
   * that size the one in the lowest slot.
   */
  predicate IsBestFit(segs: seq<Seg>, size: nat, k: nat)
  {
    k < |segs| && Fits(segs[k], size)
    && forall j :: 0 <= j < |segs| && Fits(segs[j], size) ==> Le(Entry(segs[k]), Entry(segs[j]))
  }

  /** The gap the pool's policy selects for a request of `size` bytes. */
  predicate Placed(policy: Policy, segs: seq<Seg>, size: nat, k: nat)
  {
    if policy == FirstFit then IsFirstFit(segs, size, k) else IsBestFit(segs, size, k)
  }

  /**
   * The list after allocating `size` bytes from the gap at k: the gap
   * becomes an allocation of exactly `size`, and a non-empty remainder
   * becomes a new gap held in `slot`, right after it.
   */
  function Split(segs: seq<Seg>, k: nat, size: nat, slot: nat): seq<Seg>
    requires k < |segs| && size <= segs[k].size
  {
    segs[..k] + SplitRun(segs[k], size, slot) + segs[k + 1..]
  }

  /** What the gap `c` becomes: the allocation, then the remainder if any. */
  function SplitRun(c: Seg, size: nat, slot: nat): seq<Seg>
    requires size <= c.size
  {
    [c.(size := size, isAllocated := true)]
    + (if c.size - size > 0 then [Seg(c.offset + size, c.size - size, false, slot)] else [])
  }

  /** Step 2 of a free: the segment at k absorbs a free successor. */
  function AbsorbNext(segs: seq<Seg>, k: nat): (r: seq<Seg>)
    requires k < |segs|
    ensures k < |r|
  {
    if k + 1 < |segs| && !segs[k + 1].isAllocated
    then segs[..k] + [segs[k].(size := segs[k].size + segs[k + 1].size)] + segs[k + 2..]
    else segs
  }

  /** Step 3 of a free: a free predecessor absorbs the segment at k. */
  function AbsorbIntoPrev(segs: seq<Seg>, k: nat): seq<Seg>
    requires k < |segs|
  {
    if k > 0 && !segs[k - 1].isAllocated
    then segs[..k - 1] + [segs[k - 1].(size := segs[k - 1].size + segs[k].size)] + segs[k + 1..]
    else segs
  }

  /** The list after freeing the allocation at k and coalescing it. */
  function Coalesce(segs: seq<Seg>, k: nat): seq<Seg>
    requires k < |segs|
  {
    AbsorbIntoPrev(AbsorbNext(segs[k := segs[k].(isAllocated := false)], k), k)
  }

  /** Whether freeing the segment at k merges it with its successor / predecessor. */
  predicate NextFree(segs: seq<Seg>, k: nat)
  {
    k + 1 < |segs| && !segs[k + 1].isAllocated
  }

  predicate PrevFree(segs: seq<Seg>, k: nat)
    requires k < |segs|
  {
    k > 0 && !segs[k - 1].isAllocated
  }

  /**
   * The precondition a free needs beyond "k is allocated": the source adds
   * the freed segment to the gap index with `size > 0` asserted, so a
   * zero-byte allocation can only be freed next to a free neighbour.
   */
  predicate FreeableAt(segs: seq<Seg>, k: nat)
  {
    k < |segs| && segs[k].isAllocated
    && (segs[k].size > 0 || NextFree(segs, k) || PrevFree(segs, k))
  }

  /*
   * Both edits replace a short run segs[i..j] of the list by a new run x.
   * The lemmas below show once, for any such replacement, which conditions
   * on x keep the list invariant.
   */

  predicate Consecutive(x: seq<Seg>)
  {
    forall m :: 1 <= m < |x| ==> x[m].offset == x[m - 1].offset + x[m - 1].size
  }

  /** What a replacement must satisfy so that the list invariant survives it. */
  predicate ReplacementOk(segs: seq<Seg>, i: nat, j: nat, x: seq<Seg>, total: nat)
  {
    && i < j <= |segs| && |x| >= 1
    && x[0].offset == segs[i].offset
    && Consecutive(x)
    && x[|x| - 1].offset + x[|x| - 1].size == segs[j - 1].offset + segs[j - 1].size
    && NoAdjacentGaps(x)
    && (i > 0 ==> segs[i - 1].isAllocated || x[0].isAllocated)
    && (j < |segs| ==> x[|x| - 1].isAllocated || segs[j].isAllocated)
    && SlotsDistinct(x)
    && (forall m, n :: 0 <= m < |x| && 0 <= n < |segs| && (n < i || j <= n) ==> x[m].slot != segs[n].slot)
    && (total > 0 ==> GapsPositive(x))
  }

  lemma ReplaceAt(segs: seq<Seg>, i: nat, j: nat, x: seq<Seg>)
    requires i <= j <= |segs|
    ensures var r := segs[..i] + x + segs[j..];
      && |r| == |segs| - (j - i) + |x|
      && forall m :: 0 <= m < |r| ==>
           r[m] == if m < i then segs[m] else if m < i + |x| then x[m - i] else segs[m - i - |x| + j]
  {
  }

  lemma ReplaceTiles(segs: seq<Seg>, i: nat, j: nat, x: seq<Seg>, total: nat)
    requires Tiles(segs, total) && ReplacementOk(segs, i, j, x, total)
    ensures Tiles(segs[..i] + x + segs[j..], total)
  {
    var a := segs[..i];
    var b := segs[j..];
    ConsecutiveSlice(segs, 0, i);
    ConsecutiveSlice(segs, j, |segs|);
    assert segs[0..i] == a && segs[j..|segs|] == b;
    ConsecutiveAppend(a, x);
    ConsecutiveAppend(a + x, b);
    var r := a + x + b;
    assert r[0].offset == 0 by {
      if i == 0 { assert r[0] == x[0]; } else { assert r[0] == segs[0]; }
    }
    assert r[|r| - 1].offset + r[|r| - 1].size == total by {
      if j == |segs| { assert r[|r| - 1] == x[|x| - 1]; } else { assert r[|r| - 1] == segs[|segs| - 1]; }
    }
  }

  /** The tiles of a run are consecutive. */
  lemma ConsecutiveSlice(segs: seq<Seg>, lo: nat, hi: nat)
    requires Consecutive(segs) && lo <= hi <= |segs|
    ensures Consecutive(segs[lo..hi])
  {
    var t := segs[lo..hi];
    forall m | 1 <= m < |t|
      ensures t[m].offset == t[m - 1].offset + t[m - 1].size
    {
      assert t[m] == segs[lo + m] && t[m - 1] == segs[lo + m - 1];
    }
  }

  /** Two consecutive runs, the second starting where the first ends, join up. */
  lemma ConsecutiveAppend(a: seq<Seg>, b: seq<Seg>)
    requires Consecutive(a) && Consecutive(b)
    requires |a| > 0 && |b| > 0 ==> b[0].offset == a[|a| - 1].offset + a[|a| - 1].size
    ensures Consecutive(a + b)
  {
    var r := a + b;
    forall m | 1 <= m < |r|
      ensures r[m].offset == r[m - 1].offset + r[m - 1].size
    {
      if m < |a| {
        assert r[m] == a[m] && r[m - 1] == a[m - 1];
      } else if m == |a| {
        assert r[m] == b[0] && r[m - 1] == a[|a| - 1];
      } else {
        assert r[m] == b[m - |a|] && r[m - 1] == b[m - 1 - |a|];
      }
    }
  }

  lemma ReplaceNoAdjacentGaps(segs: seq<Seg>, i: nat, j: nat, x: seq<Seg>, total: nat)
    requires NoAdjacentGaps(segs) && ReplacementOk(segs, i, j, x, total)
    ensures NoAdjacentGaps(segs[..i] + x + segs[j..])
  {
    var r := segs[..i] + x + segs[j..];
    ReplaceAt(segs, i, j, x);
    forall m | 1 <= m < |r|
      ensures r[m - 1].isAllocated || r[m].isAllocated
    {
      if m < i {
      } else if m == i {
        assert r[m] == x[0] && r[m - 1] == segs[i - 1];
      } else if m < i + |x| {
        assert r[m] == x[m - i] && r[m - 1] == x[m - 1 - i];
      } else if m == i + |x| {
        assert r[m] == segs[j] && r[m - 1] == x[|x| - 1];
      } else {
        assert r[m] == segs[m - i - |x| + j] && r[m - 1] == segs[m - 1 - i - |x| + j];
      }
    }
  }

  lemma ReplaceSlots(segs: seq<Seg>, i: nat, j: nat, x: seq<Seg>, total: nat)
    requires SlotsDistinct(segs) && (total > 0 ==> GapsPositive(segs)) && ReplacementOk(segs, i, j, x, total)
    ensures SlotsDistinct(segs[..i] + x + segs[j..])
    ensures total > 0 ==> GapsPositive(segs[..i] + x + segs[j..])
  {
    var r := segs[..i] + x + segs[j..];
    ReplaceAt(segs, i, j, x);
    forall a, b | 0 <= a < b < |r|
      ensures r[a].slot != r[b].slot
    {
      if b < i {
      } else if a < i && b < i + |x| {
        assert r[a] == segs[a] && r[b] == x[b - i];
      } else if a < i {
        assert r[a] == segs[a] && r[b] == segs[b - i - |x| + j];
      } else if b < i + |x| {
        assert r[a] == x[a - i] && r[b] == x[b - i];
      } else if a < i + |x| {
        assert r[a] == x[a - i] && r[b] == segs[b - i - |x| + j];
      } else {
        assert r[a] == segs[a - i - |x| + j] && r[b] == segs[b - i - |x| + j];
      }
    }
    if total > 0 {
      forall m | 0 <= m < |r| && !r[m].isAllocated
        ensures r[m].size > 0
      {
        if i <= m < i + |x| {
          assert r[m] == x[m - i];
        }
      }
    }
  }

  /** Replacing a run by one that meets ReplacementOk keeps the list invariant. */
  lemma ReplaceOk(segs: seq<Seg>, i: nat, j: nat, x: seq<Seg>, total: nat)
    requires SegsOk(segs, total) && ReplacementOk(segs, i, j, x, total)
    ensures SegsOk(segs[..i] + x + segs[j..], total)
  {
    ReplaceTiles(segs, i, j, x, total);
    ReplaceNoAdjacentGaps(segs, i, j, x, total);
    ReplaceSlots(segs, i, j, x, total);
  }

  /** Replacing a run trades its counters and free entries for the new run's. */
  lemma ReplaceCounters(segs: seq<Seg>, i: nat, j: nat, x: seq<Seg>)
    requires i <= j <= |segs|
    ensures var r := segs[..i] + x + segs[j..];
      && CountAlloc(r) + CountAlloc(segs[i..j]) == CountAlloc(segs) + CountAlloc(x)
      && SumAlloc(r) + SumAlloc(segs[i..j]) == SumAlloc(segs) + SumAlloc(x)
      && multiset(FreeEntries(r)) + multiset(FreeEntries(segs[i..j]))
         == multiset(FreeEntries(segs)) + multiset(FreeEntries(x))
  {
    assert segs == segs[..i] + segs[i..j] + segs[j..];
    CountersAppend(segs[..i] + segs[i..j], segs[j..]);
    CountersAppend(segs[..i], segs[i..j]);
    CountersAppend(segs[..i] + x, segs[j..]);
    CountersAppend(segs[..i], x);
  }

  /** A slot that holds none of the segments. */
  predicate FreshSlot(segs: seq<Seg>, slot: nat)
  {
    forall n :: 0 <= n < |segs| ==> segs[n].slot != slot
  }

  /**
   * Allocating from a gap that fits keeps the list invariant, adds one
   * allocation of `size` bytes, and trades the gap's index entry for the
   * remainder's, if there is a remainder.
   */
  lemma SplitOk(segs: seq<Seg>, k: nat, size: nat, slot: nat, total: nat)
    requires SegsOk(segs, total) && k < |segs| && Fits(segs[k], size) && FreshSlot(segs, slot)
    ensures var r := Split(segs, k, size, slot);
      var residual := segs[k].size - size;
      && SegsOk(r, total)
      && |r| == |segs| + (if residual > 0 then 1 else 0)
      && r[k] == segs[k].(size := size, isAllocated := true)
      && (residual > 0 ==> r[k + 1] == Seg(segs[k].offset + size, residual, false, slot))
      && CountAlloc(r) == CountAlloc(segs) + 1
      && SumAlloc(r) == SumAlloc(segs) + size
      && (residual > 0 ==>
            multiset(FreeEntries(r)) + multiset{Entry(segs[k])}
            == multiset(FreeEntries(segs)) + multiset{Gap(residual, slot)})
      && (residual == 0 ==>
            multiset(FreeEntries(r)) + multiset{Entry(segs[k])} == multiset(FreeEntries(segs)))
  {
    SplitReplacement(segs, k, size, slot, total);
    SplitCounters(segs, k, size, slot);
    SplitEntries(segs, k, size, slot);
    SplitShape(segs, k, size, slot);
  }

  /** The counters of a one-segment slice holding a free segment. */
  lemma SingleGapCounters(segs: seq<Seg>, k: nat)
    requires k < |segs| && !segs[k].isAllocated
    ensures CountAlloc(segs[k..k + 1]) == 0 && SumAlloc(segs[k..k + 1]) == 0
    ensures FreeEntries(segs[k..k + 1]) == [Entry(segs[k])]
    ensures multiset(FreeEntries(segs[k..k + 1])) == multiset{Entry(segs[k])}
  {
    assert segs[k..k + 1] == [segs[k]];
    CountersSingle(segs[k]);
  }

  lemma SplitShape(segs: seq<Seg>, k: nat, size: nat, slot: nat)
    requires k < |segs| && size <= segs[k].size
    ensures var r := Split(segs, k, size, slot);
      var residual := segs[k].size - size;
      && |r| == |segs| + (if residual > 0 then 1 else 0)
      && r[k] == segs[k].(size := size, isAllocated := true)
      && (residual > 0 ==> r[k + 1] == Seg(segs[k].offset + size, residual, false, slot))
  {
    var x := SplitRun(segs[k], size, slot);
    ReplaceAt(segs, k, k + 1, x);
  }

  /** Splitting a gap keeps the list invariant. */
  lemma SplitReplacement(segs: seq<Seg>, k: nat, size: nat, slot: nat, total: nat)
    requires SegsOk(segs, total) && k < |segs| && Fits(segs[k], size) && FreshSlot(segs, slot)
    ensures SegsOk(Split(segs, k, size, slot), total)
  {
    var x := SplitRun(segs[k], size, slot);
    assert k + 1 < |segs| ==> segs[k + 1].isAllocated;
    forall m, n | 0 <= m < |x| && 0 <= n < |segs| && (n < k || k + 1 <= n)
      ensures x[m].slot != segs[n].slot
    {
    }
    ReplaceOk(segs, k, k + 1, x, total);
  }

  /** Splitting a gap adds one allocation of `size` bytes. */
  lemma SplitCounters(segs: seq<Seg>, k: nat, size: nat, slot: nat)
    requires k < |segs| && Fits(segs[k], size)
    ensures CountAlloc(Split(segs, k, size, slot)) == CountAlloc(segs) + 1
    ensures SumAlloc(Split(segs, k, size, slot)) == SumAlloc(segs) + size
  {
    ReplaceCounters(segs, k, k + 1, SplitRun(segs[k], size, slot));
    SplitRunCounters(segs[k], size, slot);
    SingleGapCounters(segs, k);
  }

  /** Splitting a gap trades its entry for the remainder's, if there is one. */
  lemma SplitEntries(segs: seq<Seg>, k: nat, size: nat, slot: nat)
    requires k < |segs| && Fits(segs[k], size)
    ensures segs[k].size - size > 0 ==>
      multiset(FreeEntries(Split(segs, k, size, slot))) + multiset{Entry(segs[k])}
      == multiset(FreeEntries(segs)) + multiset{Gap(segs[k].size - size, slot)}
    ensures segs[k].size == size ==>
      multiset(FreeEntries(Split(segs, k, size, slot))) + multiset{Entry(segs[k])}
      == multiset(FreeEntries(segs))
  {
    SplitRunEntries(segs[k], size, slot);
    if segs[k].size - size > 0 {
      GapTraded(segs, k, SplitRun(segs[k], size, slot), multiset{Gap(segs[k].size - size, slot)});
    } else {
      GapTraded(segs, k, SplitRun(segs[k], size, slot), multiset{});
    }
  }

  /**
   * Replacing a free segment by a run whose free entries are `t` trades the
   * segment's entry for `t`.
   */
  lemma GapTraded(segs: seq<Seg>, k: nat, x: seq<Seg>, t: multiset<Gap>)
    requires k < |segs| && !segs[k].isAllocated && multiset(FreeEntries(x)) == t
    ensures multiset(FreeEntries(segs[..k] + x + segs[k + 1..])) + multiset{Entry(segs[k])}
      == multiset(FreeEntries(segs)) + t
  {
    ReplaceCounters(segs, k, k + 1, x);
    SingleGapCounters(segs, k);
  }

  lemma SplitRunEntries(c: Seg, size: nat, slot: nat)
    requires size <= c.size
    ensures c.size - size > 0 ==> multiset(FreeEntries(SplitRun(c, size, slot))) == multiset{Gap(c.size - size, slot)}
    ensures c.size == size ==> multiset(FreeEntries(SplitRun(c, size, slot))) == multiset{}
  {
    SplitRunCounters(c, size, slot);
  }

  lemma SplitRunCounters(c: Seg, size: nat, slot: nat)
    requires size <= c.size
    ensures var x := SplitRun(c, size, slot);
      && CountAlloc(x) == 1 && SumAlloc(x) == size
      && FreeEntries(x) == (if c.size - size > 0 then [Gap(c.size - size, slot)] else [])
  {
    var a := c.(size := size, isAllocated := true);
    var g := if c.size - size > 0 then [Seg(c.offset + size, c.size - size, false, slot)] else [];
    CountersSingle(a);
    CountersAppend([a], g);
    if c.size - size > 0 {
      CountersSingle(g[0]);
    }
  }

  /** Where the segment that survives a free sits: the predecessor or k. */
  function CoalescedIndex(segs: seq<Seg>, k: nat): nat
    requires k < |segs|
  {
    if PrevFree(segs, k) then k - 1 else k
  }

  /** The size of the free segment a free at k leaves behind. */
  function CoalescedSize(segs: seq<Seg>, k: nat): nat
    requires k < |segs|
  {
    (if PrevFree(segs, k) then segs[k - 1].size else 0) + segs[k].size
    + (if NextFree(segs, k) then segs[k + 1].size else 0)
  }

  /** The index entries of the neighbours a free at k absorbs. */
  function AbsorbedEntries(segs: seq<Seg>, k: nat): multiset<Gap>
    requires k < |segs|
  {
    (if NextFree(segs, k) then multiset{Entry(segs[k + 1])} else multiset{})
    + (if PrevFree(segs, k) then multiset{Entry(segs[k - 1])} else multiset{})
  }

  /** Coalesce is the replacement of the absorbed run by one merged gap. */
  lemma CoalesceShape(segs: seq<Seg>, k: nat)
    requires k < |segs|
    ensures var i := CoalescedIndex(segs, k);
      var j := if NextFree(segs, k) then k + 2 else k + 1;
      Coalesce(segs, k)
      == segs[..i] + [Seg(segs[i].offset, CoalescedSize(segs, k), false, segs[i].slot)] + segs[j..]
  {
    var f := segs[k := segs[k].(isAllocated := false)];
    var s1 := AbsorbNext(f, k);
    assert f[..k] == segs[..k];
    assert k > 0 ==> f[k - 1] == segs[k - 1];
    if NextFree(segs, k) {
      assert f[k + 2..] == segs[k + 2..];
      assert s1 == segs[..k] + [segs[k].(isAllocated := false, size := segs[k].size + segs[k + 1].size)] + segs[k + 2..];
      if PrevFree(segs, k) {
        assert s1[..k - 1] == segs[..k - 1];
        assert s1[k + 1..] == segs[k + 2..];
      }
    } else {
      assert f[k + 1..] == segs[k + 1..];
      assert s1 == segs[..k] + [segs[k].(isAllocated := false)] + segs[k + 1..];
      if PrevFree(segs, k) {
        assert s1[..k - 1] == segs[..k - 1];
        assert s1[k + 1..] == segs[k + 1..];
      }
    }
  }

  /**
   * Freeing an allocation keeps the list invariant (in particular no two
   * neighbours are free afterwards), removes one allocation of its size,
   * drops one list element per merge, and changes the free entries by
   * removing those of the absorbed neighbours and adding the merged gap's.
   */
  lemma CoalesceOk(segs: seq<Seg>, k: nat, total: nat)
    requires SegsOk(segs, total) && FreeableAt(segs, k)
    ensures var r := Coalesce(segs, k);
      var i := CoalescedIndex(segs, k);
      && SegsOk(r, total)
      && |r| == |segs| - (if NextFree(segs, k) then 1 else 0) - (if PrevFree(segs, k) then 1 else 0)
      && i < |r| && r[i] == Seg(segs[i].offset, CoalescedSize(segs, k), false, segs[i].slot)
      && CountAlloc(r) + 1 == CountAlloc(segs)
      && SumAlloc(r) + segs[k].size == SumAlloc(segs)
      && multiset(FreeEntries(r)) + AbsorbedEntries(segs, k)
         == multiset(FreeEntries(segs)) + multiset{Entry(r[i])}
  {
    var i := CoalescedIndex(segs, k);
    var j := if NextFree(segs, k) then k + 2 else k + 1;
    var m := Seg(segs[i].offset, CoalescedSize(segs, k), false, segs[i].slot);
    var r := Coalesce(segs, k);
    CoalesceShape(segs, k);
    CoalesceReplacement(segs, k, total);
    ReplaceOk(segs, i, j, [m], total);
    ReplaceCounters(segs, i, j, [m]);
    CountersSingle(m);
    CoalesceRunCounters(segs, k);
    ReplaceAt(segs, i, j, [m]);
    assert r[i] == m;
  }

  lemma CoalesceReplacement(segs: seq<Seg>, k: nat, total: nat)
    requires SegsOk(segs, total) && FreeableAt(segs, k)
    ensures var i := CoalescedIndex(segs, k);
      var j := if NextFree(segs, k) then k + 2 else k + 1;
      ReplacementOk(segs, i, j, [Seg(segs[i].offset, CoalescedSize(segs, k), false, segs[i].slot)], total)
  {
    var i := CoalescedIndex(segs, k);
    var j := if NextFree(segs, k) then k + 2 else k + 1;
    assert PrevFree(segs, k) ==> k - 1 == 0 || segs[k - 2].isAllocated;
    assert NextFree(segs, k) ==> k + 2 == |segs| || segs[k + 2].isAllocated;
    assert !PrevFree(segs, k) ==> k == 0 || segs[k - 1].isAllocated;
    assert !NextFree(segs, k) ==> k + 1 == |segs| || segs[k + 1].isAllocated;
    assert PrevFree(segs, k) ==> segs[k].offset == segs[k - 1].offset + segs[k - 1].size;
    assert NextFree(segs, k) ==> segs[k + 1].offset == segs[k].offset + segs[k].size;
    assert total > 0 ==> CoalescedSize(segs, k) > 0;
  }

  /** The absorbed run holds one allocation, the freed one, and the absorbed gaps. */
  lemma CoalesceRunCounters(segs: seq<Seg>, k: nat)
    requires NoAdjacentGaps(segs) && FreeableAt(segs, k)
    ensures var i := CoalescedIndex(segs, k);
      var j := if NextFree(segs, k) then k + 2 else k + 1;
      && CountAlloc(segs[i..j]) == 1 && SumAlloc(segs[i..j]) == segs[k].size
      && multiset(FreeEntries(segs[i..j])) == AbsorbedEntries(segs, k)
  {
    var i := CoalescedIndex(segs, k);
    var j := if NextFree(segs, k) then k + 2 else k + 1;
    var a := if PrevFree(segs, k) then segs[k - 1] else segs[k];
    var b := if NextFree(segs, k) then segs[k + 1] else segs[k];
    assert segs[i..j] == Run(PrevFree(segs, k), a, segs[k], NextFree(segs, k), b);
    RunCounters(PrevFree(segs, k), a, segs[k], NextFree(segs, k), b);
  }

  /** The run of s with free neighbour a before it when hasA, and b after it when hasB. */
  function Run(hasA: bool, a: Seg, s: Seg, hasB: bool, b: Seg): seq<Seg>
  {
    (if hasA then [a] else []) + [s] + (if hasB then [b] else [])
  }

  /**
   * A run of one allocation s between at most one free segment on each
   * side counts one allocation of s's size, and its free entries are the
   * entries of its neighbours.
   */
  lemma RunCounters(hasA: bool, a: Seg, s: Seg, hasB: bool, b: Seg)
    requires s.isAllocated && (hasA ==> !a.isAllocated) && (hasB ==> !b.isAllocated)
    ensures CountAlloc(Run(hasA, a, s, hasB, b)) == 1
    ensures SumAlloc(Run(hasA, a, s, hasB, b)) == s.size
    ensures multiset(FreeEntries(Run(hasA, a, s, hasB, b)))
      == (if hasB then multiset{Entry(b)} else multiset{}) + (if hasA then multiset{Entry(a)} else multiset{})
  {
    var p: seq<Seg> := if hasA then [a] else [];
    var q: seq<Seg> := if hasB then [b] else [];
    CountersSingle(s);
    CountersAppend(p + [s], q);
    CountersAppend(p, [s]);
    if hasA { CountersSingle(a); }
    if hasB { CountersSingle(b); }
  }

  /**
   * Allocating from a gap and then freeing the allocation gives back the
   * list exactly as it was: same segments, same sizes, same slots.
   */
  lemma RoundTrip(segs: seq<Seg>, k: nat, size: nat, slot: nat, total: nat)
    requires SegsOk(segs, total) && k < |segs| && Fits(segs[k], size) && FreshSlot(segs, slot)
    ensures k < |Split(segs, k, size, slot)|
    ensures Coalesce(Split(segs, k, size, slot), k) == segs
  {
    assert k > 0 ==> segs[k - 1].isAllocated;
    assert k + 1 < |segs| ==> segs[k + 1].isAllocated;
    RoundTripAt(segs, k, size, slot);
  }

  lemma RoundTripAt(segs: seq<Seg>, k: nat, size: nat, slot: nat)
    requires k < |segs| && Fits(segs[k], size)
    requires k > 0 ==> segs[k - 1].isAllocated
    requires k + 1 < |segs| ==> segs[k + 1].isAllocated
    ensures k < |Split(segs, k, size, slot)|
    ensures Coalesce(Split(segs, k, size, slot), k) == segs
  {
    var c := segs[k];
    assert segs == segs[..k] + [c] + segs[k + 1..];
    var x := SplitRun(c, size, slot);
    var r := Split(segs, k, size, slot);
    ReplaceAt(segs, k, k + 1, x);
    assert r[k] == x[0];
    assert k > 0 ==> r[k - 1] == segs[k - 1];
    assert !PrevFree(r, k);
    CoalesceShape(r, k);
    assert r[..k] == segs[..k];
    if c.size - size > 0 {
      assert r[k + 1] == x[1] && NextFree(r, k);
      assert r[k + 2..] == segs[k + 1..];
    } else {
      assert k + 1 < |segs| ==> r[k + 1] == segs[k + 1];
      assert !NextFree(r, k);
      assert r[k + 1..] == segs[k + 1..];
    }
  }

  /** A pool with nothing allocated: one free segment spanning all of it. */
  predicate Pristine(segs: seq<Seg>, total: nat)
  {
    |segs| == 1 && segs[0].offset == 0 && segs[0].size == total && !segs[0].isAllocated
  }

  /**
   * In a well-formed list, holding no allocation and being one free segment
   * over the whole pool are the same; such a list has exactly one free entry.
   */
  lemma NothingAllocatedIsPristine(segs: seq<Seg>, total: nat)
    requires SegsOk(segs, total)
    ensures CountAlloc(segs) == 0 <==> Pristine(segs, total)
    ensures Pristine(segs, total) ==> |FreeEntries(segs)| == 1
  {
    if CountAlloc(segs) == 0 {
      NoneAllocated(segs);
    }
    if Pristine(segs, total) {
      assert segs[1..] == [];
    }
  }

  /** A list that counts no allocation holds only free segments. */
  lemma {:induction false} NoneAllocated(segs: seq<Seg>)
    requires CountAlloc(segs) == 0
    ensures forall k :: 0 <= k < |segs| ==> !segs[k].isAllocated
  {
    if segs != [] {
      NoneAllocated(segs[1..]);
      assert forall k :: 1 <= k < |segs| ==> segs[k] == segs[1..][k - 1];
    }
  }
}
