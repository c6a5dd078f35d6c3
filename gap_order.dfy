/**
 * The order the gap index is kept in, and the two ways it is edited:
 * an append followed by one backward bubble pass (_mem_add_to_gap_ix and
 * _mem_sort_gap_ix) and a stable shift-down delete (_mem_remove_from_gap_ix).
 * Everything here is about sequences of entries; the array code that
 * performs the edits lives in MemPool.
 */
module GapOrder {
  import opened PoolTypes

  /**
   * Strict order of the index: by size, ties broken by the node.  The node's
   * address in the source becomes its slot in the node heap, which orders
   * the same way because all nodes live in one array.
   */
  predicate Lt(a: Gap, b: Gap)
  {
    a.size < b.size || (a.size == b.size && a.node < b.node)
  }

  predicate Le(a: Gap, b: Gap)
  {
    !Lt(b, a)
  }

  predicate Sorted(s: seq<Gap>)
  {
    forall i, j :: 0 <= i < j < |s| ==> Le(s[i], s[j])
  }

  /** Every slot from n on is cleared. */
  predicate EmptyFrom(s: seq<Gap>, n: nat)
  {
    forall i :: n <= i < |s| ==> s[i] == EMPTY_GAP
  }

  /**
   * An array whose first m slots are the old contents, cleared from n on,
   * and whose other slots are cleared, is cleared from n on.
   */
  lemma EmptyFromGrown(s: seq<Gap>, t: seq<Gap>, n: nat)
    requires |t| <= |s| && s[..|t|] == t && EmptyFrom(t, n) && EmptyFrom(s, |t|)
    ensures EmptyFrom(s, n)
  {
    forall i | n <= i < |t|
      ensures s[i] == EMPTY_GAP
    {
      assert s[..|t|][i] == s[i];
    }
  }

  /** Whether the slots from n on are cleared depends on those slots only. */
  lemma EmptyFromSameTail(s: seq<Gap>, t: seq<Gap>, n: nat)
    requires n <= |s| && n <= |t| && s[n..] == t[n..] && EmptyFrom(t, n)
    ensures EmptyFrom(s, n)
  {
    forall i | n <= i < |s|
      ensures s[i] == EMPTY_GAP
    {
      assert s[n..][i - n] == s[i];
      assert t[n..][i - n] == t[i];
    }
  }

  /** No two entries refer to the same node. */
  predicate NodesDistinct(s: seq<Gap>)
  {
    forall i, j :: 0 <= i < j < |s| ==> s[i].node != s[j].node
  }

  /**
   * The swap test of the bubble pass, with `cur` the entry at i and `prev`
   * the entry at i - 1, written with all three disjuncts of the source.
   */
  predicate SwapTest(cur: Gap, prev: Gap)
  {
    var nextSizeSmaller := cur.size < prev.size;
    var nextAddressSmaller := cur.node < prev.node;
    var nextSizeEqual := cur.size == prev.size;
    var nextNonEmpty := cur.size != 0;
    var currentEmpty := cur.size == 0;
    (currentEmpty && nextNonEmpty) || (nextSizeSmaller && nextNonEmpty)
    || (nextSizeEqual && nextAddressSmaller && nextNonEmpty)
  }

  /**
   * The first disjunct of the swap test can never hold, because both of its
   * halves test the same entry: the test is the key order on a non-empty
   * entry, and an empty entry is never moved in front of anything.
   */
  lemma SwapTestIsKeyOrder(cur: Gap, prev: Gap)
    ensures SwapTest(cur, prev) <==> cur.size != 0 && Lt(cur, prev)
    ensures cur.size == 0 ==> !SwapTest(cur, prev)
  {
  }

  lemma LtLeTrans(a: Gap, b: Gap, c: Gap)
    requires Lt(a, b) && Le(b, c)
    ensures Lt(a, c)
  {
  }

  /** Where one bubble pass leaves a new entry `e` appended to sorted `p`. */
  function InsertPos(p: seq<Gap>, e: Gap): (k: nat)
    ensures k <= |p|
    ensures forall j :: 0 <= j < k ==> !Lt(e, p[j])
    ensures k < |p| ==> Lt(e, p[k])
    decreases |p|
  {
    if |p| == 0 then 0
    else if Lt(e, p[0]) then 0
    else 1 + InsertPos(p[1..], e)
  }

  /** `p` with `e` placed at its insertion position. */
  function Insert(p: seq<Gap>, e: Gap): seq<Gap>
  {
    var k := InsertPos(p, e);
    p[..k] + [e] + p[k..]
  }

  /**
   * Inserting into a sorted index keeps it sorted and adds exactly the new
   * entry: the bubble pass re-establishes the order without a full sort.
   */
  lemma InsertSorted(p: seq<Gap>, e: Gap)
    requires Sorted(p)
    ensures |Insert(p, e)| == |p| + 1
    ensures Sorted(Insert(p, e))
    ensures multiset(Insert(p, e)) == multiset(p) + multiset{e}
  {
    var k := InsertPos(p, e);
    var r := Insert(p, e);
    assert multiset(r) == multiset(p) + multiset{e} by {
      assert p[..k] + p[k..] == p;
    }
    forall i, j | 0 <= i < j < |r|
      ensures Le(r[i], r[j])
    {
      InsertAt(p, e, i);
      InsertAt(p, e, j);
      if i == k && k < j - 1 {
        LtLeTrans(e, p[k], p[j - 1]);
      }
    }
  }

  /** The entry at position i of `p` with `e` inserted. */
  lemma InsertAt(p: seq<Gap>, e: Gap, i: nat)
    requires i <= |p|
    ensures |Insert(p, e)| == |p| + 1
    ensures Insert(p, e)[i]
      == if i < InsertPos(p, e) then p[i] else if i == InsertPos(p, e) then e else p[i - 1]
  {
  }

  /** A new entry whose node is not yet indexed keeps the nodes distinct. */
  lemma InsertDistinct(p: seq<Gap>, e: Gap)
    requires NodesDistinct(p) && forall i :: 0 <= i < |p| ==> p[i].node != e.node
    ensures NodesDistinct(Insert(p, e))
  {
    var k := InsertPos(p, e);
    var r := Insert(p, e);
    forall i, j | 0 <= i < j < |r|
      ensures r[i].node != r[j].node
    {
      assert r[i] == if i < k then p[i] else if i == k then e else p[i - 1];
      assert r[j] == if j < k then p[j] else if j == k then e else p[j - 1];
    }
  }

  /**
   * One step of the bubble pass at slot i, with the new entry `e` at slot i
   * until it reaches its insertion position: the pass swaps exactly while
   * `e` has not reached that position, and a swap moves it down one slot.
   */
  lemma BubbleStep(p: seq<Gap>, e: Gap, i: nat, a: seq<Gap>)
    requires Sorted(p) && e.size > 0 && 0 < i <= |p|
    requires InsertPos(p, e) <= i ==> a == p[..i] + [e] + p[i..]
    requires i < InsertPos(p, e) ==> a == Insert(p, e)
    ensures SwapTest(a[i], a[i - 1]) <==> InsertPos(p, e) < i
    ensures InsertPos(p, e) < i ==> a[i - 1 := a[i]][i := a[i - 1]] == p[..i - 1] + [e] + p[i - 1..]
  {
    var pos := InsertPos(p, e);
    if pos < i {
      assert a[i] == e && a[i - 1] == p[i - 1];
      if pos < i - 1 {
        LtLeTrans(e, p[pos], p[i - 1]);
      }
      SwapTestIsKeyOrder(e, p[i - 1]);
    } else if pos == i {
      assert a[i] == e && a[i - 1] == p[i - 1];
      SwapTestIsKeyOrder(e, p[i - 1]);
    } else {
      assert a[i] == p[i] && a[i - 1] == p[i - 1];
      SwapTestIsKeyOrder(p[i], p[i - 1]);
    }
  }

  /**
   * The slot `_mem_remove_from_gap_ix` deletes: the first of the first `n`
   * entries that refers to `node`, or `n` when there is none.
   */
  function FindNode(s: seq<Gap>, n: nat, node: int, from: nat): (k: nat)
    requires from <= n <= |s|
    ensures from <= k <= n
    ensures k < n ==> s[k].node == node
    ensures forall i :: from <= i < k ==> s[i].node != node
    decreases n - from
  {
    if from == n then n
    else if s[from].node == node then from
    else FindNode(s, n, node, from + 1)
  }

  /** FindNode is the first index whose entry refers to `node`, or n. */
  lemma FindNodeIs(s: seq<Gap>, n: nat, node: int, k: nat)
    requires k <= n <= |s|
    requires k < n ==> s[k].node == node
    requires forall j :: 0 <= j < k ==> s[j].node != node
    ensures FindNode(s, n, node, 0) == k
  {
  }

  /**
   * The array after the shift-down delete of slot k among n live entries:
   * the entries after k move down one place, including the one at n, and
   * slot n is cleared.
   */
  function ShiftDown(s: seq<Gap>, n: nat, k: nat): (r: seq<Gap>)
    requires k <= n < |s|
    ensures |r| == |s|
  {
    s[..k] + s[k + 1..n + 1] + [EMPTY_GAP] + s[n + 1..]
  }

  /** ShiftDown, stated slot by slot. */
  lemma ShiftDownIs(s: seq<Gap>, r: seq<Gap>, n: nat, k: nat)
    requires k <= n < |s| && |r| == |s|
    requires forall j :: 0 <= j < k ==> r[j] == s[j]
    requires forall j :: k <= j < n ==> r[j] == s[j + 1]
    requires r[n] == EMPTY_GAP
    requires forall j :: n < j < |s| ==> r[j] == s[j]
    ensures r == ShiftDown(s, n, k)
  {
    var t := ShiftDown(s, n, k);
    forall j | 0 <= j < |s|
      ensures r[j] == t[j]
    {
      if j < k {
        assert t[j] == s[..k][j];
      } else if j < n {
        assert t[j] == s[k + 1..n + 1][j - k];
      } else if j > n {
        assert t[j] == s[n + 1..][j - n - 1];
      }
    }
  }

  /** An entry present among the first n is the one FindNode locates. */
  lemma FindNodeLocates(s: seq<Gap>, n: nat, e: Gap)
    requires n <= |s| && e in multiset(s[..n]) && NodesDistinct(s[..n])
    ensures FindNode(s, n, e.node, 0) < n && s[FindNode(s, n, e.node, 0)] == e
  {
    var m :| 0 <= m < n && s[..n][m] == e;
    var k := FindNode(s, n, e.node, 0);
    assert k <= m;
    assert s[..n][k] == s[k];
  }

  /** Dropping one entry keeps the order, the positivity and distinctness. */
  lemma DeleteAt(s: seq<Gap>, k: nat)
    requires k < |s|
    ensures var t := s[..k] + s[k + 1..];
      && multiset(t) == multiset(s) - multiset{s[k]}
      && (Sorted(s) ==> Sorted(t))
      && (NodesDistinct(s) ==> NodesDistinct(t))
  {
    assert s == s[..k] + [s[k]] + s[k + 1..];
    assert multiset(s) == multiset(s[..k]) + multiset{s[k]} + multiset(s[k + 1..]);
    if Sorted(s) {
      DeleteSorted(s, k);
    }
    if NodesDistinct(s) {
      DeleteDistinct(s, k);
    }
  }

  lemma DeleteSorted(s: seq<Gap>, k: nat)
    requires k < |s| && Sorted(s)
    ensures Sorted(s[..k] + s[k + 1..])
  {
    var t := s[..k] + s[k + 1..];
    forall i, j | 0 <= i < j < |t|
      ensures Le(t[i], t[j])
    {
      assert t[i] == s[if i < k then i else i + 1];
      assert t[j] == s[if j < k then j else j + 1];
    }
  }

  lemma DeleteDistinct(s: seq<Gap>, k: nat)
    requires k < |s| && NodesDistinct(s)
    ensures NodesDistinct(s[..k] + s[k + 1..])
  {
    var t := s[..k] + s[k + 1..];
    forall i, j | 0 <= i < j < |t|
      ensures t[i].node != t[j].node
    {
      assert t[i] == s[if i < k then i else i + 1];
      assert t[j] == s[if j < k then j else j + 1];
    }
  }

  /** The live part and the tail of the array after a shift-down delete. */
  lemma ShiftDownShape(s: seq<Gap>, n: nat, k: nat)
    requires k < n < |s| && EmptyFrom(s, n)
    ensures var r := ShiftDown(s, n, k);
      r[..n - 1] == s[..n][..k] + s[..n][k + 1..] && EmptyFrom(r, n - 1)
  {
    var r := ShiftDown(s, n, k);
    assert r[..n - 1] == s[..k] + s[k + 1..n];
    forall i | n - 1 <= i < |r|
      ensures r[i] == EMPTY_GAP
    {
      if i == n - 1 {
        assert r[i] == s[n];
      } else if i == n {
        assert r[i] == EMPTY_GAP;
      } else {
        assert r[i] == s[i];
      }
    }
  }

  /**
   * Deleting an entry that is present, from an index whose entries refer to
   * distinct nodes, removes exactly that entry, keeps the order of the rest,
   * leaves no entry for its node, and leaves every slot from n - 1 on cleared.
   */
  lemma RemoveEntry(s: seq<Gap>, n: nat, e: Gap)
    requires n < |s| && e in multiset(s[..n])
    requires NodesDistinct(s[..n]) && Sorted(s[..n]) && EmptyFrom(s, n)
    ensures FindNode(s, n, e.node, 0) < n && s[FindNode(s, n, e.node, 0)] == e
    ensures var r := ShiftDown(s, n, FindNode(s, n, e.node, 0));
      && multiset(r[..n - 1]) == multiset(s[..n]) - multiset{e}
      && Sorted(r[..n - 1]) && NodesDistinct(r[..n - 1])
      && (forall i :: 0 <= i < n - 1 ==> r[i].node != e.node)
      && EmptyFrom(r, n - 1)
  {
    FindNodeLocates(s, n, e);
    var k := FindNode(s, n, e.node, 0);
    ShiftDownShape(s, n, k);
    DeleteAt(s[..n], k);
    var r := ShiftDown(s, n, k);
    forall i | 0 <= i < n - 1
      ensures r[i].node != e.node
    {
      var m := if i < k then i else i + 1;
      assert r[i] == s[..n][m];
      assert s[..n][k] == e;
    }
  }

  /** The first slot of `s` whose size is at least `size`, or |s|. */
  function FirstSufficient(s: seq<Gap>, size: nat, from: nat): (i: nat)
    requires from <= |s|
    ensures from <= i <= |s|
    ensures i < |s| ==> s[i].size >= size
    ensures forall j :: from <= j < i ==> s[j].size < size
    decreases |s| - from
  {
    if from == |s| then |s|
    else if s[from].size >= size then from
    else FirstSufficient(s, size, from + 1)
  }

  /**
   * In a sorted index followed by cleared slots, the first entry of at least
   * `size` is a live entry no greater, in the index order, than any other
   * live entry of at least `size`: the first fit in the index is the best fit.
   */
  lemma FirstSufficientIsLeast(s: seq<Gap>, n: nat, size: nat)
    requires n <= |s| && Sorted(s[..n]) && EmptyFrom(s, n)
    requires size > 0 || n > 0
    ensures var i := FirstSufficient(s, size, 0);
      (i < |s| <==> exists j :: 0 <= j < n && s[j].size >= size)
      && (i < |s| ==> i < n && forall j :: 0 <= j < n && s[j].size >= size ==> Le(s[i], s[j]))
  {
    var i := FirstSufficient(s, size, 0);
    if i < |s| {
      if size == 0 {
        assert i == 0;
      } else {
        assert s[i] != EMPTY_GAP;
      }
      forall j | 0 <= j < n && s[j].size >= size
        ensures Le(s[i], s[j])
      {
        assert i <= j;
        if i < j {
          assert s[..n][i] == s[i] && s[..n][j] == s[j];
        }
      }
    }
  }
}
