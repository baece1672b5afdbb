/**
 Quicksort (QuicksortSorter): the non-recursive variant with an explicit stack
 of pending windows. Windows are kept relative to `fromIndex`. A window shorter
 than `M + 1` elements is finished by straight insertion and the next window is
 popped; a longer one is partitioned around a median-of-three pivot, the larger
 side is pushed and the smaller side is processed next. Each push takes two
 slots of a stack of `NStack` integers; when the slots run out the sort throws
 `sortingError`.

 The proof tracks the pending windows as a ghost list `stk + [current]` and
 keeps the array "sorted across windows": two positions that do not lie in the
 same pending window are already in order.
 */
module Quicksort {
  import opened Ordering
  import opened SortErrors
  import opened Partitioning
  import opened StraightInsertion

  /** QuicksortSorter.M: windows with `ir - l < M` are insertion-sorted. */
  const M: int := 7
  /** QuicksortSorter.NStack: the number of integer slots of the explicit stack. */
  const NStack: int := 64

  /** A pending window `lo .. hi` (both inclusive, relative to `fromIndex`). */
  datatype Block = Block(lo: int, hi: int)

  function Size(b: Block): nat {
    if b.lo <= b.hi then b.hi - b.lo + 1 else 0
  }

  /** Total number of positions in the pending windows; it bounds the work left. */
  function TotalSize(bs: seq<Block>): nat {
    if |bs| == 0 then 0 else TotalSize(bs[..|bs| - 1]) + Size(bs[|bs| - 1])
  }

  /** The index of the last pending window that contains `k`, or -1 when `k`
      is settled. */
  ghost function LabelOf(bs: seq<Block>, k: int): int
    decreases |bs|
  {
    if |bs| == 0 then -1
    else if bs[|bs| - 1].lo <= k <= bs[|bs| - 1].hi then |bs| - 1
    else LabelOf(bs[..|bs| - 1], k)
  }

  /** Any two positions of the range that are not in the same pending window
      are already in ascending order. */
  ghost predicate SortedAcross<T>(cmp: (T, T) -> int, r: seq<T>, from: int, n: int, bs: seq<Block>)
    requires 0 <= from && 0 <= n && from + n <= |r|
  {
    forall x, y :: 0 <= x < y < n && (LabelOf(bs, x) < 0 || LabelOf(bs, x) != LabelOf(bs, y)) ==>
      cmp(r[from + x], r[from + y]) <= 0
  }

  lemma LabelPush(bs: seq<Block>, b: Block, k: int)
    ensures LabelOf(bs + [b], k) == if b.lo <= k <= b.hi then |bs| else LabelOf(bs, k)
    ensures LabelOf(bs, k) < |bs|
  {
    assert (bs + [b])[..|bs|] == bs;
    LabelBound(bs, k);
  }

  lemma {:induction false} LabelBound(bs: seq<Block>, k: int)
    ensures -1 <= LabelOf(bs, k) < |bs|
    decreases |bs|
  {
    if |bs| > 0 {
      LabelBound(bs[..|bs| - 1], k);
    }
  }

  lemma TotalSizePush(bs: seq<Block>, b: Block)
    ensures TotalSize(bs + [b]) == TotalSize(bs) + Size(b)
  {
    assert (bs + [b])[..|bs|] == bs;
  }

  /** The explicit stack `istack[0 .. jstack]` holds the pending windows `stk`
      other than the current one, two slots per window (left end first), all
      inside the range of length `n`. */
  ghost predicate StackHolds(istack: seq<int>, jstack: int, stk: seq<Block>, n: int) {
    && |istack| == NStack && jstack == 2 * |stk| - 1 && jstack < NStack
    && (forall m :: 0 <= m < |stk| ==> istack[2 * m] == stk[m].lo && istack[2 * m + 1] == stk[m].hi)
    && (forall m :: 0 <= m < |stk| ==> 0 <= stk[m].lo <= stk[m].hi < n)
  }

  /** `istack[jstack] = hi; istack[jstack - 1] = lo` after `jstack += 2` records one more window. */
  lemma StackPush(istack: seq<int>, jstack: int, stk: seq<Block>, n: int, b: Block)
    requires StackHolds(istack, jstack - 2, stk, n) && 0 < jstack < NStack
    requires 0 <= b.lo <= b.hi < n
    ensures StackHolds(istack[jstack := b.hi][jstack - 1 := b.lo], jstack, stk + [b], n)
  {
  }

  /** Reading `istack[jstack]` and `istack[jstack - 1]` pops the last window. */
  lemma StackPop(istack: seq<int>, jstack: int, stk: seq<Block>, n: int)
    requires StackHolds(istack, jstack, stk, n) && jstack >= 0
    ensures |stk| > 0 && istack[jstack] == stk[|stk| - 1].hi && istack[jstack - 1] == stk[|stk| - 1].lo
    ensures StackHolds(istack, jstack - 2, stk[..|stk| - 1], n)
    ensures 0 <= stk[|stk| - 1].lo <= stk[|stk| - 1].hi < n
    ensures TotalSize(stk) == TotalSize(stk[..|stk| - 1]) + Size(stk[|stk| - 1])
  {
  }

  /** At the start the whole range is one pending window. */
  lemma StartAcross<T>(cmp: (T, T) -> int, r: seq<T>, from: int, n: int, bs: seq<Block>)
    requires 0 <= from && 0 < n && from + n <= |r|
    requires bs == [Block(0, n - 1)]
    ensures SortedAcross(cmp, r, from, n, bs)
  {
    assert [] + [Block(0, n - 1)] == bs;
    forall x | 0 <= x < n
      ensures LabelOf(bs, x) == 0
    {
      LabelPush([], Block(0, n - 1), x);
    }
  }

  /** With no window pending, the range is sorted. */
  lemma NoneLeft<T>(cmp: (T, T) -> int, r: seq<T>, from: int, n: int)
    requires 0 <= from && 0 <= n && from + n <= |r|
    requires SortedAcross(cmp, r, from, n, [])
    ensures SortedBetween(cmp, r, from, from + n)
  {
    forall i, j | from <= i < j < from + n
      ensures cmp(r[i], r[j]) <= 0
    {
      var x, y := i - from, j - from;
      assert LabelOf([], x) < 0 && LabelOf([], y) < 0;
      assert cmp(r[from + x], r[from + y]) <= 0;
    }
  }

  /** Sorting the current window (the last in the list) in place settles all
      of its positions: the array stays sorted across the remaining windows. */
  lemma SettleCurrent<T(!new)>(cmp: (T, T) -> int, r0: seq<T>, r: seq<T>, from: int, n: int, stk: seq<Block>, cur: Block)
    requires IsTotalPreorder(cmp)
    requires 0 <= from && from + n <= |r0| && 0 <= cur.lo <= cur.hi < n
    requires SortedAcross(cmp, r0, from, n, stk + [cur])
    requires Permutes(r0, r, from + cur.lo, from + cur.hi + 1)
    requires SortedBetween(cmp, r, from + cur.lo, from + cur.hi + 1)
    ensures SortedAcross(cmp, r, from, n, stk)
  {
    var lo, hi := from + cur.lo, from + cur.hi + 1;
    forall x, y | 0 <= x < y < n && (LabelOf(stk, x) < 0 || LabelOf(stk, x) != LabelOf(stk, y))
      ensures cmp(r[from + x], r[from + y]) <= 0
    {
      LabelPush(stk, cur, x);
      LabelPush(stk, cur, y);
      var inX, inY := cur.lo <= x <= cur.hi, cur.lo <= y <= cur.hi;
      if inX && !inY {
        forall k | lo <= k < hi ensures cmp(r0[k], r0[from + y]) <= 0 {
          LabelPush(stk, cur, k - from);
          assert r0[from + (k - from)] == r0[k];
        }
        RangeBelow(cmp, r0, r, lo, hi, r0[from + y]);
        assert r[from + x] == r[lo + (x - cur.lo)];
      } else if !inX && inY {
        forall k | lo <= k < hi ensures cmp(r0[from + x], r0[k]) <= 0 {
          LabelPush(stk, cur, k - from);
          assert r0[from + (k - from)] == r0[k];
        }
        RangeAbove(cmp, r0, r, lo, hi, r0[from + x]);
        assert r[from + y] == r[lo + (y - cur.lo)];
      }
    }
  }

  /** Partitioning the current window splits it into a left window before the
      pivot and a right window from `i` on; the positions between them are
      settled. With the two new windows pushed in either order, the array is
      sorted across the windows. */
  lemma SplitCurrent<T(!new)>(cmp: (T, T) -> int, r0: seq<T>, r: seq<T>, from: int, n: int,
                              stk: seq<Block>, cur: Block, j: int, i: int, p: Block, c: Block)
    requires IsTotalPreorder(cmp)
    requires 0 <= from && from + n <= |r0| && 0 <= cur.lo && cur.lo + 2 <= cur.hi < n
    requires SortedAcross(cmp, r0, from, n, stk + [cur])
    requires Permutes(r0, r, from + cur.lo, from + cur.hi + 1)
    requires cur.lo + 1 <= j < i <= cur.hi
    requires forall k :: from + cur.lo <= k < from + i ==> cmp(r[k], r[from + j]) <= 0
    requires forall k :: from + j < k <= from + cur.hi ==> cmp(r[from + j], r[k]) <= 0
    requires || (p == Block(cur.lo, j - 1) && c == Block(i, cur.hi))
             || (p == Block(i, cur.hi) && c == Block(cur.lo, j - 1))
    ensures SortedAcross(cmp, r, from, n, stk + [p] + [c])
  {
    var lo, hi := from + cur.lo, from + cur.hi + 1;
    var bs := stk + [p] + [c];
    forall x, y | 0 <= x < y < n && (LabelOf(bs, x) < 0 || LabelOf(bs, x) != LabelOf(bs, y))
      ensures cmp(r[from + x], r[from + y]) <= 0
    {
      LabelPush(stk, cur, x);
      LabelPush(stk, cur, y);
      LabelPush(stk + [p], c, x);
      LabelPush(stk + [p], c, y);
      LabelPush(stk, p, x);
      LabelPush(stk, p, y);
      var inX, inY := cur.lo <= x <= cur.hi, cur.lo <= y <= cur.hi;
      if inX && inY {
        if y == j {
        } else if y > j {
          Trans(cmp, r[from + x], r[from + j], r[from + y]);
        }
      } else if inX {
        forall k | lo <= k < hi ensures cmp(r0[k], r0[from + y]) <= 0 {
          LabelPush(stk, cur, k - from);
          assert r0[from + (k - from)] == r0[k];
        }
        RangeBelow(cmp, r0, r, lo, hi, r0[from + y]);
        assert r[from + x] == r[lo + (x - cur.lo)];
      } else if inY {
        forall k | lo <= k < hi ensures cmp(r0[from + x], r0[k]) <= 0 {
          LabelPush(stk, cur, k - from);
          assert r0[from + (k - from)] == r0[k];
        }
        RangeAbove(cmp, r0, r, lo, hi, r0[from + x]);
        assert r[from + y] == r[lo + (y - cur.lo)];
      }
    }
  }

  /** The branch for short windows: straight insertion over `l .. ir`, which
      settles every position of the current window. */
  method InsertionPhase<T(!new)>(a: seq<T>, s: seq<T>, from: int, to: int, l: int, ir: int,
                                 ghost stk: seq<Block>, cmp: (T, T) -> int) returns (r: seq<T>)
    requires IsTotalPreorder(cmp)
    requires 0 <= from <= to <= |a| && 0 <= l <= ir < to - from
    requires Permutes(a, s, from, to)
    requires SortedAcross(cmp, s, from, to - from, stk + [Block(l, ir)])
    ensures Permutes(a, r, from, to)
    ensures SortedAcross(cmp, r, from, to - from, stk)
  {
    r := InsertionSortRange(s, l + from, ir + from + 1, cmp);
    SettleCurrent(cmp, s, r, from, to - from, stk, Block(l, ir));
    PermutesWiden(s, r, l + from, ir + from + 1, from, to);
    PermutesTrans(a, s, r, from, to);
  }

  /** The branch for long windows: partitions `l .. ir` (positions relative to
      `from`) and returns the relative indices; the array is sorted across the
      pending windows whichever of the two sides is pushed. */
  method PartitionPhase<T(!new)>(a: seq<T>, s: seq<T>, from: int, to: int, l: int, ir: int,
                                 ghost stk: seq<Block>, cmp: (T, T) -> int) returns (r: seq<T>, i: int, j: int)
    requires IsTotalPreorder(cmp)
    requires 0 <= from <= to <= |a| && 0 <= l && l + 2 <= ir < to - from
    requires Permutes(a, s, from, to)
    requires SortedAcross(cmp, s, from, to - from, stk + [Block(l, ir)])
    ensures Permutes(a, r, from, to)
    ensures l + 1 <= j < i <= ir
    ensures SortedAcross(cmp, r, from, to - from, stk + [Block(i, ir)] + [Block(l, j - 1)])
    ensures SortedAcross(cmp, r, from, to - from, stk + [Block(l, j - 1)] + [Block(i, ir)])
  {
    var ai, aj;
    r, ai, aj := Partition(s, l + from, ir + from, cmp);
    i := ai - from;
    j := aj - from;
    SplitCurrent(cmp, s, r, from, to - from, stk, Block(l, ir), j, i, Block(i, ir), Block(l, j - 1));
    SplitCurrent(cmp, s, r, from, to - from, stk, Block(l, ir), j, i, Block(l, j - 1), Block(i, ir));
    PermutesWiden(s, r, l + from, ir + from + 1, from, to);
    PermutesTrans(a, s, r, from, to);
  }

  /** The pop at the end of the short-window branch: `ir = istack[jstack]`,
      `l = istack[jstack - 1]`, `jstack -= 2`. The popped window becomes the
      current one. */
  method PopWindow(istack: seq<int>, jstack: int, ghost stk: seq<Block>, n: int)
    returns (l: int, ir: int, jstack': int, ghost rest: seq<Block>)
    requires StackHolds(istack, jstack, stk, n) && jstack >= 0
    ensures StackHolds(istack, jstack', rest, n) && 0 <= l <= ir < n
    ensures stk == rest + [Block(l, ir)]
    ensures TotalSize(rest) + Size(Block(l, ir)) == TotalSize(stk)
  {
    StackPop(istack, jstack, stk, n);
    ir := istack[jstack];
    jstack' := jstack - 1;
    l := istack[jstack'];
    jstack' := jstack' - 1;
    rest := stk[..|stk| - 1];
    assert stk == rest + [Block(l, ir)];
  }

  /** The push after partitioning `l .. ir` into `l .. j-1` and `i .. ir`
      (with `jstack` already advanced by two): the larger side goes on the
      stack, left end below right end, and the smaller side becomes the
      current window. */
  method PushWindow(istack: seq<int>, jstack: int, ghost stk: seq<Block>, n: int, l: int, ir: int, i: int, j: int)
    returns (istack': seq<int>, l': int, ir': int, ghost stk': seq<Block>)
    requires StackHolds(istack, jstack - 2, stk, n) && 0 < jstack < NStack
    requires 0 <= l && l + 1 <= j < i <= ir < n
    ensures StackHolds(istack', jstack, stk', n) && 0 <= l' <= ir' < n
    ensures ir - i + 1 >= j - l ==>
              stk' == stk + [Block(i, ir)] && l' == l && ir' == j - 1
              && stk' + [Block(l', ir')] == stk + [Block(i, ir)] + [Block(l, j - 1)]
    ensures ir - i + 1 < j - l ==>
              stk' == stk + [Block(l, j - 1)] && l' == i && ir' == ir
              && stk' + [Block(l', ir')] == stk + [Block(l, j - 1)] + [Block(i, ir)]
    ensures TotalSize(stk') + Size(Block(l', ir')) < TotalSize(stk) + Size(Block(l, ir))
  {
    if ir - i + 1 >= j - l {
      istack' := istack[jstack := ir];
      istack' := istack'[jstack - 1 := i];
      l', ir' := l, j - 1;
      StackPush(istack, jstack, stk, n, Block(i, ir));
      TotalSizePush(stk, Block(i, ir));
      stk' := stk + [Block(i, ir)];
    } else {
      istack' := istack[jstack := j - 1];
      istack' := istack'[jstack - 1 := l];
      l', ir' := i, ir;
      StackPush(istack, jstack, stk, n, Block(l, j - 1));
      TotalSizePush(stk, Block(l, j - 1));
      stk' := stk + [Block(l, j - 1)];
    }
  }

  /** QuicksortSorter.sort. Validates the range and leaves an empty range
      alone; otherwise sorts it, unless the explicit stack overflows, in which
      case `SortingError` is reported and the range is left permuted. A range
      of at most `M` elements is one insertion-sorted window and never touches
      the stack, so it always succeeds. */
  method Sort<T(!new)>(a: seq<T>, fromIndex: int, toIndex: int, cmp: (T, T) -> int)
    returns (r: seq<T>, err: Option<SorterError>)
    requires IsTotalPreorder(cmp)
    ensures CheckRange(|a|, fromIndex, toIndex).Some? ==> err == CheckRange(|a|, fromIndex, toIndex) && r == a
    ensures CheckRange(|a|, fromIndex, toIndex).None? ==>
              (err == None || err == Some(SortingError)) && Permutes(a, r, fromIndex, toIndex)
    ensures err.None? && fromIndex == toIndex ==> r == a
    ensures err.None? ==> SortedBetween(cmp, r, fromIndex, toIndex)
    ensures CheckRange(|a|, fromIndex, toIndex).None? && toIndex - fromIndex <= M ==> err == None
  {
    err := CheckRange(|a|, fromIndex, toIndex);
    r := a;
    if err.Some? || fromIndex == toIndex {
      return;
    }
    var n := toIndex - fromIndex;
    var istack := seq(NStack, _ => 0);
    var ir := n - 1;
    var l := 0;
    var jstack := -1;
    ghost var stk: seq<Block> := [];
    StartAcross(cmp, r, fromIndex, n, [Block(0, n - 1)]);
    assert stk + [Block(l, ir)] == [Block(0, n - 1)];
    while true
      invariant 0 <= l <= ir < n
      invariant StackHolds(istack, jstack, stk, n)
      invariant Permutes(a, r, fromIndex, toIndex)
      invariant SortedAcross(cmp, r, fromIndex, n, stk + [Block(l, ir)])
      invariant n <= M ==> jstack < 0
      decreases TotalSize(stk) + Size(Block(l, ir))
    {
      if ir - l < M {
        r := InsertionPhase(a, r, fromIndex, toIndex, l, ir, stk, cmp);
        if jstack < 0 {
          NoneLeft(cmp, r, fromIndex, n);
          break;
        }
        l, ir, jstack, stk := PopWindow(istack, jstack, stk, n);
      } else {
        var i, j;
        r, i, j := PartitionPhase(a, r, fromIndex, toIndex, l, ir, stk, cmp);
        jstack := jstack + 2;
        if jstack >= NStack {
          err := Some(SortingError);
          return;
        }
        istack, l, ir, stk := PushWindow(istack, jstack, stk, n, l, ir, i, j);
      }
    }
  }
}
