/**
 Quickselect and the median (Sorter.select, Sorter.median). Selection narrows
 a window `l .. ir` (relative to `fromIndex`) with the same median-of-three
 partition as quicksort until the window has at most two elements, keeping
 every element left of the window no higher, and every element right of it no
 lower, than anything else in the range.

 The proof states this with "cuts": a position `c` of the range is a cut when
 nothing before it ranks above anything from it on.
 */
module Selection {
  import opened Ordering
  import opened SortErrors
  import opened Partitioning
  import opened OrderStatistics

  /** Nothing in `lo .. c-1` ranks above anything in `c .. hi-1`. */
  ghost predicate Cut<T>(cmp: (T, T) -> int, r: seq<T>, lo: int, hi: int, c: int)
    requires 0 <= lo <= c <= hi <= |r|
  {
    forall x, y :: lo <= x < c <= y < hi ==> cmp(r[x], r[y]) <= 0
  }

  /** A cut outside a window survives any permutation of the window. */
  lemma CutKept<T>(cmp: (T, T) -> int, r0: seq<T>, r: seq<T>, lo: int, hi: int, wlo: int, whi: int, c: int)
    requires 0 <= lo <= wlo <= whi <= hi <= |r0| && lo <= c <= hi
    requires c <= wlo || whi <= c
    requires Permutes(r0, r, wlo, whi)
    requires Cut(cmp, r0, lo, hi, c)
    ensures Cut(cmp, r, lo, hi, c)
  {
    forall x, y | lo <= x < c <= y < hi
      ensures cmp(r[x], r[y]) <= 0
    {
      if wlo <= y < whi {
        forall k | wlo <= k < whi ensures cmp(r0[x], r0[k]) <= 0 {
        }
        RangeAbove(cmp, r0, r, wlo, whi, r0[x]);
      } else if wlo <= x < whi {
        forall k | wlo <= k < whi ensures cmp(r0[k], r0[y]) <= 0 {
        }
        RangeBelow(cmp, r0, r, wlo, whi, r0[y]);
      }
    }
  }

  /** A partition of the window `L .. IR` between two cuts keeps both cuts and
      adds a cut at every position from the pivot `J` to the index `I`. */
  lemma PartitionCuts<T(!new)>(cmp: (T, T) -> int, r0: seq<T>, r: seq<T>, lo: int, hi: int,
                               L: int, IR: int, J: int, I: int)
    requires IsTotalPreorder(cmp)
    requires 0 <= lo <= L && L + 2 <= IR < hi <= |r0|
    requires Cut(cmp, r0, lo, hi, L) && Cut(cmp, r0, lo, hi, IR + 1)
    requires Permutes(r0, r, L, IR + 1)
    requires L + 1 <= J < I <= IR
    requires forall k :: L <= k < I ==> cmp(r[k], r[J]) <= 0
    requires forall k :: J < k <= IR ==> cmp(r[J], r[k]) <= 0
    ensures Cut(cmp, r, lo, hi, L) && Cut(cmp, r, lo, hi, IR + 1)
    ensures forall c :: J <= c <= I ==> Cut(cmp, r, lo, hi, c)
  {
    CutKept(cmp, r0, r, lo, hi, L, IR + 1, L);
    CutKept(cmp, r0, r, lo, hi, L, IR + 1, IR + 1);
    forall c | J <= c <= I
      ensures Cut(cmp, r, lo, hi, c)
    {
      forall x, y | lo <= x < c <= y < hi
        ensures cmp(r[x], r[y]) <= 0
      {
        if L <= x && y <= IR && y != J {
          Trans(cmp, r[x], r[J], r[y]);
        }
      }
    }
  }

  /** The end of the narrowing: in a window of one or two elements, the
      second no lower than the first, between two cuts, each position `p` has
      cuts on both sides. */
  lemma SmallWindowCuts<T(!new)>(cmp: (T, T) -> int, r: seq<T>, lo: int, hi: int, L: int, IR: int, p: int)
    requires IsTotalPreorder(cmp)
    requires 0 <= lo <= L <= p <= IR < hi <= |r| && IR <= L + 1
    requires Cut(cmp, r, lo, hi, L) && Cut(cmp, r, lo, hi, IR + 1)
    requires cmp(r[L], r[IR]) <= 0
    ensures Cut(cmp, r, lo, hi, p) && Cut(cmp, r, lo, hi, p + 1)
  {
  }

  /** Cuts on both sides of position `p` put the element at `p` in its sorted place. */
  lemma CutsGivePlace<T>(cmp: (T, T) -> int, r: seq<T>, lo: int, hi: int, p: int)
    requires 0 <= lo <= p < hi <= |r|
    requires Cut(cmp, r, lo, hi, p) && Cut(cmp, r, lo, hi, p + 1)
    ensures forall k :: lo <= k < p ==> cmp(r[k], r[p]) <= 0
    ensures forall k :: p < k < hi ==> cmp(r[p], r[k]) <= 0
  {
    forall k | lo <= k < p ensures cmp(r[k], r[p]) <= 0 {
    }
    forall k | p < k < hi ensures cmp(r[p], r[k]) <= 0 {
    }
  }

  /** The narrowing loop of Sorter.select (the `repeat` at 323-366) over the
      range `from .. to-1`, returning the array and `array[pos + from]`. For a
      non-negative `pos` the returned element is in its sorted place. The
      loop never checks the sign of `pos`; `from + pos` must index the array. */
  method SelectLoop<T(!new)>(s: seq<T>, from: int, to: int, pos: int, cmp: (T, T) -> int) returns (r: seq<T>, v: T)
    requires IsTotalPreorder(cmp)
    requires 0 <= from < to <= |s| && pos < to - from && 0 <= from + pos
    ensures Permutes(s, r, from, to)
    ensures v == r[from + pos]
    ensures 0 <= pos ==> forall k :: from <= k < from + pos ==> cmp(r[k], v) <= 0
    ensures 0 <= pos ==> forall k :: from + pos < k < to ==> cmp(v, r[k]) <= 0
  {
    r := s;
    var n := to - from;
    var l := 0;
    var ir := n - 1;
    while true
      invariant 0 <= l < n && 0 <= ir < n && ir - l >= -3
      invariant Permutes(s, r, from, to)
      invariant Cut(cmp, r, from, to, from + l) && Cut(cmp, r, from, to, from + ir + 1)
      invariant pos < 0 || l <= pos <= ir || (Cut(cmp, r, from, to, from + pos) && Cut(cmp, r, from, to, from + pos + 1))
      decreases ir - l + 3
    {
      if ir <= l + 1 {
        r := FinishWindow(s, r, from, to, l, ir, pos, cmp);
        v := r[pos + from];
        if 0 <= pos {
          CutsGivePlace(cmp, r, from, to, from + pos);
        }
        return;
      }
      ghost var r0 := r;
      var i, j;
      r, i, j := Partition(r, l + from, ir + from, cmp);
      PartitionCuts(cmp, r0, r, from, to, l + from, ir + from, j, i);
      if 0 <= pos && !(l <= pos <= ir) {
        CutKept(cmp, r0, r, from, to, l + from, ir + from + 1, from + pos);
        CutKept(cmp, r0, r, from, to, l + from, ir + from + 1, from + pos + 1);
      }
      PermutesWiden(r0, r, l + from, ir + from + 1, from, to);
      PermutesTrans(s, r0, r, from, to);
      i := i - from;
      j := j - from;
      if j >= pos {
        ir := j - 1;
      }
      if j <= pos {
        l := i;
      }
    }
  }

  /** The branch for a window of at most two elements: orders the pair, after
      which the window holds only cuts. */
  method FinishWindow<T(!new)>(a: seq<T>, s: seq<T>, from: int, to: int, l: int, ir: int, pos: int, cmp: (T, T) -> int)
    returns (r: seq<T>)
    requires IsTotalPreorder(cmp)
    requires 0 <= from < to <= |a| && 0 <= l < to - from && 0 <= ir < to - from && ir <= l + 1
    requires Permutes(a, s, from, to)
    requires Cut(cmp, s, from, to, from + l) && Cut(cmp, s, from, to, from + ir + 1)
    requires 0 <= pos < to - from ==>
               l <= pos <= ir || (Cut(cmp, s, from, to, from + pos) && Cut(cmp, s, from, to, from + pos + 1))
    ensures Permutes(a, r, from, to)
    ensures 0 <= pos < to - from ==> Cut(cmp, r, from, to, from + pos) && Cut(cmp, r, from, to, from + pos + 1)
  {
    r := OrderPair(s, l + from, ir + from, cmp);
    if l <= ir {
      WindowCutsKept(cmp, s, r, from, to, from + l, from + ir, from + pos);
      PermutesWiden(s, r, l + from, ir + from + 1, from, to);
      PermutesTrans(a, s, r, from, to);
      if 0 <= pos < to - from && l <= pos <= ir {
        SmallWindowCuts(cmp, r, from, to, from + l, from + ir, from + pos);
      }
    }
  }

  /** `if ir == l + 1 && cmp(array[ir], array[l]) < 0 { swap(l, ir) }` on a
      window of at most two elements: afterwards its ends are in order. An
      empty window (`IR < L`) is left alone. */
  method OrderPair<T(!new)>(s: seq<T>, L: int, IR: int, cmp: (T, T) -> int) returns (r: seq<T>)
    requires IsTotalPreorder(cmp)
    requires 0 <= L < |s| && 0 <= IR < |s| && IR <= L + 1
    ensures IR < L ==> r == s
    ensures L <= IR ==> Permutes(s, r, L, IR + 1) && cmp(r[L], r[IR]) <= 0
  {
    r := s;
    PreorderFacts(cmp, s[L], s[IR], s[IR]);
    if IR == L + 1 && cmp(r[IR], r[L]) < 0 {
      r := Swap(r, L, IR);
    }
  }

  /** Rearranging the window `L .. IR` keeps the cuts at both of its ends and
      the two cuts around a position `p` outside it. */
  lemma WindowCutsKept<T>(cmp: (T, T) -> int, s: seq<T>, r: seq<T>, lo: int, hi: int, L: int, IR: int, p: int)
    requires 0 <= lo <= L <= IR < hi <= |s|
    requires Permutes(s, r, L, IR + 1)
    requires Cut(cmp, s, lo, hi, L) && Cut(cmp, s, lo, hi, IR + 1)
    requires lo <= p < hi && !(L <= p <= IR) ==> Cut(cmp, s, lo, hi, p) && Cut(cmp, s, lo, hi, p + 1)
    ensures Cut(cmp, r, lo, hi, L) && Cut(cmp, r, lo, hi, IR + 1)
    ensures lo <= p < hi && !(L <= p <= IR) ==> Cut(cmp, r, lo, hi, p) && Cut(cmp, r, lo, hi, p + 1)
  {
    CutKept(cmp, s, r, lo, hi, L, IR + 1, L);
    CutKept(cmp, s, r, lo, hi, L, IR + 1, IR + 1);
    if lo <= p < hi && !(L <= p <= IR) {
      CutKept(cmp, s, r, lo, hi, L, IR + 1, p);
      CutKept(cmp, s, r, lo, hi, L, IR + 1, p + 1);
    }
  }

  /** The guards of the corrected Sorter.select: the range checks, then the
      position must be an offset inside the range. */
  function SelectCheck(count: int, pos: int, fromIndex: int, toIndex: int): (e: Option<SorterError>)
    ensures e == None <==> 0 <= fromIndex <= toIndex <= count && 0 <= pos < toIndex - fromIndex
    ensures e == Some(IndexOutOfBounds) <==> CheckRange(count, fromIndex, toIndex) == Some(IndexOutOfBounds)
    ensures e != None && e != Some(IndexOutOfBounds) ==> e == Some(IllegalIndices)
  {
    if CheckRange(count, fromIndex, toIndex).Some? then CheckRange(count, fromIndex, toIndex)
    else if pos < 0 || pos >= toIndex - fromIndex then Some(IllegalIndices)
    else None
  }

  /** The guards of Sorter.select as written (308-319): only `pos >= n` is
      rejected, a negative position passes. */
  function SelectCheckAsWritten(count: int, pos: int, fromIndex: int, toIndex: int): (e: Option<SorterError>)
    ensures e == None <==> 0 <= fromIndex <= toIndex <= count && pos < toIndex - fromIndex
    ensures e == None && pos < 0 ==> SelectCheck(count, pos, fromIndex, toIndex) == Some(IllegalIndices)
  {
    if CheckRange(count, fromIndex, toIndex).Some? then CheckRange(count, fromIndex, toIndex)
    else if pos >= toIndex - fromIndex then Some(IllegalIndices)
    else None
  }

  /** How a call of Sorter.select as written ends: it returns an element, it
      throws one of the engine's errors, or it traps on an array subscript out
      of bounds, which stops the program. */
  datatype Outcome<T> = Returns(value: T) | Throws(error: SorterError) | Traps

  /** Sorter.select as written. A non-negative `pos` behaves exactly as in
      `Select`. A negative `pos` that still indexes the array returns the
      untouched element `pos` places before the range; when `fromIndex + pos`
      is below zero, the final subscript (328) traps. The array is not
      observable after a trap, so `r` is then left as `a`. */
  method SelectAsWritten<T(!new)>(pos: int, a: seq<T>, fromIndex: int, toIndex: int, cmp: (T, T) -> int)
    returns (r: seq<T>, out: Outcome<T>)
    requires IsTotalPreorder(cmp)
    ensures SelectCheckAsWritten(|a|, pos, fromIndex, toIndex).Some? ==>
              out == Throws(SelectCheckAsWritten(|a|, pos, fromIndex, toIndex).value) && r == a
    ensures SelectCheckAsWritten(|a|, pos, fromIndex, toIndex) == None && fromIndex + pos < 0 ==>
              out == Traps
    ensures SelectCheckAsWritten(|a|, pos, fromIndex, toIndex) == None && pos < 0 <= fromIndex + pos ==>
              out == Returns(a[fromIndex + pos]) && Permutes(a, r, fromIndex, toIndex)
    ensures SelectCheckAsWritten(|a|, pos, fromIndex, toIndex) == None && 0 <= pos ==>
              && out.Returns? && Permutes(a, r, fromIndex, toIndex) && out.value == r[fromIndex + pos]
              && (forall k :: fromIndex <= k < fromIndex + pos ==> cmp(r[k], out.value) <= 0)
              && (forall k :: fromIndex + pos < k < toIndex ==> cmp(out.value, r[k]) <= 0)
              && IsOrderStatistic(cmp, a, fromIndex, toIndex, pos, out.value)
  {
    var e := SelectCheckAsWritten(|a|, pos, fromIndex, toIndex);
    if e.Some? {
      return a, Throws(e.value);
    }
    if 0 <= pos {
      // The guards agree with `SelectCheck` here, and the loop is the same.
      var sel;
      r, sel := Select(pos, a, fromIndex, toIndex, cmp);
      return r, Returns(sel.value);
    }
    if fromIndex + pos < 0 {
      return a, Traps;
    }
    if fromIndex == toIndex {
      // An empty range gets past the guards only with a negative `pos`; the
      // first round of the loop finds a window of size zero and returns.
      return a, Returns(a[pos + fromIndex]);
    }
    var v;
    r, v := SelectLoop(a, fromIndex, toIndex, pos, cmp);
    out := Returns(v);
  }

  /** With `pos = -1` over positions 1 and 2 of `[5, 3, 4]`, the guards as
      written accept the call, and the element `SelectAsWritten` then returns
      (position 0) is not an element of the range at all. */
  lemma NegativePositionEscapes()
    ensures SelectCheckAsWritten(3, -1, 1, 3) == None
    ensures SelectCheck(3, -1, 1, 3) == Some(IllegalIndices)
    ensures [5, 3, 4][1 + -1] !in [5, 3, 4][1..3]
  {
    assert [5, 3, 4][1..3] == [3, 4];
  }

  /** Sorter.select with a sign check on `pos`: validates the range and the
      position (reporting the error with the array untouched), then returns the
      `pos`-th order statistic of the range, leaving it at `fromIndex + pos`
      with nothing above it on its left and nothing below it on its right. */
  method Select<T(!new)>(pos: int, a: seq<T>, fromIndex: int, toIndex: int, cmp: (T, T) -> int)
    returns (r: seq<T>, res: Result<T>)
    requires IsTotalPreorder(cmp)
    ensures SelectCheck(|a|, pos, fromIndex, toIndex).Some? ==>
              res == Err(SelectCheck(|a|, pos, fromIndex, toIndex).value) && r == a
    ensures SelectCheck(|a|, pos, fromIndex, toIndex) == None ==>
              && res.Ok? && Permutes(a, r, fromIndex, toIndex) && res.value == r[fromIndex + pos]
              && (forall k :: fromIndex <= k < fromIndex + pos ==> cmp(r[k], res.value) <= 0)
              && (forall k :: fromIndex + pos < k < toIndex ==> cmp(res.value, r[k]) <= 0)
              && IsOrderStatistic(cmp, a, fromIndex, toIndex, pos, res.value)
  {
    var e := SelectCheck(|a|, pos, fromIndex, toIndex);
    if e.Some? {
      return a, Err(e.value);
    }
    var v;
    r, v := SelectLoop(a, fromIndex, toIndex, pos, cmp);
    SplitIsOrderStatistic(cmp, r, fromIndex, toIndex, fromIndex + pos);
    OrderStatisticPermutes(cmp, a, r, fromIndex, toIndex, pos, v);
    res := Ok(v);
  }

  /** The `for i in 1..<pos1` loop of Sorter.median: the maximum of the `m`
      elements from `from` on, keeping the earliest of tied maxima. */
  method MaxOfPrefix<T(!new)>(s: seq<T>, from: int, m: int, cmp: (T, T) -> int) returns (v: T, ghost k: int)
    requires IsTotalPreorder(cmp)
    requires 0 <= from && 1 <= m && from + m <= |s|
    ensures from <= k < from + m && v == s[k]
    ensures forall x :: from <= x < from + m ==> cmp(s[x], v) <= 0
    ensures forall x :: from <= x < k ==> cmp(s[x], v) < 0
  {
    v := s[from];
    k := from;
    PreorderFacts(cmp, v, v, v);
    var i := 1;
    while i < m
      invariant 1 <= i <= m && from <= k < from + i && v == s[k]
      invariant forall x :: from <= x < from + i ==> cmp(s[x], v) <= 0
      invariant forall x :: from <= x < k ==> cmp(s[x], v) < 0
    {
      var v3 := s[i + from];
      if cmp(v3, v) > 0 {
        forall x | from <= x < from + i
          ensures cmp(s[x], v3) < 0
        {
          PreorderFacts(cmp, s[x], v, v3);
        }
        v := v3;
        k := i + from;
      } else {
        PreorderFacts(cmp, v3, v, v);
      }
      i := i + 1;
    }
  }

  /** After selecting the element of rank `m` at `from + m`, the maximum of the
      `m` elements before it has rank `m - 1`. */
  lemma MaxBelowSelected<T(!new)>(cmp: (T, T) -> int, r: seq<T>, from: int, to: int, m: int, k: int)
    requires IsTotalPreorder(cmp)
    requires 0 <= from && 1 <= m && from + m < to <= |r| && from <= k < from + m
    requires forall x :: from <= x < from + m ==> cmp(r[x], r[k]) <= 0
    requires forall x :: from <= x < from + m ==> cmp(r[x], r[from + m]) <= 0
    requires forall x :: from + m < x < to ==> cmp(r[from + m], r[x]) <= 0
    ensures IsOrderStatistic(cmp, r, from, to, m - 1, r[k])
  {
    var p := from + m - 1;
    var t := Swap(r, k, p);
    forall x | p < x < to
      ensures cmp(t[p], t[x]) <= 0
    {
      if x > from + m {
        Trans(cmp, r[k], r[from + m], r[x]);
      }
    }
    SplitIsOrderStatistic(cmp, t, from, to, p);
    PermutesRange(r, t, from, to);
    OrderStatisticPermutes(cmp, r, t, from, to, m - 1, r[k]);
  }

  /** Sorter.median: validates the range, then selects the element of rank
      `n / 2`; for an odd length that is the median, for an even length the
      averager combines it with the maximum of the lower half, which is the
      element of rank `n / 2 - 1`. An empty range fails in the inner select.
      Either way the range is left split around its middle position. */
  method Median<T(!new)>(a: seq<T>, fromIndex: int, toIndex: int, cmp: (T, T) -> int, averager: (T, T) -> T)
    returns (r: seq<T>, res: Result<T>)
    requires IsTotalPreorder(cmp)
    ensures CheckRange(|a|, fromIndex, toIndex).Some? ==>
              res == Err(CheckRange(|a|, fromIndex, toIndex).value) && r == a
    ensures CheckRange(|a|, fromIndex, toIndex) == None && fromIndex == toIndex ==>
              res == Err(IllegalIndices) && r == a
    ensures CheckRange(|a|, fromIndex, toIndex) == None && fromIndex < toIndex ==>
              res.Ok? && Permutes(a, r, fromIndex, toIndex)
    ensures CheckRange(|a|, fromIndex, toIndex) == None && fromIndex < toIndex ==>
              && (forall k :: fromIndex <= k < fromIndex + (toIndex - fromIndex) / 2 ==>
                                cmp(r[k], r[fromIndex + (toIndex - fromIndex) / 2]) <= 0)
              && (forall k :: fromIndex + (toIndex - fromIndex) / 2 < k < toIndex ==>
                                cmp(r[fromIndex + (toIndex - fromIndex) / 2], r[k]) <= 0)
    ensures CheckRange(|a|, fromIndex, toIndex) == None && (toIndex - fromIndex) % 2 == 1 ==>
              && res == Ok(r[fromIndex + (toIndex - fromIndex) / 2])
              && IsOrderStatistic(cmp, a, fromIndex, toIndex, (toIndex - fromIndex) / 2, res.value)
    ensures CheckRange(|a|, fromIndex, toIndex) == None && fromIndex < toIndex && (toIndex - fromIndex) % 2 == 0 ==>
              exists k :: && fromIndex <= k < fromIndex + (toIndex - fromIndex) / 2
                          && res == Ok(averager(r[fromIndex + (toIndex - fromIndex) / 2], r[k]))
                          && (forall x :: fromIndex <= x < k ==> cmp(r[x], r[k]) < 0)
                          && IsOrderStatistic(cmp, a, fromIndex, toIndex, (toIndex - fromIndex) / 2, r[fromIndex + (toIndex - fromIndex) / 2])
                          && IsOrderStatistic(cmp, a, fromIndex, toIndex, (toIndex - fromIndex) / 2 - 1, r[k])
  {
    var e := CheckRange(|a|, fromIndex, toIndex);
    if e.Some? {
      return a, Err(e.value);
    }
    var length := toIndex - fromIndex;
    var pos1 := length / 2;
    var sel;
    r, sel := Select(pos1, a, fromIndex, toIndex, cmp);
    if sel.Err? {
      return r, sel;
    }
    var value1 := sel.value;
    if length % 2 == 0 {
      var value2;
      ghost var k;
      value2, k := MaxOfPrefix(r, fromIndex, pos1, cmp);
      MaxBelowSelected(cmp, r, fromIndex, toIndex, pos1, k);
      OrderStatisticPermutes(cmp, a, r, fromIndex, toIndex, pos1 - 1, r[k]);
      res := Ok(averager(value1, value2));
    } else {
      res := Ok(value1);
    }
  }
}
