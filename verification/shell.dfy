/**
 Shell sort (ShellSorter). The range is insertion-sorted along interleaved
 chains of stride `h` for the decreasing increments ..., 40, 13, 4, 1 of
 Knuth's sequence; the last pass, with stride 1, is a plain insertion sort.
 */
module Shell {
  import opened Ordering
  import opened SortErrors

  /** ShellSorter.IncrementFactor and ShellSorter.MinIncrement. */
  const IncrementFactor: int := 3
  const MinIncrement: int := 1

  /** The increments 1, 4, 13, 40, ...: each is three times the previous plus one. */
  function Increment(k: nat): (h: int)
    ensures h >= MinIncrement
  {
    if k == 0 then MinIncrement else Increment(k - 1) * IncrementFactor + 1
  }

  /** Dividing an increment by the factor gives the one before it, so the
      passes of ShellSorter.sort walk the sequence back down to 1. */
  lemma IncrementDown(k: nat)
    requires k > 0
    ensures Increment(k) > Increment(k - 1)
    ensures Increment(k) / IncrementFactor == Increment(k - 1)
  {
  }

  /** Every element at least `h` positions from `lo` ranks no lower than the
      one `h` positions before it. */
  ghost predicate HSorted<T>(cmp: (T, T) -> int, s: seq<T>, lo: int, hi: int, h: int)
    requires 0 <= lo <= hi <= |s| && h >= 1
  {
    forall k :: lo + h <= k < hi ==> cmp(s[k - h], s[k]) <= 0
  }

  /** `k` is reached from `q` in steps of `h`: it lies on the chain of stride
      `h` that starts at `q`. */
  ghost predicate OnChain(q: int, k: int, h: int)
    requires h >= 1
    decreases k - q
  {
    q == k || (q < k && OnChain(q + h, k, h))
  }

  lemma {:induction false} ChainUp(q: int, c: int, h: int)
    requires h >= 1 && OnChain(q, c, h)
    ensures OnChain(q, c + h, h)
    decreases c - q
  {
    if q != c {
      ChainUp(q + h, c, h);
    }
  }

  lemma {:induction false} ChainDown(q: int, k: int, h: int)
    requires h >= 1 && OnChain(q, k, h) && k > q
    ensures OnChain(q, k - h, h)
    decreases k - q
  {
    if q + h != k {
      ChainDown(q + h, k, h);
    }
  }

  /** The first `repeat` loop of ShellSorter.sort: starting from the minimum
      increment, steps through the sequence until it passes the range length `n`. */
  method FirstIncrement(n: int) returns (inc: int, ghost k: nat)
    requires n >= 1
    ensures k >= 1 && inc == Increment(k)
    ensures Increment(k - 1) <= n < inc
    ensures inc % IncrementFactor == 1 && (inc - 1) / IncrementFactor <= n
  {
    inc := MinIncrement;
    k := 0;
    while true
      invariant inc == Increment(k) && inc <= n
      decreases n - inc
    {
      inc := inc * IncrementFactor;
      inc := inc + 1;
      k := k + 1;
      if !(inc <= n) {
        break;
      }
    }
  }

  /** The state of the inner loop with the gap at `j`: `r` with `v` dropped
      into the gap is a rearrangement of `s`; only chain positions above the
      gap changed, each now holding the element one stride below it, which
      compares greater than `v`. */
  ghost predicate ShiftState<T>(s: seq<T>, r: seq<T>, lo: int, p: int, h: int, j: int, v: T, cmp: (T, T) -> int)
    requires 0 <= lo <= j <= p < |s| && h >= 1
  {
    && |r| == |s| && OnChain(j, p, h)
    && multiset(r[j := v]) == multiset(s)
    && (forall k {:trigger r[k]} :: 0 <= k < |s| && !(j + h <= k <= p && OnChain(j, k, h)) ==> r[k] == s[k])
    && (forall k {:trigger r[k]} :: j + h <= k <= p && OnChain(j, k, h) ==> r[k] == s[k - h] && cmp(r[k], v) > 0)
  }

  /** The inner loop of one chain insertion: holds `v = s[p]` aside and moves
      every element of its chain (stride `h`, not below `lo`) that compares
      greater one stride up, then drops `v` into the gap at `q`. */
  method ChainShift<T>(s: seq<T>, lo: int, p: int, h: int, cmp: (T, T) -> int) returns (r: seq<T>, q: int)
    requires 0 <= lo <= p < |s| && h >= 1
    ensures lo <= q <= p && OnChain(q, p, h)
    ensures |r| == |s| && multiset(r) == multiset(s)
    ensures forall k {:trigger r[k]} :: 0 <= k < |s| && !(q <= k <= p && OnChain(q, k, h)) ==> r[k] == s[k]
    ensures r[q] == s[p]
    ensures forall k {:trigger r[k]} :: q + h <= k <= p && OnChain(q, k, h) ==> r[k] == s[k - h] && cmp(r[k], s[p]) > 0
    ensures q - h >= lo ==> cmp(s[q - h], s[p]) <= 0
  {
    r := s;
    var v := r[p];
    var j := p;
    assert r[j := v] == s;
    while j - h >= lo && cmp(r[j - h], v) > 0
      invariant lo <= j <= p
      invariant ShiftState(s, r, lo, p, h, j, v, cmp)
      decreases j
    {
      ShiftStep(s, r, lo, p, h, j, v, cmp, r[j := r[j - h]], j - h);
      r := r[j := r[j - h]];
      j := j - h;
    }
    ghost var r0 := r;
    r := r[j := v];
    q := j;
    DropIn(s, r0, r, lo, p, h, q, v, cmp);
  }

  /** Dropping `v` into the gap at `q` ends the inner loop. */
  lemma DropIn<T>(s: seq<T>, r0: seq<T>, r: seq<T>, lo: int, p: int, h: int, q: int, v: T, cmp: (T, T) -> int)
    requires 0 <= lo <= q <= p < |s| && h >= 1
    requires ShiftState(s, r0, lo, p, h, q, v, cmp)
    requires r == r0[q := v]
    ensures |r| == |s| && multiset(r) == multiset(s) && r[q] == v
    ensures forall k {:trigger r[k]} :: 0 <= k < |s| && !(q <= k <= p && OnChain(q, k, h)) ==> r[k] == s[k]
    ensures forall k {:trigger r[k]} :: q + h <= k <= p && OnChain(q, k, h) ==> r[k] == s[k - h] && cmp(r[k], v) > 0
  {
    forall k {:trigger r[k]} | q + h <= k <= p && OnChain(q, k, h)
      ensures r[k] == r0[k]
    {
    }
  }

  /** One step of the inner loop: the element one stride below the gap moves
      up into it, and the gap moves down the chain. */
  lemma ShiftStep<T>(s: seq<T>, r: seq<T>, lo: int, p: int, h: int, j: int, v: T, cmp: (T, T) -> int, r2: seq<T>, j2: int)
    requires 0 <= lo <= j - h && j <= p < |s| && h >= 1
    requires ShiftState(s, r, lo, p, h, j, v, cmp)
    requires cmp(r[j - h], v) > 0
    requires r2 == r[j := r[j - h]] && j2 == j - h
    ensures ShiftState(s, r2, lo, p, h, j2, v, cmp)
  {
    HoleMove(r, j - h, j, v);
    assert r[j - h] == s[j - h];
    ChainDownStep(j, p, h);
    ShiftFrame(s, r, lo, p, h, j, r2);
    forall k | j <= k <= p && OnChain(j2, k, h)
      ensures r2[k] == s[k - h] && cmp(r2[k], v) > 0
    {
      ChainExtendDown(j, k, h);
      if k != j {
        assert r2[k] == r[k];
      }
    }
  }

  /** The chain through `p` from `j` also runs from `j - h`. */
  lemma ChainDownStep(j: int, p: int, h: int)
    requires h >= 1 && j <= p && OnChain(j, p, h)
    ensures OnChain(j - h, p, h)
  {
    ChainExtendDown(j, p, h);
  }

  /** The positions a shift step leaves alone. */
  lemma ShiftFrame<T>(s: seq<T>, r: seq<T>, lo: int, p: int, h: int, j: int, r2: seq<T>)
    requires 0 <= lo <= j - h && j <= p < |s| == |r| && h >= 1
    requires forall k {:trigger r[k]} :: 0 <= k < |s| && !(j + h <= k <= p && OnChain(j, k, h)) ==> r[k] == s[k]
    requires r2 == r[j := r[j - h]]
    ensures forall k {:trigger r2[k]} :: 0 <= k < |s| && !(j <= k <= p && OnChain(j - h, k, h)) ==> r2[k] == s[k]
  {
    forall k | 0 <= k < |s| && !(j <= k <= p && OnChain(j - h, k, h))
      ensures r2[k] == s[k]
    {
      if j <= k <= p {
        ChainExtendDown(j, k, h);
      }
      assert r2[k] == r[k];
    }
  }

  /** The chain from `j - h` is the chain from `j` with `j - h` added below it. */
  lemma ChainExtendDown(j: int, k: int, h: int)
    requires h >= 1 && j <= k
    ensures OnChain(j - h, k, h) <==> k == j || (j + h <= k && OnChain(j, k, h))
  {
    if j < k && OnChain(j, k, h) {
      ChainAbove(j + h, k, h);
    }
  }

  lemma ChainAbove(q: int, k: int, h: int)
    requires h >= 1 && OnChain(q, k, h)
    ensures q <= k
  {
  }

  /** One chain insertion extends the `h`-sorted prefix by one element. */
  lemma ChainStep<T(!new)>(cmp: (T, T) -> int, r0: seq<T>, r: seq<T>, lo: int, p: int, h: int, q: int, next: int)
    requires IsTotalPreorder(cmp)
    requires 0 <= lo <= q <= p < |r0| == |r| && h >= 1 && next == p + 1
    requires OnChain(q, p, h)
    requires HSorted(cmp, r0, lo, p, h)
    requires forall k :: 0 <= k < |r0| && !(q <= k <= p && OnChain(q, k, h)) ==> r[k] == r0[k]
    requires r[q] == r0[p]
    requires forall k :: q + h <= k <= p && OnChain(q, k, h) ==> r[k] == r0[k - h] && cmp(r[k], r0[p]) > 0
    requires q - h >= lo ==> cmp(r0[q - h], r0[p]) <= 0
    ensures HSorted(cmp, r, lo, next, h)
  {
    var v := r0[p];
    forall k | lo + h <= k < next
      ensures cmp(r[k - h], r[k]) <= 0
    {
      var inK := q <= k <= p && OnChain(q, k, h);
      var inKh := q <= k - h <= p && OnChain(q, k - h, h);
      if inK && k > q {
        ChainDown(q, k, h);
        if k - h == q {
          PreorderFacts(cmp, r[k], v, v);
        } else {
          assert r[k - h] == r0[k - h - h] && r[k] == r0[k - h];
          assert cmp(r0[(k - h) - h], r0[k - h]) <= 0;
        }
      } else if inK {
        assert k == q;
      } else if inKh {
        ChainUp(q, k - h, h);
      } else {
        assert cmp(r0[k - h], r0[k]) <= 0;
      }
    }
  }

  /** One pass of the outer `for` loop: inserts every element from `lo + h`
      on into its chain of stride `h`, leaving the range `h`-sorted. */
  method HSortPass<T(!new)>(s: seq<T>, lo: int, hi: int, h: int, cmp: (T, T) -> int) returns (r: seq<T>)
    requires IsTotalPreorder(cmp)
    requires 0 <= lo <= hi <= |s| && 1 <= h <= hi - lo
    ensures Permutes(s, r, lo, hi)
    ensures HSorted(cmp, r, lo, hi, h)
  {
    r := s;
    var i := h;
    while i < hi - lo
      invariant h <= i <= hi - lo
      invariant |r| == |s| && multiset(r) == multiset(s)
      invariant forall k :: 0 <= k < |s| && !(lo <= k < lo + i) ==> r[k] == s[k]
      invariant HSorted(cmp, r, lo, lo + i, h)
    {
      ghost var r0 := r;
      var q;
      r, q := ChainShift(r, lo, i + lo, h, cmp);
      ChainStep(cmp, r0, r, lo, i + lo, h, q, i + lo + 1);
      i := i + 1;
    }
  }

  /** A range sorted with stride 1 is sorted. */
  lemma OneSorted<T(!new)>(cmp: (T, T) -> int, s: seq<T>, lo: int, hi: int)
    requires IsTotalPreorder(cmp)
    requires 0 <= lo <= hi <= |s|
    requires HSorted(cmp, s, lo, hi, 1)
    ensures SortedBetween(cmp, s, lo, hi)
  {
    AdjacentSorted(cmp, s, lo, hi);
  }

  /** ShellSorter.sort: validates the range, leaves an empty range alone, and
      otherwise runs the `h`-sorting passes for every increment below the
      first one past the range length, down to 1. */
  method Sort<T(!new)>(a: seq<T>, fromIndex: int, toIndex: int, cmp: (T, T) -> int)
    returns (r: seq<T>, err: Option<SorterError>)
    requires IsTotalPreorder(cmp)
    ensures err == CheckRange(|a|, fromIndex, toIndex)
    ensures err.Some? || fromIndex == toIndex ==> r == a
    ensures err.None? ==> Permutes(a, r, fromIndex, toIndex) && SortedBetween(cmp, r, fromIndex, toIndex)
  {
    err := CheckRange(|a|, fromIndex, toIndex);
    r := a;
    if err.Some? || fromIndex == toIndex {
      return;
    }
    var n := toIndex - fromIndex;
    var inc;
    ghost var k;
    inc, k := FirstIncrement(n);
    while true
      invariant k >= 1 && inc == Increment(k) && Increment(k - 1) <= n
      invariant Permutes(a, r, fromIndex, toIndex)
      decreases k
    {
      IncrementDown(k);
      inc := inc / IncrementFactor;
      k := k - 1;
      var r0 := r;
      r := HSortPass(r, fromIndex, toIndex, inc, cmp);
      PermutesTrans(a, r0, r, fromIndex, toIndex);
      if !(inc > MinIncrement) {
        OneSorted(cmp, r, fromIndex, toIndex);
        break;
      }
      IncrementDown(k);
    }
  }
}
