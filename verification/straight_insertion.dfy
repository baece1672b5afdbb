/**
 Straight insertion sort (StraightInsertionSorter). Each element in turn is
 held aside while the larger elements before it shift one slot right, and is
 then dropped into the gap. The same loop sorts quicksort's small partitions.
 */
module StraightInsertion {
  import opened Ordering
  import opened SortErrors

  /** The elements of `s` that tie with `x` under `cmp`, in their order in `s`.
      A sort is stable exactly when it keeps this subsequence for every `x`. */
  ghost function Ties<T>(cmp: (T, T) -> int, s: seq<T>, x: T): seq<T>
  {
    if |s| == 0 then []
    else (if cmp(s[0], x) == 0 then [s[0]] else []) + Ties(cmp, s[1..], x)
  }

  lemma {:induction false} TiesConcat<T>(cmp: (T, T) -> int, a: seq<T>, b: seq<T>, x: T)
    ensures Ties(cmp, a + b, x) == Ties(cmp, a, x) + Ties(cmp, b, x)
  {
    if |a| == 0 {
      assert a + b == b;
    } else {
      var head := if cmp(a[0], x) == 0 then [a[0]] else [];
      assert (a + b)[0] == a[0];
      assert (a + b)[1..] == a[1..] + b;
      TiesConcat(cmp, a[1..], b, x);
      calc {
        Ties(cmp, a + b, x);
        head + Ties(cmp, a[1..] + b, x);
        head + (Ties(cmp, a[1..], x) + Ties(cmp, b, x));
        (head + Ties(cmp, a[1..], x)) + Ties(cmp, b, x);
      }
    }
  }

  lemma {:induction false} TiesNone<T>(cmp: (T, T) -> int, b: seq<T>, x: T)
    requires forall k :: 0 <= k < |b| ==> cmp(b[k], x) != 0
    ensures Ties(cmp, b, x) == []
  {
    if |b| > 0 {
      TiesNone(cmp, b[1..], x);
    }
  }

  /** Dropping `v` in front of a run of elements that all rank strictly after
      it, instead of after that run, keeps every tie subsequence: this is why
      stopping the shift at the first element not greater than `v` is stable. */
  lemma InsertKeepsTies<T(!new)>(cmp: (T, T) -> int, A: seq<T>, v: T, B: seq<T>, x: T)
    requires IsTotalPreorder(cmp)
    requires forall k :: 0 <= k < |B| ==> cmp(B[k], v) > 0
    ensures Ties(cmp, A + [v] + B, x) == Ties(cmp, A + B + [v], x)
  {
    TiesConcat(cmp, A + [v], B, x);
    TiesConcat(cmp, A, [v], x);
    TiesConcat(cmp, A + B, [v], x);
    TiesConcat(cmp, A, B, x);
    if cmp(v, x) == 0 {
      forall k | 0 <= k < |B| ensures cmp(B[k], x) != 0 {
        if cmp(B[k], x) == 0 {
          Trans(cmp, B[k], x, v);
        }
      }
      TiesNone(cmp, B, x);
    } else {
      assert Ties(cmp, [v], x) == [] + Ties(cmp, [v][1..], x);
    }
  }

  /** Sorts `s[lo..hi]` in place by straight insertion: for each `j`, the
      element `a = s[j]` is held while every earlier element that compares
      greater than it moves one slot right, then `a` fills the gap. */
  method InsertionSortRange<T(!new)>(s: seq<T>, lo: int, hi: int, cmp: (T, T) -> int) returns (r: seq<T>)
    requires IsTotalPreorder(cmp)
    requires 0 <= lo < hi <= |s|
    ensures Permutes(s, r, lo, hi)
    ensures SortedBetween(cmp, r, lo, hi)
    ensures forall x :: Ties(cmp, r[lo..hi], x) == Ties(cmp, s[lo..hi], x)
  {
    r := s;
    var j := lo + 1;
    while j < hi
      invariant lo < j <= hi
      invariant InsertState(cmp, s, r, lo, j)
    {
      r := InsertOne(s, r, lo, j, cmp);
      j := j + 1;
    }
  }

  /** One round of the outer loop: inserts the element at `j` into the sorted
      prefix before it. */
  method InsertOne<T(!new)>(s: seq<T>, r0: seq<T>, lo: int, j: int, cmp: (T, T) -> int) returns (r: seq<T>)
    requires IsTotalPreorder(cmp)
    requires 0 <= lo < j < |s|
    requires InsertState(cmp, s, r0, lo, j)
    ensures InsertState(cmp, s, r, lo, j + 1)
  {
    var i;
    r, i := ShiftRight(r0, lo, j, cmp);
    InsertExtends(cmp, s, r0, r, lo, i, j, j + 1);
  }

  /** The state of the outer loop before inserting the element at `j`: `r`
      rearranges `s` within `lo .. j-1` only, and that prefix is sorted with
      every tie subsequence kept. */
  ghost predicate InsertState<T(!new)>(cmp: (T, T) -> int, s: seq<T>, r: seq<T>, lo: int, j: int)
    requires 0 <= lo <= j <= |s|
  {
    && |r| == |s| && multiset(r) == multiset(s)
    && (forall k :: 0 <= k < |s| && !(lo <= k < j) ==> r[k] == s[k])
    && SortedBetween(cmp, r, lo, j)
    && (forall x :: Ties(cmp, r[lo..j], x) == Ties(cmp, s[lo..j], x))
  }

  /** The inner loop of one insertion: holds `a = s[j]` aside, moves every
      element before it (down to `lo`) that compares greater one slot right,
      and drops `a` into the gap at `i`. */
  method ShiftRight<T(!new)>(s: seq<T>, lo: int, j: int, cmp: (T, T) -> int) returns (r: seq<T>, i: int)
    requires IsTotalPreorder(cmp)
    requires 0 <= lo <= j < |s|
    ensures lo <= i <= j && |r| == |s| && multiset(r) == multiset(s)
    ensures forall k :: 0 <= k < |s| && !(i <= k <= j) ==> r[k] == s[k]
    ensures r[i] == s[j]
    ensures forall k :: i < k <= j ==> r[k] == s[k - 1] && cmp(r[k], s[j]) > 0
    ensures i > lo ==> cmp(s[i - 1], s[j]) <= 0
  {
    r := s;
    var a := r[j];
    i := j;
    while i > lo && cmp(r[i - 1], a) > 0
      invariant lo <= i <= j
      invariant |r| == |s|
      invariant forall k :: 0 <= k < |r| && !(i < k <= j) ==> r[k] == s[k]
      invariant forall k :: i < k <= j ==> r[k] == s[k - 1] && cmp(r[k], a) > 0
    {
      r := r[i := r[i - 1]];
      i := i - 1;
    }
    r := r[i := a];
    RotateMultiset(s, r, i, j);
  }

  /** Moving the element at `j` down to `i` and the run `i .. j-1` up one slot keeps the multiset. */
  lemma RotateMultiset<T>(s: seq<T>, r: seq<T>, i: int, j: int)
    requires 0 <= i <= j < |s| == |r|
    requires forall k :: 0 <= k < |s| && !(i <= k <= j) ==> r[k] == s[k]
    requires r[i] == s[j]
    requires forall k :: i < k <= j ==> r[k] == s[k - 1]
    ensures multiset(r) == multiset(s)
  {
    assert s == s[..i] + s[i..j] + [s[j]] + s[j + 1..];
    assert r == s[..i] + [s[j]] + s[i..j] + s[j + 1..];
  }

  /** One pass of the outer loop extends the sorted, stable prefix by one element. */
  lemma InsertExtends<T(!new)>(cmp: (T, T) -> int, s: seq<T>, r0: seq<T>, r: seq<T>, lo: int, i: int, j: int, next: int)
    requires IsTotalPreorder(cmp)
    requires 0 <= lo <= i <= j < |s| && next == j + 1
    requires InsertState(cmp, s, r0, lo, j)
    requires |r| == |r0| && multiset(r) == multiset(r0)
    requires forall k :: 0 <= k < |r0| && !(i <= k <= j) ==> r[k] == r0[k]
    requires r[i] == r0[j]
    requires forall k :: i < k <= j ==> r[k] == r0[k - 1] && cmp(r[k], r0[j]) > 0
    requires i > lo ==> cmp(r0[i - 1], r0[j]) <= 0
    ensures InsertState(cmp, s, r, lo, next)
  {
    assert r0[j] == s[j];
    InsertStep(cmp, r0, r, lo, i, j, r0[j]);
    InsertShape(r0, r, lo, i, j, r0[j]);
    InsertTies(cmp, s, r0, r, lo, i, j, r0[j], r[lo..j + 1], s[lo..j + 1]);
  }

  /** After one insertion the prefix up to `j` is ascending: the untouched
      part, then `a` (not below its left neighbour), then the shifted run
      (all strictly above `a`). */
  lemma InsertStep<T(!new)>(cmp: (T, T) -> int, r0: seq<T>, r: seq<T>, lo: int, i: int, j: int, a: T)
    requires IsTotalPreorder(cmp)
    requires 0 <= lo <= i <= j < |r0| == |r|
    requires SortedBetween(cmp, r0, lo, j)
    requires forall k :: lo <= k < i ==> r[k] == r0[k]
    requires r[i] == a
    requires forall k :: i < k <= j ==> r[k] == r0[k - 1] && cmp(r[k], a) > 0
    requires i > lo ==> cmp(r0[i - 1], a) <= 0
    ensures SortedBetween(cmp, r, lo, j + 1)
  {
    forall p, q | lo <= p < q < j + 1 ensures cmp(r[p], r[q]) <= 0 {
      if q < i {
        assert cmp(r0[p], r0[q]) <= 0;
      } else if q == i {
        if p < i - 1 {
          Trans(cmp, r0[p], r0[i - 1], a);
        }
      } else if p < i {
        assert cmp(r0[p], r0[q - 1]) <= 0;
      } else if p == i {
        assert cmp(r[q], a) > 0;
      } else {
        assert cmp(r0[p - 1], r0[q - 1]) <= 0;
      }
    }
  }

  /** One insertion keeps every tie subsequence of the prefix it extends. */
  lemma InsertTies<T(!new)>(cmp: (T, T) -> int, s: seq<T>, r0: seq<T>, r: seq<T>, lo: int, i: int, j: int, a: T, rs: seq<T>, ss: seq<T>)
    requires IsTotalPreorder(cmp)
    requires 0 <= lo <= i <= j < |s| == |r0| == |r|
    requires a == s[j]
    requires rs == r[lo..j + 1] && ss == s[lo..j + 1]
    requires rs == r0[lo..i] + [a] + r0[i..j]
    requires forall k :: i < k <= j ==> r[k] == r0[k - 1] && cmp(r[k], a) > 0
    requires forall x :: Ties(cmp, r0[lo..j], x) == Ties(cmp, s[lo..j], x)
    ensures forall x :: Ties(cmp, rs, x) == Ties(cmp, ss, x)
  {
    forall x ensures Ties(cmp, rs, x) == Ties(cmp, ss, x) {
      forall k | 0 <= k < |r0[i..j]| ensures cmp(r0[i..j][k], a) > 0 {
        assert r0[i..j][k] == r0[i + k] == r[i + k + 1];
      }
      InsertKeepsTies(cmp, r0[lo..i], a, r0[i..j], x);
      assert r0[lo..i] + r0[i..j] == r0[lo..j];
      TiesConcat(cmp, r0[lo..j], [a], x);
      assert s[lo..j + 1] == s[lo..j] + [a];
      TiesConcat(cmp, s[lo..j], [a], x);
    }
  }

  /** The shape one insertion leaves: the prefix up to `i`, then `a`, then the shifted run. */
  lemma InsertShape<T>(r0: seq<T>, r: seq<T>, lo: int, i: int, j: int, a: T)
    requires 0 <= lo <= i <= j < |r0| == |r|
    requires forall k :: lo <= k < i ==> r[k] == r0[k]
    requires r[i] == a
    requires forall k :: i < k <= j ==> r[k] == r0[k - 1]
    ensures r[lo..j + 1] == r0[lo..i] + [a] + r0[i..j]
  {
  }

  /** StraightInsertionSorter.sort: validates the range, leaves an empty range
      alone, and otherwise sorts it stably. */
  method Sort<T(!new)>(a: seq<T>, fromIndex: int, toIndex: int, cmp: (T, T) -> int)
    returns (r: seq<T>, err: Option<SorterError>)
    requires IsTotalPreorder(cmp)
    ensures err == CheckRange(|a|, fromIndex, toIndex)
    ensures err.Some? || fromIndex == toIndex ==> r == a
    ensures err.None? ==> Permutes(a, r, fromIndex, toIndex) && SortedBetween(cmp, r, fromIndex, toIndex)
    ensures err.None? ==> forall x :: Ties(cmp, r[fromIndex..toIndex], x) == Ties(cmp, a[fromIndex..toIndex], x)
  {
    err := CheckRange(|a|, fromIndex, toIndex);
    r := a;
    if err.Some? || fromIndex == toIndex {
      return;
    }
    r := InsertionSortRange(a, fromIndex, toIndex, cmp);
  }
}
