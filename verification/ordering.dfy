/**
 The vocabulary every sorting algorithm of the engine is stated in: the laws a
 three-way comparator must obey, ascending order over a half-open index range,
 and "the range was permuted, everything outside it kept".

 A comparator is a total function `(T, T) -> int`: negative when the first
 argument goes first, zero when the two rank equally, positive otherwise.
 */
module Ordering {

  /** The comparator ranks all elements consistently: swapping the arguments
      flips the sign, and "goes first or ties" is transitive. Totality and
      reflexivity follow (see `PreorderFacts`). */
  ghost predicate IsTotalPreorder<T(!new)>(cmp: (T, T) -> int) {
    && (forall a, b :: cmp(a, b) < 0 <==> cmp(b, a) > 0)
    && (forall a, b, c {:trigger Chained(cmp, a, b, c)} :: cmp(a, b) <= 0 && cmp(b, c) <= 0 ==> cmp(a, c) <= 0)
  }

  /** Names one instance of transitivity. Transitivity is only instantiated
      through `Trans`, which keeps the solver from chaining every pair of
      comparisons it has seen. */
  ghost predicate Chained<T>(cmp: (T, T) -> int, a: T, b: T, c: T) {
    true
  }

  /** "Goes first or ties" is transitive. */
  lemma Trans<T(!new)>(cmp: (T, T) -> int, a: T, b: T, c: T)
    requires IsTotalPreorder(cmp)
    requires cmp(a, b) <= 0 && cmp(b, c) <= 0
    ensures cmp(a, c) <= 0
  {
    assert Chained(cmp, a, b, c);
  }

  /** A total preorder in which only identical elements tie, e.g. the natural order on integers. */
  ghost predicate IsTotalOrder<T(!new)>(cmp: (T, T) -> int) {
    && IsTotalPreorder(cmp)
    && (forall a, b :: cmp(a, b) == 0 ==> a == b)
  }

  /** Elements at positions `lo .. hi-1` are in ascending order under `cmp`. */
  ghost predicate SortedBetween<T>(cmp: (T, T) -> int, s: seq<T>, lo: int, hi: int)
    requires 0 <= lo <= hi <= |s|
  {
    forall i, j :: lo <= i < j < hi ==> cmp(s[i], s[j]) <= 0
  }

  /** `r` is `s` with the range `lo .. hi-1` rearranged: same length, same
      elements outside the range, same multiset of elements. With the frame,
      the last condition says the range holds the same multiset (see
      `PermutesRange`). */
  ghost predicate Permutes<T>(s: seq<T>, r: seq<T>, lo: int, hi: int)
    requires 0 <= lo <= hi <= |s|
  {
    && |r| == |s|
    && (forall k :: 0 <= k < |s| && !(lo <= k < hi) ==> r[k] == s[k])
    && multiset(r) == multiset(s)
  }

  /** The comparator with its arguments exchanged: ascending under it is descending under `cmp`. */
  function Reversed<T>(cmp: (T, T) -> int): (T, T) -> int {
    (a, b) => cmp(b, a)
  }

  /** Exchanges the elements at `i` and `j` (Sorter.swap). */
  function Swap<T>(s: seq<T>, i: int, j: int): (r: seq<T>)
    requires 0 <= i < |s| && 0 <= j < |s|
    ensures |r| == |s| && r[i] == s[j] && r[j] == s[i]
    ensures forall k :: 0 <= k < |s| && k != i && k != j ==> r[k] == s[k]
    ensures multiset(r) == multiset(s)
  {
    s[i := s[j]][j := s[i]]
  }

  /** Natural three-way comparison of integers (Sorter.compare for Comparable elements). */
  function Compare(a: int, b: int): (c: int)
    ensures -1 <= c <= 1
    ensures c < 0 <==> a < b
    ensures c == 0 <==> a == b
  {
    if a < b then -1 else if a == b then 0 else 1
  }

  /** The natural integer comparison is a legal comparator, and in fact a total order. */
  lemma CompareIsTotalOrder()
    ensures IsTotalOrder(Compare)
  {
    forall a: int, b: int
      ensures Compare(a, b) < 0 <==> Compare(b, a) > 0
      ensures Compare(a, b) == 0 ==> a == b
    {
    }
    forall a: int, b: int, c: int {:trigger Chained(Compare, a, b, c)} | Compare(a, b) <= 0 && Compare(b, c) <= 0
      ensures Compare(a, c) <= 0
    {
    }
  }

  /** Consequences of the comparator laws used throughout: reflexivity,
      totality, symmetry of ties, and mixed strict/non-strict transitivity. */
  lemma PreorderFacts<T(!new)>(cmp: (T, T) -> int, a: T, b: T, c: T)
    requires IsTotalPreorder(cmp)
    ensures cmp(a, a) == 0
    ensures cmp(a, b) <= 0 || cmp(b, a) <= 0
    ensures cmp(a, b) == 0 <==> cmp(b, a) == 0
    ensures cmp(a, b) < 0 && cmp(b, c) <= 0 ==> cmp(a, c) < 0
    ensures cmp(a, b) <= 0 && cmp(b, c) < 0 ==> cmp(a, c) < 0
  {
    if cmp(a, b) < 0 && cmp(b, c) <= 0 && cmp(c, a) <= 0 {
      Trans(cmp, b, c, a);
    }
    if cmp(a, b) <= 0 && cmp(b, c) < 0 && cmp(c, a) <= 0 {
      Trans(cmp, c, a, b);
    }
  }

  /** Exchanging the arguments of a legal comparator gives a legal comparator,
      and ascending order under it is exactly descending order under `cmp`. */
  lemma ReversedSortsDescending<T(!new)>(cmp: (T, T) -> int, s: seq<T>, lo: int, hi: int)
    requires IsTotalPreorder(cmp)
    requires 0 <= lo <= hi <= |s|
    ensures IsTotalPreorder(Reversed(cmp))
    ensures SortedBetween(Reversed(cmp), s, lo, hi) <==>
            (forall i, j :: lo <= i < j < hi ==> cmp(s[i], s[j]) >= 0)
  {
    var rev := Reversed(cmp);
    forall a, b ensures rev(a, b) < 0 <==> rev(b, a) > 0 {
      assert rev(a, b) == cmp(b, a) && rev(b, a) == cmp(a, b);
    }
    forall a, b, c | rev(a, b) <= 0 && rev(b, c) <= 0
      ensures rev(a, c) <= 0
    {
      assert rev(a, b) == cmp(b, a) && rev(b, c) == cmp(c, b) && rev(a, c) == cmp(c, a);
      Trans(cmp, c, b, a);
    }
  }

  /** Ascending neighbours make an ascending range. */
  lemma {:induction false} AdjacentSorted<T(!new)>(cmp: (T, T) -> int, s: seq<T>, lo: int, hi: int)
    requires IsTotalPreorder(cmp)
    requires 0 <= lo <= hi <= |s|
    requires forall k :: lo < k < hi ==> cmp(s[k - 1], s[k]) <= 0
    ensures SortedBetween(cmp, s, lo, hi)
    decreases hi - lo
  {
    if hi - lo > 1 {
      AdjacentSorted(cmp, s, lo, hi - 1);
      forall i | lo <= i < hi - 1 ensures cmp(s[i], s[hi - 1]) <= 0 {
        if i < hi - 2 {
          Trans(cmp, s[i], s[hi - 2], s[hi - 1]);
        }
      }
    }
  }

  /** A sequence that keeps everything outside a range is a permutation of
      the range exactly when the range holds the same multiset. */
  lemma PermutesRange<T>(s: seq<T>, r: seq<T>, lo: int, hi: int)
    requires 0 <= lo <= hi <= |s| == |r|
    requires forall k :: 0 <= k < |s| && !(lo <= k < hi) ==> r[k] == s[k]
    ensures Permutes(s, r, lo, hi) <==> multiset(r[lo..hi]) == multiset(s[lo..hi])
  {
    assert s == s[..lo] + s[lo..hi] + s[hi..];
    assert r == r[..lo] + r[lo..hi] + r[hi..];
    assert r[..lo] == s[..lo];
    assert r[hi..] == s[hi..];
    if multiset(r) == multiset(s) {
      calc {
        multiset(r[lo..hi]);
        multiset(r) - multiset(r[..lo]) - multiset(r[hi..]);
        multiset(s) - multiset(s[..lo]) - multiset(s[hi..]);
        multiset(s[lo..hi]);
      }
    }
  }

  /** A permutation of a range is a permutation of any enclosing range. */
  lemma PermutesWiden<T>(s: seq<T>, r: seq<T>, lo: int, hi: int, lo': int, hi': int)
    requires 0 <= lo' <= lo <= hi <= hi' <= |s|
    requires Permutes(s, r, lo, hi)
    ensures Permutes(s, r, lo', hi')
  {
  }

  /** Moving the hole from `y` to `x` (the element at `x` fills `y`) keeps the
      multiset of the sequence with the held value `v` in the hole. */
  lemma HoleMove<T>(r: seq<T>, x: int, y: int, v: T)
    requires 0 <= x < |r| && 0 <= y < |r| && x != y
    ensures multiset(r[y := r[x]][x := v]) == multiset(r[y := v])
  {
    assert r[y := r[x]][x := v] == Swap(r[y := v], x, y);
  }

  /** Permuting a range twice permutes it. */
  lemma PermutesTrans<T>(s: seq<T>, t: seq<T>, r: seq<T>, lo: int, hi: int)
    requires 0 <= lo <= hi <= |s|
    requires Permutes(s, t, lo, hi) && Permutes(t, r, lo, hi)
    ensures Permutes(s, r, lo, hi)
  {
  }

  /** Any property every element of a range has is kept when the range is permuted. */
  lemma ElementsTransfer<T>(s: seq<T>, r: seq<T>, lo: int, hi: int, P: T -> bool)
    requires 0 <= lo <= hi <= |s|
    requires Permutes(s, r, lo, hi)
    requires forall k :: lo <= k < hi ==> P(s[k])
    ensures forall k :: lo <= k < hi ==> P(r[k])
  {
    PermutesRange(s, r, lo, hi);
    forall k | lo <= k < hi ensures P(r[k]) {
      assert r[k] == r[lo..hi][k - lo];
      assert r[k] in multiset(s[lo..hi]);
      var k' :| 0 <= k' < hi - lo && s[lo..hi][k'] == r[k];
      assert s[lo + k'] == r[k];
    }
  }

  /** Permuting a range keeps "every element ranks no higher than `v`". */
  lemma RangeBelow<T>(cmp: (T, T) -> int, s: seq<T>, r: seq<T>, lo: int, hi: int, v: T)
    requires 0 <= lo <= hi <= |s|
    requires Permutes(s, r, lo, hi)
    requires forall k :: lo <= k < hi ==> cmp(s[k], v) <= 0
    ensures forall k :: lo <= k < hi ==> cmp(r[k], v) <= 0
  {
    ElementsTransfer(s, r, lo, hi, e => cmp(e, v) <= 0);
  }

  /** Permuting a range keeps "every element ranks no lower than `v`". */
  lemma RangeAbove<T>(cmp: (T, T) -> int, s: seq<T>, r: seq<T>, lo: int, hi: int, v: T)
    requires 0 <= lo <= hi <= |s|
    requires Permutes(s, r, lo, hi)
    requires forall k :: lo <= k < hi ==> cmp(v, s[k]) <= 0
    ensures forall k :: lo <= k < hi ==> cmp(v, r[k]) <= 0
  {
    ElementsTransfer(s, r, lo, hi, e => cmp(v, e) <= 0);
  }

  /** Under a total order there is only one ascending arrangement of a
      multiset: two sorted sequences with the same elements are equal. */
  lemma {:induction false} SortedUnique<T(!new)>(cmp: (T, T) -> int, t: seq<T>, u: seq<T>)
    requires IsTotalOrder(cmp)
    requires SortedBetween(cmp, t, 0, |t|) && SortedBetween(cmp, u, 0, |u|)
    requires multiset(t) == multiset(u)
    ensures t == u
    decreases |t|
  {
    if |t| == 0 {
      assert |u| == |multiset(u)| == 0;
    } else {
      assert |u| == |multiset(u)| == |multiset(t)| == |t|;
      SmallestFirst(cmp, t, u);
      SortedTail(cmp, t);
      SortedTail(cmp, u);
      assert t == [t[0]] + t[1..] && u == [u[0]] + u[1..];
      assert multiset(t[1..]) == multiset(t) - multiset{t[0]};
      assert multiset(u[1..]) == multiset(u) - multiset{u[0]};
      SortedUnique(cmp, t[1..], u[1..]);
    }
  }

  /** Two sorted sequences with the same elements start with the same element. */
  lemma SmallestFirst<T(!new)>(cmp: (T, T) -> int, t: seq<T>, u: seq<T>)
    requires IsTotalOrder(cmp)
    requires 0 < |t| && 0 < |u|
    requires SortedBetween(cmp, t, 0, |t|) && SortedBetween(cmp, u, 0, |u|)
    requires multiset(t) == multiset(u)
    ensures t[0] == u[0]
  {
    assert t[0] in multiset(u);
    var k :| 0 <= k < |u| && u[k] == t[0];
    assert u[0] in multiset(t);
    var m :| 0 <= m < |t| && t[m] == u[0];
    PreorderFacts(cmp, t[0], u[0], u[0]);
    if m > 0 {
      assert cmp(t[0], t[m]) <= 0;
    }
    if k > 0 {
      assert cmp(u[0], u[k]) <= 0;
    }
    assert cmp(t[0], u[0]) == 0;
  }

  /** Dropping the first element of a sorted sequence leaves it sorted. */
  lemma SortedTail<T>(cmp: (T, T) -> int, t: seq<T>)
    requires 0 < |t| && SortedBetween(cmp, t, 0, |t|)
    ensures SortedBetween(cmp, t[1..], 0, |t| - 1)
  {
    forall i, j | 0 <= i < j < |t| - 1 ensures cmp(t[1..][i], t[1..][j]) <= 0 {
      assert t[1..][i] == t[i + 1] && t[1..][j] == t[j + 1];
    }
  }

  /** Two rearrangements of the same range of `s` that are both ascending
      under a total order are the same sequence. */
  lemma SortedRangeUnique<T(!new)>(cmp: (T, T) -> int, s: seq<T>, r1: seq<T>, r2: seq<T>, lo: int, hi: int)
    requires IsTotalOrder(cmp)
    requires 0 <= lo <= hi <= |s|
    requires Permutes(s, r1, lo, hi) && Permutes(s, r2, lo, hi)
    requires SortedBetween(cmp, r1, lo, hi) && SortedBetween(cmp, r2, lo, hi)
    ensures r1 == r2
  {
    PermutesRange(s, r1, lo, hi);
    PermutesRange(s, r2, lo, hi);
    var t, u := r1[lo..hi], r2[lo..hi];
    assert SortedBetween(cmp, t, 0, |t|) by {
      forall i, j | 0 <= i < j < |t| ensures cmp(t[i], t[j]) <= 0 {
        assert t[i] == r1[lo + i] && t[j] == r1[lo + j];
      }
    }
    assert SortedBetween(cmp, u, 0, |u|) by {
      forall i, j | 0 <= i < j < |u| ensures cmp(u[i], u[j]) <= 0 {
        assert u[i] == r2[lo + i] && u[j] == r2[lo + j];
      }
    }
    SortedUnique(cmp, t, u);
    forall k | 0 <= k < |r1| ensures r1[k] == r2[k] {
      if lo <= k < hi {
        assert r1[k] == t[k - lo] && r2[k] == u[k - lo];
      }
    }
  }
}
