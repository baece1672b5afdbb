/**
 The partitioning step shared by QuicksortSorter.sort and Sorter.select: the
 median of the leftmost, middle and rightmost elements of a window becomes the
 pivot, and two indices sweep towards each other exchanging misplaced
 elements until they cross, after which the pivot is dropped between the two
 halves. Indices here are absolute positions in the array; the source keeps
 them relative to `fromIndex` and adds it on every access, which addresses the
 same elements.
 */
module Partitioning {
  import opened Ordering

  /** Moves the middle element next to the left end, then orders the left end,
      that element and the right end with three compare-and-exchange steps,
      so that `r[lo] <= r[lo + 1] <= r[hi]` and `r[lo + 1]`, the pivot, is the
      median of the three sampled elements. */
  method MedianOfThree<T(!new)>(s: seq<T>, lo: int, hi: int, cmp: (T, T) -> int) returns (r: seq<T>)
    requires IsTotalPreorder(cmp)
    requires 0 <= lo && lo + 2 <= hi < |s|
    ensures Permutes(s, r, lo, hi + 1)
    ensures cmp(r[lo], r[lo + 1]) <= 0 && cmp(r[lo + 1], r[hi]) <= 0
    ensures multiset{r[lo], r[lo + 1], r[hi]} == multiset{s[lo], s[(lo + hi) / 2], s[hi]}
    ensures forall x :: lo + 1 < x < hi && x != (lo + hi) / 2 ==> r[x] == s[x]
    ensures (lo + hi) / 2 != lo + 1 ==> r[(lo + hi) / 2] == s[lo + 1]
  {
    var k := (lo + hi) / 2;
    var r1 := Swap(s, k, lo + 1);
    r := SortSamples(r1, lo, hi, cmp);
    PermutesTrans(s, r1, r, lo, hi + 1);
  }

  /** The three compare-and-exchange steps of the median-of-three selection,
      applied to the left end, the element next to it and the right end. */
  method SortSamples<T(!new)>(s: seq<T>, lo: int, hi: int, cmp: (T, T) -> int) returns (r: seq<T>)
    requires IsTotalPreorder(cmp)
    requires 0 <= lo && lo + 2 <= hi < |s|
    ensures Permutes(s, r, lo, hi + 1)
    ensures forall x :: 0 <= x < |s| && x != lo && x != lo + 1 && x != hi ==> r[x] == s[x]
    ensures cmp(r[lo], r[lo + 1]) <= 0 && cmp(r[lo + 1], r[hi]) <= 0
    ensures multiset{r[lo], r[lo + 1], r[hi]} == multiset{s[lo], s[lo + 1], s[hi]}
  {
    r := CompareExchange(s, lo, hi, cmp);
    ghost var r2 := r;
    SamplesKept(s, r2, lo, lo + 1, hi);
    r := CompareExchange(r, lo + 1, hi, cmp);
    Trans(cmp, r[lo], r2[hi], r[hi]);
    ghost var r3 := r;
    SamplesKept(r2, r3, lo, lo + 1, hi);
    r := CompareExchange(r, lo, lo + 1, cmp);
    SamplesKept(r3, r, lo, lo + 1, hi);
    PermutesTrans(s, r2, r3, lo, hi + 1);
    PermutesTrans(s, r3, r, lo, hi + 1);
  }

  /** Exchanging two of three positions, or none, keeps the three elements. */
  lemma SamplesKept<T>(s: seq<T>, r: seq<T>, a: int, b: int, c: int)
    requires 0 <= a < b < c < |s| == |r|
    requires || (r[a] == s[a] && r[b] == s[b] && r[c] == s[c])
             || (r[a] == s[b] && r[b] == s[a] && r[c] == s[c])
             || (r[a] == s[c] && r[b] == s[b] && r[c] == s[a])
             || (r[a] == s[a] && r[b] == s[c] && r[c] == s[b])
    ensures multiset{r[a], r[b], r[c]} == multiset{s[a], s[b], s[c]}
  {
  }

  /** `if cmp(array[x], array[y]) > 0 { swap(x, y) }`: afterwards the element at
      `x` ranks no higher than either of the two, the one at `y` no lower. */
  method CompareExchange<T(!new)>(s: seq<T>, x: int, y: int, cmp: (T, T) -> int) returns (r: seq<T>)
    requires IsTotalPreorder(cmp)
    requires 0 <= x < y < |s|
    ensures Permutes(s, r, x, y + 1)
    ensures forall k :: 0 <= k < |s| && k != x && k != y ==> r[k] == s[k]
    ensures (r[x] == s[x] && r[y] == s[y]) || (r[x] == s[y] && r[y] == s[x])
    ensures cmp(r[x], r[y]) <= 0
    ensures cmp(r[x], s[x]) <= 0 && cmp(r[x], s[y]) <= 0
    ensures cmp(s[x], r[y]) <= 0 && cmp(s[y], r[y]) <= 0
  {
    PreorderFacts(cmp, s[x], s[y], s[x]);
    PreorderFacts(cmp, s[y], s[y], s[y]);
    if cmp(s[x], s[y]) > 0 {
      r := Swap(s, x, y);
    } else {
      r := s;
    }
  }

  /** `repeat { i += 1 } while cmp(array[i], a) < 0`: stops at the first element
      after `i` that does not rank below the pivot. `t` is such an element,
      which keeps the scan inside the window. */
  method ScanUp<T>(s: seq<T>, i: int, a: T, cmp: (T, T) -> int, ghost t: int) returns (i': int)
    requires 0 <= i < t < |s| && cmp(s[t], a) >= 0
    ensures i < i' <= t && cmp(s[i'], a) >= 0
    ensures forall k :: i < k < i' ==> cmp(s[k], a) < 0
  {
    i' := i + 1;
    while cmp(s[i'], a) < 0
      invariant i < i' <= t
      invariant forall k :: i < k < i' ==> cmp(s[k], a) < 0
      decreases t - i'
    {
      i' := i' + 1;
    }
  }

  /** `repeat { j -= 1 } while cmp(array[j], a) > 0`: stops at the first element
      before `j` that does not rank above the pivot; `t` is such an element. */
  method ScanDown<T>(s: seq<T>, j: int, a: T, cmp: (T, T) -> int, ghost t: int) returns (j': int)
    requires 0 <= t < j < |s| && cmp(s[t], a) <= 0
    ensures t <= j' < j && cmp(s[j'], a) <= 0
    ensures forall k :: j' < k < j ==> cmp(s[k], a) > 0
  {
    j' := j - 1;
    while cmp(s[j'], a) > 0
      invariant t <= j' < j
      invariant forall k :: j' < k < j ==> cmp(s[k], a) > 0
      decreases j'
    {
      j' := j' - 1;
    }
  }

  /** The innermost loop: both indices advance, the pair they stop at is
      exchanged, until the indices cross. Everything up to the final `i`
      (exclusive) ranks no higher than the pivot `s[lo + 1]`, everything after
      the final `j` no lower; the indices end adjacent, or one apart when
      they met on an element tied with the pivot. */
  method Crossing<T(!new)>(s: seq<T>, lo: int, hi: int, cmp: (T, T) -> int) returns (r: seq<T>, i: int, j: int)
    requires IsTotalPreorder(cmp)
    requires 0 <= lo && lo + 2 <= hi < |s|
    requires cmp(s[lo], s[lo + 1]) <= 0 && cmp(s[lo + 1], s[hi]) <= 0
    ensures Permutes(s, r, lo, hi + 1) && r[lo + 1] == s[lo + 1]
    ensures lo + 1 <= j < i <= hi && i <= j + 2
    ensures forall k :: lo <= k < i ==> cmp(r[k], s[lo + 1]) <= 0
    ensures forall k :: j < k <= hi ==> cmp(r[k], s[lo + 1]) >= 0
  {
    var a := s[lo + 1];
    PreorderFacts(cmp, a, a, a);
    r := s;
    i := lo + 1;
    j := hi;
    while true
      invariant lo + 1 <= i <= j <= hi && i < hi && lo + 2 <= j
      invariant Permutes(s, r, lo, hi + 1) && r[lo + 1] == a
      invariant forall k :: lo <= k <= i ==> cmp(r[k], a) <= 0
      invariant forall k :: j <= k <= hi ==> cmp(r[k], a) >= 0
      decreases j - i
    {
      ghost var i0, j0 := i, j;
      i := ScanUp(r, i, a, cmp, if i < j then j else i + 1);
      j := ScanDown(r, j, a, cmp, if i - 1 < j - 1 then i - 1 else j - 1);
      if j < i {
        break;
      }
      r := Swap(r, i, j);
    }
  }

  /** One round of partitioning of the window `lo .. hi` (at least three
      elements): median-of-three, the crossing sweep, then
      `array[l + 1] = array[j]; array[j] = a`, which exchanges the pivot (still
      at `lo + 1`) with the element at `j`. Afterwards the pivot sits at `j`,
      nothing before `i` ranks above it and nothing after `j` ranks below it. */
  method Partition<T(!new)>(s: seq<T>, lo: int, hi: int, cmp: (T, T) -> int) returns (r: seq<T>, i: int, j: int)
    requires IsTotalPreorder(cmp)
    requires 0 <= lo && lo + 2 <= hi < |s|
    ensures Permutes(s, r, lo, hi + 1)
    ensures lo + 1 <= j < i <= hi && i <= j + 2
    ensures forall k :: lo <= k < i ==> cmp(r[k], r[j]) <= 0
    ensures forall k :: j < k <= hi ==> cmp(r[j], r[k]) <= 0
  {
    var m := MedianOfThree(s, lo, hi, cmp);
    var a := m[lo + 1];
    var c;
    c, i, j := Crossing(m, lo, hi, cmp);
    r := c[lo + 1 := c[j]][j := a];
    assert r == Swap(c, lo + 1, j);
    PermutesTrans(s, m, c, lo, hi + 1);
    PermutesTrans(s, c, r, lo, hi + 1);
    forall k | lo <= k < i
      ensures cmp(r[k], r[j]) <= 0
    {
      if k == lo + 1 {
        assert r[k] == c[j];
      } else if k != j {
        assert r[k] == c[k];
      }
    }
    forall k | j < k <= hi
      ensures cmp(r[j], r[k]) <= 0
    {
      assert r[k] == c[k];
    }
  }
}
