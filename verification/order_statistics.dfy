/**
 The reference meaning of Sorter.select and Sorter.median, independent of any
 algorithm: `v` is the `k`-th order statistic of a range (counting from 0)
 when it is one of the range's elements, at most `k` elements of the range
 rank strictly below it and more than `k` rank no higher than it. This is what
 a sort would put at position `k` of the range, up to ties.
 */
module OrderStatistics {
  import opened Ordering

  /** The number of elements of `s` that satisfy `p`. */
  function Count<T>(s: seq<T>, p: T -> bool): (c: nat)
    ensures c <= |s|
  {
    if |s| == 0 then 0 else (if p(s[0]) then 1 else 0) + Count(s[1..], p)
  }

  ghost predicate IsOrderStatistic<T>(cmp: (T, T) -> int, s: seq<T>, lo: int, hi: int, k: int, v: T)
    requires 0 <= lo <= hi <= |s|
  {
    && v in s[lo..hi]
    && Count(s[lo..hi], e => cmp(e, v) < 0) <= k < Count(s[lo..hi], e => cmp(e, v) <= 0)
  }

  lemma {:induction false} CountAppend<T>(s: seq<T>, t: seq<T>, p: T -> bool)
    ensures Count(s + t, p) == Count(s, p) + Count(t, p)
    decreases |s|
  {
    if |s| == 0 {
      assert s + t == t;
    } else {
      assert (s + t)[1..] == s[1..] + t;
      CountAppend(s[1..], t, p);
    }
  }

  lemma {:induction false} CountAll<T>(s: seq<T>, p: T -> bool)
    requires forall k :: 0 <= k < |s| ==> p(s[k])
    ensures Count(s, p) == |s|
    decreases |s|
  {
    if |s| > 0 {
      CountAll(s[1..], p);
    }
  }

  lemma {:induction false} CountNone<T>(s: seq<T>, p: T -> bool)
    requires forall k :: 0 <= k < |s| ==> !p(s[k])
    ensures Count(s, p) == 0
    decreases |s|
  {
    if |s| > 0 {
      CountNone(s[1..], p);
    }
  }

  /** A weaker condition is met at least as often. */
  lemma {:induction false} CountMono<T>(s: seq<T>, p: T -> bool, q: T -> bool)
    requires forall k :: 0 <= k < |s| && p(s[k]) ==> q(s[k])
    ensures Count(s, p) <= Count(s, q)
    decreases |s|
  {
    if |s| > 0 {
      CountMono(s[1..], p, q);
    }
  }

  /** Counting does not depend on the order of the elements. */
  lemma {:induction false} CountPermutation<T>(s: seq<T>, t: seq<T>, p: T -> bool)
    requires multiset(s) == multiset(t)
    ensures Count(s, p) == Count(t, p)
    decreases |s|
  {
    if |s| == 0 {
      assert |t| == |multiset(t)| == 0;
    } else {
      var x := s[0];
      assert x in multiset(t);
      var i :| 0 <= i < |t| && t[i] == x;
      var t' := t[..i] + t[i + 1..];
      RemoveAt(t, i, p);
      assert s == [x] + s[1..];
      assert multiset(s[1..]) == multiset(s) - multiset{x};
      CountPermutation(s[1..], t', p);
    }
  }

  /** Taking the element at `i` out of `t` takes one copy out of its multiset
      and one out of the count when the element satisfies `p`. */
  lemma RemoveAt<T>(t: seq<T>, i: int, p: T -> bool)
    requires 0 <= i < |t|
    ensures multiset(t[..i] + t[i + 1..]) == multiset(t) - multiset{t[i]}
    ensures Count(t, p) == Count(t[..i] + t[i + 1..], p) + (if p(t[i]) then 1 else 0)
  {
    SplitAt(t, i);
    CountAppend(t[..i] + [t[i]], t[i + 1..], p);
    CountAppend(t[..i], [t[i]], p);
    CountAppend(t[..i], t[i + 1..], p);
    CountOne(t[i], p);
  }

  lemma SplitAt<T>(t: seq<T>, i: int)
    requires 0 <= i < |t|
    ensures t == t[..i] + [t[i]] + t[i + 1..]
    ensures multiset(t[..i] + t[i + 1..]) == multiset(t) - multiset{t[i]}
  {
    assert t == t[..i] + [t[i]] + t[i + 1..];
  }

  lemma CountOne<T>(x: T, p: T -> bool)
    ensures Count([x], p) == if p(x) then 1 else 0
  {
    assert [x][1..] == [];
  }

  /** An element with nothing ranking above it on its left and nothing ranking
      below it on its right is the order statistic of its own position. */
  lemma SplitIsOrderStatistic<T(!new)>(cmp: (T, T) -> int, s: seq<T>, lo: int, hi: int, p: int)
    requires IsTotalPreorder(cmp)
    requires 0 <= lo <= p < hi <= |s|
    requires forall k :: lo <= k < p ==> cmp(s[k], s[p]) <= 0
    requires forall k :: p < k < hi ==> cmp(s[p], s[k]) <= 0
    ensures IsOrderStatistic(cmp, s, lo, hi, p - lo, s[p])
  {
    var v := s[p];
    var less := e => cmp(e, v) < 0;
    var notAbove := e => cmp(e, v) <= 0;
    var left, mid, right := s[lo..p], [v], s[p + 1..hi];
    assert s[lo..hi] == left + mid + right;
    PreorderFacts(cmp, v, v, v);
    CountAppend(left + mid, right, less);
    CountAppend(left, mid, less);
    CountAppend(left + mid, right, notAbove);
    CountAppend(left, mid, notAbove);
    CountAll(left, notAbove);
    CountNone(right, less);
    assert v == s[lo..hi][p - lo];
  }

  /** In a sorted range the element at offset `k` is the `k`-th order
      statistic: selection agrees with sorting. */
  lemma SortedOrderStatistic<T(!new)>(cmp: (T, T) -> int, s: seq<T>, lo: int, hi: int, k: int)
    requires IsTotalPreorder(cmp)
    requires 0 <= lo && lo <= lo + k < hi <= |s|
    requires SortedBetween(cmp, s, lo, hi)
    ensures IsOrderStatistic(cmp, s, lo, hi, k, s[lo + k])
  {
    SplitIsOrderStatistic(cmp, s, lo, hi, lo + k);
  }

  /** Permuting a range does not change its order statistics. */
  lemma OrderStatisticPermutes<T>(cmp: (T, T) -> int, s: seq<T>, r: seq<T>, lo: int, hi: int, k: int, v: T)
    requires 0 <= lo <= hi <= |s|
    requires Permutes(s, r, lo, hi)
    ensures IsOrderStatistic(cmp, r, lo, hi, k, v) <==> IsOrderStatistic(cmp, s, lo, hi, k, v)
  {
    PermutesRange(s, r, lo, hi);
    assert multiset(r[lo..hi]) == multiset(s[lo..hi]);
    assert v in r[lo..hi] <==> v in multiset(r[lo..hi]);
    assert v in s[lo..hi] <==> v in multiset(s[lo..hi]);
    CountPermutation(r[lo..hi], s[lo..hi], e => cmp(e, v) < 0);
    CountPermutation(r[lo..hi], s[lo..hi], e => cmp(e, v) <= 0);
  }

  /** Two `k`-th order statistics of the same range tie. */
  lemma OrderStatisticUnique<T(!new)>(cmp: (T, T) -> int, s: seq<T>, lo: int, hi: int, k: int, v: T, w: T)
    requires IsTotalPreorder(cmp)
    requires 0 <= lo <= hi <= |s|
    requires IsOrderStatistic(cmp, s, lo, hi, k, v) && IsOrderStatistic(cmp, s, lo, hi, k, w)
    ensures cmp(v, w) == 0
  {
    if cmp(v, w) < 0 {
      Below(cmp, s[lo..hi], v, w);
    } else if cmp(w, v) < 0 {
      Below(cmp, s[lo..hi], w, v);
    }
  }

  /** When `v` ranks strictly below `w`, whatever ranks no higher than `v`
      ranks strictly below `w`. */
  lemma Below<T(!new)>(cmp: (T, T) -> int, t: seq<T>, v: T, w: T)
    requires IsTotalPreorder(cmp) && cmp(v, w) < 0
    ensures Count(t, e => cmp(e, v) <= 0) <= Count(t, e => cmp(e, w) < 0)
  {
    forall k | 0 <= k < |t| && cmp(t[k], v) <= 0
      ensures cmp(t[k], w) < 0
    {
      PreorderFacts(cmp, t[k], v, w);
    }
    CountMono(t, e => cmp(e, v) <= 0, e => cmp(e, w) < 0);
  }
}
