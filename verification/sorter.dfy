/**
 The public face of the engine (the Sorter class and the SortingMethod enum):
 a sorter remembers which algorithm it was created with and dispatches every
 sort to it; the convenience overloads sort the whole array, return a sorted
 copy, or select and take medians over the whole array.

 Swift's `try!` stops the program when the call it wraps throws; here that
 outcome is an `Err` result, so a caller can see exactly when the source
 would trap. The Foundation algorithm is the platform's own sort and is a
 parameter, `platform`, of every member that may dispatch to it.
 */
module Sorters {
  import opened Ordering
  import opened SortErrors
  import opened OrderStatistics
  import StraightInsertion
  import ShellSort = Shell
  import QuickSort = Quicksort
  import HeapSort = Heapsort
  import Selection

  datatype SortingMethod = StraightInsertion | Shell | Quicksort | Heapsort | Foundation

  /** A sorter; `sortingMethod` is the algorithm it reports and runs. */
  datatype Sorter = Sorter(sortingMethod: SortingMethod)

  const DefaultSortingMethod: SortingMethod := Quicksort

  /** Sorter.create(method:): a sorter that runs the requested algorithm. */
  function Create(m: SortingMethod): (s: Sorter)
    ensures s.sortingMethod == m
  {
    match m
    case Foundation => Sorter(Foundation)
    case Heapsort => Sorter(Heapsort)
    case Quicksort => Sorter(Quicksort)
    case Shell => Sorter(Shell)
    case StraightInsertion => Sorter(StraightInsertion)
  }

  /** Sorter.create(): a sorter running quicksort, the default algorithm. */
  function CreateDefault(): (s: Sorter)
    ensures s.sortingMethod == Quicksort
  {
    Create(DefaultSortingMethod)
  }

  /** Every algorithm except quicksort finishes once the range is valid;
      quicksort may still report a failed sort. */
  predicate MayFail(m: SortingMethod) {
    m == Quicksort
  }

  /** `sort(_:fromIndex:toIndex:comparator:)` dispatched to the sorter's
      algorithm. The four algorithms of the engine report an invalid range and
      leave the array alone; otherwise they rearrange only the range and, unless
      quicksort runs out of stack, leave it in ascending order. Quicksort cannot
      run out of stack on a range of at most `QuickSort.M` elements. The Foundation
      algorithm ignores the range and the comparator and is whatever
      `platform` does to the whole array. */
  method Sort<T(!new)>(sorter: Sorter, a: seq<T>, fromIndex: int, toIndex: int, cmp: (T, T) -> int,
                       platform: seq<T> -> seq<T>)
    returns (r: seq<T>, err: Option<SorterError>)
    requires IsTotalPreorder(cmp)
    ensures sorter.sortingMethod == Foundation ==> r == platform(a) && err == None
    ensures sorter.sortingMethod != Foundation && CheckRange(|a|, fromIndex, toIndex).Some? ==>
              r == a && err == CheckRange(|a|, fromIndex, toIndex)
    ensures sorter.sortingMethod != Foundation && CheckRange(|a|, fromIndex, toIndex) == None ==>
              && Permutes(a, r, fromIndex, toIndex)
              && (err == None || (MayFail(sorter.sortingMethod) && err == Some(SortingError)))
    ensures sorter.sortingMethod != Foundation && err == None ==> SortedBetween(cmp, r, fromIndex, toIndex)
    ensures (&& sorter.sortingMethod != Foundation && CheckRange(|a|, fromIndex, toIndex) == None
             && toIndex - fromIndex <= QuickSort.M) ==> err == None
    ensures (&& sorter.sortingMethod != Foundation && err == None && IsTotalOrder(cmp)
             && CheckRange(|a|, fromIndex, toIndex) == None && SortedBetween(cmp, a, fromIndex, toIndex)) ==> r == a
  {
    match sorter.sortingMethod {
    case StraightInsertion =>
      r, err := StraightInsertion.Sort(a, fromIndex, toIndex, cmp);
    case Shell =>
      r, err := ShellSort.Sort(a, fromIndex, toIndex, cmp);
    case Heapsort =>
      r, err := HeapSort.Sort(a, fromIndex, toIndex, cmp);
    case Quicksort =>
      r, err := QuickSort.Sort(a, fromIndex, toIndex, cmp);
    case Foundation =>
      r, err := platform(a), None;
    }
    if && sorter.sortingMethod != Foundation && err == None && IsTotalOrder(cmp)
       && CheckRange(|a|, fromIndex, toIndex) == None && SortedBetween(cmp, a, fromIndex, toIndex) {
      SortedRangeUnique(cmp, a, r, a, fromIndex, toIndex);
    }
  }

  /** `sort(_:fromIndex:toIndex:)` for Comparable integers, through
      Sorter.compare: the range ends up in non-decreasing numeric order. */
  method SortComparable(sorter: Sorter, a: seq<int>, fromIndex: int, toIndex: int, platform: seq<int> -> seq<int>)
    returns (r: seq<int>, err: Option<SorterError>)
    ensures sorter.sortingMethod == Foundation ==> r == platform(a) && err == None
    ensures sorter.sortingMethod != Foundation && CheckRange(|a|, fromIndex, toIndex).Some? ==>
              r == a && err == CheckRange(|a|, fromIndex, toIndex)
    ensures sorter.sortingMethod != Foundation && CheckRange(|a|, fromIndex, toIndex) == None ==>
              && Permutes(a, r, fromIndex, toIndex)
              && (err == None || (MayFail(sorter.sortingMethod) && err == Some(SortingError)))
    ensures (&& sorter.sortingMethod != Foundation && CheckRange(|a|, fromIndex, toIndex) == None
             && toIndex - fromIndex <= QuickSort.M) ==> err == None
    ensures sorter.sortingMethod != Foundation && err == None ==>
              forall i, j :: fromIndex <= i < j < toIndex ==> r[i] <= r[j]
  {
    CompareIsTotalOrder();
    r, err := Sort(sorter, a, fromIndex, toIndex, Compare, platform);
    if sorter.sortingMethod != Foundation && err == None {
      forall i, j | fromIndex <= i < j < toIndex
        ensures r[i] <= r[j]
      {
        assert Compare(r[i], r[j]) <= 0;
      }
    }
  }

  /** `sorted(_:fromIndex:toIndex:comparator:)`: sorts a copy, so the caller's
      array is never changed; the copy obeys the same contract as `Sort`. */
  method Sorted<T(!new)>(sorter: Sorter, a: seq<T>, fromIndex: int, toIndex: int, cmp: (T, T) -> int,
                         platform: seq<T> -> seq<T>)
    returns (r: seq<T>, err: Option<SorterError>)
    requires IsTotalPreorder(cmp)
    ensures sorter.sortingMethod == Foundation ==> r == platform(a) && err == None
    ensures sorter.sortingMethod != Foundation && CheckRange(|a|, fromIndex, toIndex).Some? ==>
              err == CheckRange(|a|, fromIndex, toIndex)
    ensures sorter.sortingMethod != Foundation && CheckRange(|a|, fromIndex, toIndex) == None ==>
              err == None || (MayFail(sorter.sortingMethod) && err == Some(SortingError))
    ensures (&& sorter.sortingMethod != Foundation && CheckRange(|a|, fromIndex, toIndex) == None
             && toIndex - fromIndex <= QuickSort.M) ==> err == None
    ensures sorter.sortingMethod != Foundation && err == None ==>
              Permutes(a, r, fromIndex, toIndex) && SortedBetween(cmp, r, fromIndex, toIndex)
  {
    var result := a;
    r, err := Sort(sorter, result, fromIndex, toIndex, cmp, platform);
  }

  /** `sort(_:comparator:)` over the whole array, which discards any error:
      the result is always a rearrangement of the array, and in ascending order
      for every algorithm that cannot fail and for every array of at most
      `QuickSort.M` elements. */
  method SortAll<T(!new)>(sorter: Sorter, a: seq<T>, cmp: (T, T) -> int, platform: seq<T> -> seq<T>)
    returns (r: seq<T>)
    requires IsTotalPreorder(cmp)
    ensures sorter.sortingMethod == Foundation ==> r == platform(a)
    ensures sorter.sortingMethod != Foundation ==> |r| == |a| && multiset(r) == multiset(a)
    ensures sorter.sortingMethod != Foundation && !MayFail(sorter.sortingMethod) ==> SortedBetween(cmp, r, 0, |r|)
    ensures sorter.sortingMethod != Foundation && |a| <= QuickSort.M ==> SortedBetween(cmp, r, 0, |r|)
  {
    var err;
    r, err := Sort(sorter, a, 0, |a|, cmp, platform);
  }

  /** `sorted(_:comparator:)` over the whole array under `try!`: the whole
      range is always valid, so only a failed quicksort traps (`Err`), and never
      on an array of at most `QuickSort.M` elements (the empty array included);
      any other result of the engine's own algorithms is the array in ascending
      order. */
  method SortedAll<T(!new)>(sorter: Sorter, a: seq<T>, cmp: (T, T) -> int, platform: seq<T> -> seq<T>)
    returns (res: Result<seq<T>>)
    requires IsTotalPreorder(cmp)
    ensures sorter.sortingMethod == Foundation ==> res == Ok(platform(a))
    ensures res.Err? ==> MayFail(sorter.sortingMethod) && res.error == SortingError
    ensures |a| <= QuickSort.M ==> res.Ok?
    ensures sorter.sortingMethod != Foundation && res.Ok? ==>
              |res.value| == |a| && multiset(res.value) == multiset(a) && SortedBetween(cmp, res.value, 0, |a|)
  {
    var r, err := Sorted(sorter, a, 0, |a|, cmp, platform);
    if err.Some? {
      return Err(err.value);
    }
    res := Ok(r);
  }

  /** Two sorters of the engine given the same range and a comparator that
      ties only equal elements: whenever both succeed, they produce the very
      same array, so the choice of algorithm is invisible to the caller. */
  method SortBoth<T(!new)>(first: Sorter, second: Sorter, a: seq<T>, fromIndex: int, toIndex: int,
                           cmp: (T, T) -> int, platform: seq<T> -> seq<T>)
    returns (r1: seq<T>, err1: Option<SorterError>, r2: seq<T>, err2: Option<SorterError>)
    requires IsTotalPreorder(cmp)
    ensures (&& first.sortingMethod != Foundation && second.sortingMethod != Foundation
             && err1 == None && err2 == None && IsTotalOrder(cmp)) ==> r1 == r2
  {
    r1, err1 := Sort(first, a, fromIndex, toIndex, cmp, platform);
    r2, err2 := Sort(second, a, fromIndex, toIndex, cmp, platform);
    if && first.sortingMethod != Foundation && second.sortingMethod != Foundation
       && err1 == None && err2 == None && IsTotalOrder(cmp) {
      SortedRangeUnique(cmp, a, r1, r2, fromIndex, toIndex);
    }
  }

  /** `select(_:from:comparator:)` over the whole array under `try!`: traps
      unless `pos` is a position of the array, and otherwise returns its
      `pos`-th order statistic, left at `pos` with nothing above it on its
      left and nothing below it on its right. */
  method SelectAll<T(!new)>(pos: int, a: seq<T>, cmp: (T, T) -> int) returns (r: seq<T>, res: Result<T>)
    requires IsTotalPreorder(cmp)
    ensures res.Ok? <==> 0 <= pos < |a|
    ensures res.Ok? ==> |r| == |a| && multiset(r) == multiset(a) && res.value == r[pos]
    ensures res.Ok? ==> IsOrderStatistic(cmp, a, 0, |a|, pos, res.value)
    ensures res.Ok? ==> && (forall k :: 0 <= k < pos ==> cmp(r[k], r[pos]) <= 0)
                        && (forall k :: pos < k < |a| ==> cmp(r[pos], r[k]) <= 0)
  {
    r, res := Selection.Select(pos, a, 0, |a|, cmp);
  }

  /** `median(_:comparator:averager:)` over the whole array under `try!`:
      traps on an empty array; otherwise leaves the array split around its
      middle position and, for an odd length, returns the element there, the
      middle order statistic; for an even length the average of the two
      middle ones. */
  method MedianAll<T(!new)>(a: seq<T>, cmp: (T, T) -> int, averager: (T, T) -> T) returns (r: seq<T>, res: Result<T>)
    requires IsTotalPreorder(cmp)
    ensures res.Ok? <==> |a| > 0
    ensures res.Ok? ==> |r| == |a| && multiset(r) == multiset(a)
    ensures res.Ok? ==> && (forall k :: 0 <= k < |a| / 2 ==> cmp(r[k], r[|a| / 2]) <= 0)
                        && (forall k :: |a| / 2 < k < |a| ==> cmp(r[|a| / 2], r[k]) <= 0)
    ensures |a| % 2 == 1 ==> res == Ok(r[|a| / 2]) && IsOrderStatistic(cmp, a, 0, |a|, |a| / 2, res.value)
    ensures |a| > 0 && |a| % 2 == 0 ==>
              exists v, w :: && res == Ok(averager(v, w))
                             && IsOrderStatistic(cmp, a, 0, |a|, |a| / 2, v)
                             && IsOrderStatistic(cmp, a, 0, |a|, |a| / 2 - 1, w)
  {
    r, res := Selection.Median(a, 0, |a|, cmp, averager);
  }

  /** `[1, 2, 3, 5, 8, 9]` is ascending. */
  lemma ExampleSorted()
    ensures SortedBetween(Compare, [1, 2, 3, 5, 8, 9], 0, 6)
  {
  }

  /** `[1, 2, 3, 5, 8, 9]` is a rearrangement of `[5, 3, 8, 1, 9, 2]`. */
  lemma ExamplePermutes()
    ensures Permutes([5, 3, 8, 1, 9, 2], [1, 2, 3, 5, 8, 9], 0, 6)
  {
    assert multiset([1, 2, 3, 5, 8, 9]) == multiset([5, 3, 8, 1, 9, 2]);
  }

  /** `[1, 2, 3, 5, 8, 9]` holds the elements 5, 3, 8, 1, 9 and 2. */
  lemma ExampleElements()
    ensures multiset([1, 2, 3, 5, 8, 9]) == multiset{5, 3, 8, 1, 9, 2}
  {
  }

  /** Sorting `[5, 3, 8, 1, 9, 2]` in non-decreasing order, the promise of
      `SortComparable`, can only give `[1, 2, 3, 5, 8, 9]`, whichever of the
      engine's algorithms runs. */
  lemma SortExample(r: seq<int>)
    requires multiset(r) == multiset{5, 3, 8, 1, 9, 2}
    requires forall i :: 0 < i < |r| ==> r[i - 1] <= r[i]
    ensures r == [1, 2, 3, 5, 8, 9]
  {
    CompareIsTotalOrder();
    assert |r| == |multiset(r)| == 6;
    forall k | 0 < k < |r| ensures Compare(r[k - 1], r[k]) <= 0 {
    }
    AdjacentSorted(Compare, r, 0, |r|);
    ExampleSorted();
    ExampleElements();
    SortedUnique(Compare, r, [1, 2, 3, 5, 8, 9]);
  }

  /** The order statistics of `[5, 3, 8, 1, 9, 2]` are its elements in
      ascending order: the element of rank `k` is the `k`-th of `[1, 2, 3, 5, 8, 9]`. */
  lemma ExampleRank(k: int, v: int)
    requires 0 <= k < 6
    requires IsOrderStatistic(Compare, [5, 3, 8, 1, 9, 2], 0, 6, k, v)
    ensures v == [1, 2, 3, 5, 8, 9][k]
  {
    CompareIsTotalOrder();
    ExampleSorted();
    ExamplePermutes();
    var sorted := [1, 2, 3, 5, 8, 9];
    SortedOrderStatistic(Compare, sorted, 0, 6, k);
    OrderStatisticPermutes(Compare, [5, 3, 8, 1, 9, 2], sorted, 0, 6, k, sorted[k]);
    OrderStatisticUnique(Compare, [5, 3, 8, 1, 9, 2], 0, 6, k, v, sorted[k]);
  }

  /** On `[5, 3, 8, 1, 9, 2]`, `select` at offset 2 returns 3, and the median
      with the averager `(a + b) / 2` averages ranks 3 and 2, giving 4. */
  lemma SelectExample(v: int, w: int)
    requires IsOrderStatistic(Compare, [5, 3, 8, 1, 9, 2], 0, 6, 2, v)
    requires IsOrderStatistic(Compare, [5, 3, 8, 1, 9, 2], 0, 6, 3, w)
    ensures v == 3 && (w + v) / 2 == 4
  {
    ExampleRank(2, v);
    ExampleRank(3, w);
  }
}
