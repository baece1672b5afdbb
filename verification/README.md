# Sorting and selection engine — a Dafny model

This project models the comparator-driven sorting and selection engine of the
Swift workshop library `swiftProtocolsAndGenerics`. It covers:

- the `Sorter` facade: range validation, `sorted`, the whole-array overloads, the `select` quickselect, `median`, the `create` factory, and the `swap` and `compare` helpers;
- four algorithms: straight insertion, Shell sort with Knuth's 1, 4, 13, 40, … increments, heapsort, and iterative quicksort. Quicksort uses a median-of-three pivot, an insertion cutoff at `M = 7` and an explicit stack of `NStack = 64` slots.

Modelling choices:

- **Arrays are values.** Swift passes `inout [T]` copy-in/copy-out. Each routine is a Dafny method that takes the array `a: seq<T>` and returns it as it stands after the call, together with the thrown error, if any. There is no heap state, so every contract talks about the input and the output directly.
- **Comparator.** The comparator is a `(T, T) -> int` parameter that must be a total preorder (`Ordering.IsTotalPreorder`): swapping the arguments flips the sign, and "goes first or ties" is transitive.
- **Averager.** The `median` averager is an opaque `(T, T) -> T`.
- **Foundation algorithm.** This is the platform's own sort. It is the parameter `platform: seq<T> -> seq<T>` of the facade.
- **Index bases.** Quicksort, Shell sort, heapsort, `select` and `median` keep positions relative to `fromIndex` and add `fromIndex` on every access. Straight insertion uses absolute positions, as the model does. Elsewhere the model uses absolute positions where that is simpler; both address the same elements.

Every algorithm is proved to:

- reject a bad range before writing anything: `illegalIndices` when `fromIndex > toIndex`, then `indexOutOfBounds` when a bound lies outside the array;
- leave an empty range alone;
- on success, permute the range, keep everything outside it, and leave it ascending.

Quicksort is the exception to the last point: it may stop with `sortingError` when its stack overflows. The range is then still a permutation, but carries no ordering promise. A range of at most `M` elements never reaches the stack, so quicksort always sorts it, the empty array included.

Selection and the median are related to an independent reference, `OrderStatistics.IsOrderStatistic`: the element of rank `k` has at most `k` elements of the range strictly below it and more than `k` at or below it. `OrderStatistics.SortedOrderStatistic` shows that this is what a sort puts at offset `k`. Under a total order, `Ordering.SortedRangeUnique` shows the sorted arrangement is unique. That gives idempotence (sorting a sorted range changes nothing). `Sorters.SortBoth` uses it to show that any two of the four algorithms that both succeed produce the same array.

Details of the code:

- **`select` position.** `select`'s `pos` is an offset from `fromIndex`, not an absolute index. The guard is `pos < toIndex - fromIndex`, and the result is `array[pos + fromIndex]`.
- **`siftDown` tie-break.** On a tie between two children, `siftDown` keeps the *first* child. It moves to the second only when the first compares strictly lower.
- **Stability.** Stability is a property of straight insertion only, and it is proved only there.

## Model

| member | source | states |
|---|---|---|
| Ordering.Swap | swiftProtocolsAndGenerics/swiftProtocolsAndGenerics/Sorter.swift:683-687 | the two positions exchange their elements, every other position is kept, and the multiset is unchanged |
| Ordering.Compare | swiftProtocolsAndGenerics/swiftProtocolsAndGenerics/Sorter.swift:696-704 | the result is -1, 0 or 1; negative exactly when the first integer is smaller, zero exactly when they are equal |
| Ordering.CompareIsTotalOrder | swiftProtocolsAndGenerics/swiftProtocolsAndGenerics/Sorter.swift:696-704 | the natural comparison is a legal comparator in which only equal values tie |
| Ordering.ReversedSortsDescending | swiftProtocolsAndGenerics/swiftProtocolsAndGenericsTests/StraightInsertionSorterTests.swift:69-93 | the comparator with its arguments exchanged is legal, and a range ascending under it is exactly a range descending under the original |
| Ordering.SortedRangeUnique | swiftProtocolsAndGenerics/swiftProtocolsAndGenerics/Sorter.swift:62-65 | under a total order, two ascending rearrangements of the same range are identical, so every algorithm that succeeds produces the same array |
| SortErrors.CheckRange | swiftProtocolsAndGenerics/swiftProtocolsAndGenerics/QuicksortSorter.swift:74-79 | no error exactly when `0 <= fromIndex <= toIndex <= count`; `IllegalIndices` exactly when the bounds are reversed; `IndexOutOfBounds` exactly when they are ordered but leave the array; never `SortingError` |
| StraightInsertion.ShiftRight | swiftProtocolsAndGenerics/swiftProtocolsAndGenerics/StraightInsertionSorter.swift:79-88 | the held element lands at `i`; the run after `i` moved up one slot and holds only elements ranking strictly above it; the element before `i` does not rank above it; nothing else moved |
| StraightInsertion.InsertKeepsTies | swiftProtocolsAndGenerics/swiftProtocolsAndGenerics/StraightInsertionSorter.swift:83 | shifting stops at the first element that is not greater, so dropping an element in front of a run of strictly greater elements keeps the order of every class of tied elements |
| StraightInsertion.InsertOne | swiftProtocolsAndGenerics/swiftProtocolsAndGenerics/StraightInsertionSorter.swift:76-90 | one round of the outer loop turns a sorted, tie-preserving permutation of the prefix up to `j` into one up to `j + 1` |
| StraightInsertion.InsertionSortRange | swiftProtocolsAndGenerics/swiftProtocolsAndGenerics/StraightInsertionSorter.swift:76-90 | the range is permuted, ascending, and every class of tied elements keeps its relative order (stability) |
| StraightInsertion.Sort | swiftProtocolsAndGenerics/swiftProtocolsAndGenerics/StraightInsertionSorter.swift:60-91 | the error is the range check's verdict; on error or an empty range the array is unchanged; otherwise the range is a stable ascending permutation and nothing outside it changes |
| Shell.IncrementDown | swiftProtocolsAndGenerics/swiftProtocolsAndGenerics/ShellSorter.swift:98-100 | each increment is larger than the previous one, and integer division by 3 gives back the previous increment |
| Shell.FirstIncrement | swiftProtocolsAndGenerics/swiftProtocolsAndGenerics/ShellSorter.swift:89-95 | the loop stops at the first term of 1, 4, 13, 40, … that exceeds `n`: the result exceeds `n`, is one more than a multiple of 3, and the term before it, `(inc - 1) / 3`, does not exceed `n` |
| Shell.ChainShift | swiftProtocolsAndGenerics/swiftProtocolsAndGenerics/ShellSorter.swift:101-113 | the held element lands at `q` on its chain of stride `h`; chain elements above `q` moved up one stride and rank strictly above it; the chain element before `q` does not; all else is unchanged |
| Shell.HSortPass | swiftProtocolsAndGenerics/swiftProtocolsAndGenerics/ShellSorter.swift:101-114 | one pass permutes the range and leaves it `h`-sorted: every element at least `h` from the start ranks no lower than the one `h` before it |
| Shell.OneSorted | swiftProtocolsAndGenerics/swiftProtocolsAndGenerics/ShellSorter.swift:115 | a range that is 1-sorted, which the last pass guarantees, is ascending |
| Shell.Sort | swiftProtocolsAndGenerics/swiftProtocolsAndGenerics/ShellSorter.swift:72-116 | the error is the range check's verdict; on error or an empty range the array is unchanged; otherwise the range is an ascending permutation and nothing outside it changes |
| Heapsort.ChildrenOf | swiftProtocolsAndGenerics/swiftProtocolsAndGenerics/HeapsortSorter.swift:99 | the nodes whose parent is `p` are exactly offsets `2p + 1` and `2p + 2` |
| Heapsort.RootIsMax | swiftProtocolsAndGenerics/swiftProtocolsAndGenerics/HeapsortSorter.swift:85-88 | no node of a max-heap ranks above its root |
| Heapsort.MaxChild | swiftProtocolsAndGenerics/swiftProtocolsAndGenerics/HeapsortSorter.swift:101-103 | the child picked (the second only when the first ranks strictly below it) ranks at least as high as every child of the node |
| Heapsort.SiftLoop | swiftProtocolsAndGenerics/swiftProtocolsAndGenerics/HeapsortSorter.swift:97-110 | the loop ends with the hole at `jold`; with the held element dropped there, the window is a permutation; the heap condition holds around the hole, and no child of the hole ranks above the held element |
| Heapsort.SiftDown | swiftProtocolsAndGenerics/swiftProtocolsAndGenerics/HeapsortSorter.swift:94-112 | if the subtrees below `l` are heaps within `l .. r`, then afterwards the subtree from `l` is a heap over the same multiset, and nothing outside `l .. r` changed |
| Heapsort.BuildHeap | swiftProtocolsAndGenerics/swiftProtocolsAndGenerics/HeapsortSorter.swift:81-83 | sifting down every inner node from `n/2 - 1` to 0 turns the range into a max-heap over the same elements |
| Heapsort.ExtractStep | swiftProtocolsAndGenerics/swiftProtocolsAndGenerics/HeapsortSorter.swift:85-88 | moving the root of the heap `0 .. i` to `i` and re-heaping extends the sorted tail to `i .. n-1`, and that tail holds the largest elements |
| Heapsort.ExtractRound | swiftProtocolsAndGenerics/swiftProtocolsAndGenerics/HeapsortSorter.swift:85-88 | one extraction round keeps the loop state: a heap in front, an ascending tail behind, nothing in front ranking above the tail, and a permutation of the input range |
| Heapsort.ExtractAll | swiftProtocolsAndGenerics/swiftProtocolsAndGenerics/HeapsortSorter.swift:85-88 | starting from a max-heap, the extraction loop leaves the range as an ascending permutation |
| Heapsort.Sort | swiftProtocolsAndGenerics/swiftProtocolsAndGenerics/HeapsortSorter.swift:61-89 | the error is the range check's verdict; on error or an empty range the array is unchanged; otherwise the range is an ascending permutation and nothing outside it changes |
| Partitioning.CompareExchange | swiftProtocolsAndGenerics/swiftProtocolsAndGenerics/QuicksortSorter.swift:148-151 | the two positions end in order, holding the same two elements; the lower one ranks no higher than either input and the upper one no lower |
| Partitioning.SortSamples | swiftProtocolsAndGenerics/swiftProtocolsAndGenerics/QuicksortSorter.swift:148-161 | the three compare-and-exchange steps leave the three sampled positions ascending, holding the same three elements, with nothing else touched |
| Partitioning.MedianOfThree | swiftProtocolsAndGenerics/swiftProtocolsAndGenerics/QuicksortSorter.swift:144-161 | afterwards `a[l] <= a[l+1] <= a[ir]`, the three hold the elements sampled from `l`, the middle and `ir`, and the old `a[l+1]` moved to the middle |
| Partitioning.ScanUp | swiftProtocolsAndGenerics/swiftProtocolsAndGenerics/QuicksortSorter.swift:171-173 | the scan stops at the first later element that does not rank below the pivot, and never passes a known sentinel |
| Partitioning.ScanDown | swiftProtocolsAndGenerics/swiftProtocolsAndGenerics/QuicksortSorter.swift:174-176 | the scan stops at the first earlier element that does not rank above the pivot, and never passes a known sentinel |
| Partitioning.Crossing | swiftProtocolsAndGenerics/swiftProtocolsAndGenerics/QuicksortSorter.swift:169-189 | when the indices cross, everything before `i` ranks no higher than the pivot and everything after `j` no lower, with `l+1 <= j < i <= ir`; the window is permuted and the pivot is still at `l+1` |
| Partitioning.Partition | swiftProtocolsAndGenerics/swiftProtocolsAndGenerics/QuicksortSorter.swift:144-192 | after the pivot is placed at `j`, the window is permuted, nothing in `l .. i-1` ranks above `a[j]`, and nothing in `j+1 .. ir` ranks below it |
| Quicksort.StackPush | swiftProtocolsAndGenerics/swiftProtocolsAndGenerics/QuicksortSorter.swift:202-210 | writing `lo` and `hi` at `jstack - 1` and `jstack` records one more pending window on the explicit stack |
| Quicksort.StackPop | swiftProtocolsAndGenerics/swiftProtocolsAndGenerics/QuicksortSorter.swift:132-139 | reading `istack[jstack]` and `istack[jstack - 1]` yields the last pending window, and the remaining slots hold the rest |
| Quicksort.InsertionPhase | swiftProtocolsAndGenerics/swiftProtocolsAndGenerics/QuicksortSorter.swift:97-111 | insertion-sorting a short window settles it: the range stays a permutation, and every pair of positions outside the remaining pending windows is in order |
| Quicksort.PartitionPhase | swiftProtocolsAndGenerics/swiftProtocolsAndGenerics/QuicksortSorter.swift:142-192 | partitioning a long window splits it into `l .. j-1` and `i .. ir` with every pair across the split in order, whichever of the two is kept current |
| Quicksort.PopWindow | swiftProtocolsAndGenerics/swiftProtocolsAndGenerics/QuicksortSorter.swift:132-139 | popping yields the last pending window as the new `l .. ir`, and the pending work shrinks by exactly that window |
| Quicksort.PushWindow | swiftProtocolsAndGenerics/swiftProtocolsAndGenerics/QuicksortSorter.swift:200-210 | the larger half is pushed and the smaller half becomes current; the pending work strictly decreases |
| Quicksort.Sort | swiftProtocolsAndGenerics/swiftProtocolsAndGenerics/QuicksortSorter.swift:70-213 | bad ranges are reported before any write; on a valid range the result is a permutation that is either ascending with no error, or tagged `SortingError` after a stack overflow; a range of at most `M = 7` elements is always sorted without error; an empty range is left alone |
| OrderStatistics.SplitIsOrderStatistic | swiftProtocolsAndGenerics/swiftProtocolsAndGenerics/Sorter.swift:282-288 | an element with nothing above it on its left and nothing below it on its right is the order statistic of its own position |
| OrderStatistics.SortedOrderStatistic | swiftProtocolsAndGenerics/swiftProtocolsAndGenerics/Sorter.swift:282-288 | in an ascending range the element at offset `k` has rank `k`: selection agrees with sorting |
| OrderStatistics.OrderStatisticPermutes | swiftProtocolsAndGenerics/swiftProtocolsAndGenerics/Sorter.swift:321-358 | permuting a range does not change which values have which rank, in both directions |
| OrderStatistics.OrderStatisticUnique | swiftProtocolsAndGenerics/swiftProtocolsAndGenerics/Sorter.swift:282-288 | two values with the same rank in the same range tie under the comparator |
| Selection.PartitionCuts | swiftProtocolsAndGenerics/swiftProtocolsAndGenerics/Sorter.swift:331-358 | partitioning the active window keeps the cuts at its ends and adds a cut at every position from `j` to `i`, where a cut means nothing before it ranks above anything after it |
| Selection.CutsGivePlace | swiftProtocolsAndGenerics/swiftProtocolsAndGenerics/Sorter.swift:282-288 | cuts on both sides of a position mean everything before it ranks no higher and everything after it no lower |
| Selection.OrderPair | swiftProtocolsAndGenerics/swiftProtocolsAndGenerics/Sorter.swift:325-328 | a window of two ends in order over the same two elements; a window of one or none is untouched |
| Selection.FinishWindow | swiftProtocolsAndGenerics/swiftProtocolsAndGenerics/Sorter.swift:324-329 | when the window has collapsed to at most two elements, ordering it puts cuts on both sides of `pos` |
| Selection.SelectLoop | swiftProtocolsAndGenerics/swiftProtocolsAndGenerics/Sorter.swift:321-366 | the narrowing loop permutes the range and returns `array[fromIndex + pos]`; for a non-negative `pos`, nothing before that position ranks above the value and nothing after it ranks below |
| Selection.SelectCheck | swiftProtocolsAndGenerics/swiftProtocolsAndGenerics/Sorter.swift:308-319 | the corrected guards: no error exactly when the range is valid and `0 <= pos < toIndex - fromIndex`; `IndexOutOfBounds` exactly as the range check says; otherwise `IllegalIndices` |
| Selection.SelectCheckAsWritten | swiftProtocolsAndGenerics/swiftProtocolsAndGenerics/Sorter.swift:308-319 | the guards as written accept exactly a valid range with `pos < toIndex - fromIndex`, so every negative `pos` they accept is one the corrected guards reject |
| Selection.SelectAsWritten | swiftProtocolsAndGenerics/swiftProtocolsAndGenerics/Sorter.swift:305-367 | with the guards as written, a negative `pos` is accepted: the call returns `array[fromIndex + pos]`, an element before the range, or traps on the final subscript when `fromIndex + pos < 0`; a non-negative `pos` gives `Select`'s result and split |
| Selection.NegativePositionEscapes | swiftProtocolsAndGenerics/swiftProtocolsAndGenerics/Sorter.swift:317-319 | on `[5, 3, 4]` with range `1 ..< 3` and `pos = -1`, the written guards accept, the corrected ones reject, and the returned element is not in the range |
| Selection.Select | swiftProtocolsAndGenerics/swiftProtocolsAndGenerics/Sorter.swift:305-367 | bad arguments leave the array unchanged and report the corrected guards' error; otherwise the range is permuted, the result is `array[fromIndex + pos]`, it is the rank-`pos` order statistic of the input range, and it splits the range |
| Selection.MaxOfPrefix | swiftProtocolsAndGenerics/swiftProtocolsAndGenerics/Sorter.swift:563-569 | the loop returns an element of the prefix that no prefix element ranks above, namely the first such element |
| Selection.MaxBelowSelected | swiftProtocolsAndGenerics/swiftProtocolsAndGenerics/Sorter.swift:556-569 | after rank `m` has been selected, the maximum of the `m` positions before it is the rank `m - 1` order statistic |
| Selection.Median | swiftProtocolsAndGenerics/swiftProtocolsAndGenerics/Sorter.swift:537-576 | range errors first, then `IllegalIndices` for an empty range, through `select`; the range is permuted and split around offset `n/2`; for an odd length the result is the element left there and has rank `n/2`; for an even length it is `averager(v1, v2)`, where `v1` has rank `n/2` and `v2` has rank `n/2 - 1` and is the first maximum of the lower half |
| Sorters.Create | swiftProtocolsAndGenerics/swiftProtocolsAndGenerics/Sorter.swift:656-670 | the sorter reports the algorithm it was created with |
| Sorters.CreateDefault | swiftProtocolsAndGenerics/swiftProtocolsAndGenerics/Sorter.swift:24 | `create()` yields a quicksort sorter |
| Sorters.Sort | swiftProtocolsAndGenerics/swiftProtocolsAndGenerics/Sorter.swift:62-65 | dispatch: the Foundation algorithm returns whatever the platform produces; the others report the range error with the array unchanged, or permute the range and either sort it or (quicksort only) report `SortingError`; a range of at most `M = 7` elements never fails; under a total order, sorting a sorted range changes nothing |
| Sorters.SortComparable | swiftProtocolsAndGenerics/swiftProtocolsAndGenerics/Sorter.swift:102-108 | sorting integers through `compare` leaves the range in non-decreasing numeric order, as a permutation, with range errors as for `Sort`; on a valid range the only possible error is quicksort's `SortingError`, never on at most `M = 7` elements |
| Sorters.Sorted | swiftProtocolsAndGenerics/swiftProtocolsAndGenerics/Sorter.swift:174-186 | `sorted` sorts a copy: the caller's array is a separate value, and the copy obeys `Sort`'s contract, including success on at most `M = 7` elements |
| Sorters.SortAll | swiftProtocolsAndGenerics/swiftProtocolsAndGenerics/Sorter.swift:122-127 | discarding the error, the whole-array sort always returns a rearrangement of the array; it is ascending for every algorithm that cannot fail, and for every array of at most `M = 7` elements |
| Sorters.SortedAll | swiftProtocolsAndGenerics/swiftProtocolsAndGenerics/Sorter.swift:243-248 | under `try!` only a failed quicksort traps, and never on an array of at most `M = 7` elements (the empty array included); any other outcome is an ascending rearrangement of the whole array |
| Sorters.SortBoth | swiftProtocolsAndGenerics/swiftProtocolsAndGenerics/Sorter.swift:62-65 | under a total order, two of the engine's algorithms run on the same range produce the same array whenever both succeed |
| Sorters.SelectAll | swiftProtocolsAndGenerics/swiftProtocolsAndGenerics/Sorter.swift:460-465 | the whole-array `select` succeeds exactly when `0 <= pos < count`, and then returns the rank-`pos` element of the array, left at `pos` with nothing above it before and nothing below it after |
| Sorters.MedianAll | swiftProtocolsAndGenerics/swiftProtocolsAndGenerics/Sorter.swift:628-633 | the whole-array median succeeds exactly on a non-empty array and leaves it split around `count/2`; for an odd length it is the element left there, the middle order statistic; for an even length, the average of ranks `n/2` and `n/2 - 1` |
| Sorters.SortExample | swiftProtocolsAndGenerics/swiftProtocolsAndGenericsTests/SorterTests.swift:65-69 | the only non-decreasing arrangement of the elements of `[5, 3, 8, 1, 9, 2]`, which `SortComparable` produces on success, is `[1, 2, 3, 5, 8, 9]` |
| Sorters.ExampleRank | swiftProtocolsAndGenerics/swiftProtocolsAndGenericsTests/SorterTests.swift:931 | the element of rank `k` of `[5, 3, 8, 1, 9, 2]` is the `k`-th of `[1, 2, 3, 5, 8, 9]` |
| Sorters.SelectExample | swiftProtocolsAndGenerics/swiftProtocolsAndGenericsTests/SorterTests.swift:1233-1242 | on that array, rank 2 is 3, and the median with the averager `(a + b) / 2` is 4 |

## Left out

- The Foundation algorithm's body (FoundationSorter.swift) is the platform's `Array.sort`. It ignores the range and the comparator and relies on a runtime `as? Int` cast. It is a foreign call, so here it is the opaque `platform` function, with no contract.
- The comparator protocols (Comparator.swift, ComparatorAndAverager.swift) and the overloads that only forward a protocol object or a Comparable element type are not modelled. The comparator and the averager are function parameters. `Sorters.SortComparable` stands for the Comparable forwarding on integers.
- Container.swift is a value holder with no logic and is not part of this model.
- Averager arithmetic is not modelled: the averager is opaque.
- Swift's fixed-width `Int` and the `>> 1` midpoint are not modelled. Indices are unbounded integers, and `>> 1` is division by 2 on non-negative values. The arrays a program can allocate keep every index far from overflow.
- Quicksort.Sort: the model does not prove that 64 stack slots always suffice for ranges longer than `M = 7`. For those ranges `SortingError` stays a possible outcome, with only the permutation promised. Whether overflow can happen for them is not decided here. Ranges of at most `M` elements are proved never to fail.
- Sorters.SortAll: when quicksort's error is discarded on an array longer than `M = 7`, only the permutation is promised, not the order. This follows from the `Quicksort.Sort` line above.
- Selection.SelectAsWritten: after a trap the program stops, so the array the loop had already rearranged is not modelled; `r` is then left as the input.
- Stability is proved for straight insertion only; the other algorithms are not stable.
- Running time, complexity claims and the randomised inputs of the tests are not modelled.

## Findings

| source | as written | input that shows it | evidently intended | confidence | as-written member | corrected member |
|---|---|---|---|---|---|---|
| swiftProtocolsAndGenerics/swiftProtocolsAndGenerics/Sorter.swift:317-319 | `select` guards only `pos < toIndex - fromIndex`; a negative `pos` passes and the call returns `array[pos + fromIndex]`, or traps when that index is negative | `array = [5, 3, 4]`, `fromIndex = 1`, `toIndex = 3`, `pos = -1` returns `5`, which is outside the range | reject `pos < 0` with `illegalIndices`, like every other position outside the range | not executed | Selection.SelectAsWritten | Selection.Select |
