/**
 Heapsort (HeapsortSorter). The range is laid out as a binary max-heap whose
 node at offset `x` from the start of the range has its children at offsets
 `2x + 1` and `2x + 2`. The heap is built by sifting down every inner node
 from the last one to the root; then the root (the maximum) is repeatedly
 exchanged with the last element of the shrinking heap and the new root is
 sifted down.

 Positions here are absolute indices into the array; `base` is the first
 position of the range (the `fromIndex` the source adds to every offset).
 */
module Heapsort {
  import opened Ordering
  import opened SortErrors

  /** The parent of the heap node at position `x`. */
  function Parent(base: int, x: int): (p: int)
    requires base < x
    ensures base <= p < x
  {
    base + (x - base - 1) / 2
  }

  /** The first child of the heap node at position `x` (offset `2x + 1`). */
  function LeftChild(base: int, x: int): (c: int)
    requires base <= x
    ensures c > x
  {
    base + 2 * (x - base) + 1
  }

  /** A node's children are exactly its first child and the position after it. */
  lemma ChildrenOf(base: int, p: int, x: int)
    requires base <= p < x
    ensures Parent(base, x) == p <==> x == LeftChild(base, p) || x == LeftChild(base, p) + 1
  {
  }

  /** Every node in `base + 1 .. e` whose parent is at or after `i` ranks no
      higher than its parent: the heap condition for all nodes from `i` on. */
  ghost predicate HeapFrom<T>(cmp: (T, T) -> int, s: seq<T>, base: int, i: int, e: int)
    requires 0 <= base && e < |s|
  {
    forall x {:trigger Parent(base, x)} :: base < x <= e && Parent(base, x) >= i ==> cmp(s[x], s[Parent(base, x)]) <= 0
  }

  /** Nodes in the second half of the heap have no children, so the heap
      condition holds from there on for any contents. */
  lemma LeavesAreHeaps<T>(cmp: (T, T) -> int, s: seq<T>, base: int, e: int)
    requires 0 <= base <= e < |s|
    ensures HeapFrom(cmp, s, base, base + (e - base + 1) / 2, e)
  {
  }

  /** The root of a heap ranks at least as high as every node of it. */
  lemma {:induction false} RootIsMax<T(!new)>(cmp: (T, T) -> int, s: seq<T>, base: int, e: int, x: int)
    requires IsTotalPreorder(cmp)
    requires 0 <= base <= x <= e < |s|
    requires HeapFrom(cmp, s, base, base, e)
    ensures cmp(s[x], s[base]) <= 0
    decreases x
  {
    if x == base {
      PreorderFacts(cmp, s[x], s[x], s[x]);
    } else {
      var p := Parent(base, x);
      RootIsMax(cmp, s, base, e, p);
      Trans(cmp, s[x], s[p], s[base]);
    }
  }

  /** The loop state of `siftDown`: the value `a` taken from `l` is held aside
      and `hole` is the node it would occupy. Every parent/child pair under `l`
      is in heap order except those whose parent is the hole; the hole's parent
      dominates both the hole's children and `a`. */
  ghost predicate HoleHeap<T>(cmp: (T, T) -> int, r: seq<T>, base: int, l: int, e: int, hole: int, a: T)
    requires 0 <= base <= l <= hole <= e < |r|
  {
    && (forall x {:trigger Parent(base, x)} :: base < x <= e && Parent(base, x) >= l && Parent(base, x) != hole ==> cmp(r[x], r[Parent(base, x)]) <= 0)
    && (hole > l ==> Parent(base, hole) >= l)
    && (hole > l ==> forall x :: hole < x <= e && Parent(base, x) == hole ==> cmp(r[x], r[Parent(base, hole)]) <= 0)
    && (hole > l ==> cmp(a, r[Parent(base, hole)]) <= 0)
  }

  /** Everything the sift loop keeps: `r` with `a` dropped into the hole is
      a rearrangement of `s` that changed nothing outside `l .. e`, and the
      heap condition holds under `l` around the hole. */
  ghost predicate SiftState<T>(cmp: (T, T) -> int, s: seq<T>, r: seq<T>, base: int, l: int, e: int, hole: int, a: T)
    requires 0 <= base <= l <= hole <= e < |s|
  {
    && |r| == |s|
    && multiset(r[hole := a]) == multiset(s)
    && (forall k :: 0 <= k < |s| && !(l <= k <= e) ==> r[k] == s[k])
    && HoleHeap(cmp, r, base, l, e, hole, a)
  }

  /** The child `j` the source picks (the second child when the first ranks
      strictly lower) ranks at least as high as every child of `hole`. */
  lemma MaxChild<T(!new)>(cmp: (T, T) -> int, r: seq<T>, base: int, hole: int, e: int, j: int)
    requires IsTotalPreorder(cmp)
    requires 0 <= base <= hole && LeftChild(base, hole) <= e < |r|
    requires || (j == LeftChild(base, hole) && (j < e ==> cmp(r[j], r[j + 1]) >= 0))
             || (j == LeftChild(base, hole) + 1 && j <= e && cmp(r[j - 1], r[j]) < 0)
    ensures forall x :: hole < x <= e && Parent(base, x) == hole ==> cmp(r[x], r[j]) <= 0
  {
    forall x | hole < x <= e && Parent(base, x) == hole
      ensures cmp(r[x], r[j]) <= 0
    {
      ChildrenOf(base, hole, x);
      PreorderFacts(cmp, r[x], r[j], r[j]);
    }
  }

  /** One step of the sift: the chosen child `j`, which outranks `a`, moves up
      into the hole and the hole moves down to `j`. */
  lemma SiftStep<T(!new)>(cmp: (T, T) -> int, s: seq<T>, r: seq<T>, base: int, l: int, e: int, hole: int, j: int, a: T, r2: seq<T>)
    requires IsTotalPreorder(cmp)
    requires 0 <= base <= l <= hole < j <= e < |s|
    requires Parent(base, j) == hole
    requires SiftState(cmp, s, r, base, l, e, hole, a)
    requires forall x :: hole < x <= e && Parent(base, x) == hole ==> cmp(r[x], r[j]) <= 0
    requires cmp(a, r[j]) < 0
    requires r2 == r[hole := r[j]]
    ensures SiftState(cmp, s, r2, base, l, e, j, a)
  {
    HoleMove(r, j, hole, a);
    forall x | base < x <= e && Parent(base, x) >= l && Parent(base, x) != j
      ensures cmp(r2[x], r2[Parent(base, x)]) <= 0
    {
      var p := Parent(base, x);
      if x == hole {
        assert r2[p] == r[p];
      } else if p == hole {
        assert r2[x] == r[x];
      } else {
        assert r2[x] == r[x] && r2[p] == r[p];
      }
    }
    forall x | j < x <= e && Parent(base, x) == j
      ensures cmp(r2[x], r2[Parent(base, j)]) <= 0
    {
      assert r2[x] == r[x];
    }
  }

  /** Dropping `a` into the hole once it outranks the hole's children leaves
      the heap condition holding from `l` on. */
  lemma SiftFinish<T(!new)>(cmp: (T, T) -> int, s: seq<T>, r: seq<T>, base: int, l: int, e: int, hole: int, a: T, r2: seq<T>)
    requires IsTotalPreorder(cmp)
    requires 0 <= base <= l <= hole <= e < |r| == |s|
    requires HoleHeap(cmp, r, base, l, e, hole, a)
    requires forall x :: hole < x <= e && Parent(base, x) == hole ==> cmp(r[x], a) <= 0
    requires r2 == r[hole := a]
    ensures HeapFrom(cmp, r2, base, l, e)
  {
    forall x | base < x <= e && Parent(base, x) >= l
      ensures cmp(r2[x], r2[Parent(base, x)]) <= 0
    {
      var p := Parent(base, x);
      if x == hole {
        assert r2[p] == r[p];
      } else if p == hole {
        assert r2[x] == r[x];
      } else {
        assert r2[x] == r[x] && r2[p] == r[p];
      }
    }
  }

  /** The loop of HeapsortSorter.siftDown: the hole left by `a = s[l]` moves
      down, each time to the higher-ranking child, while that child outranks
      `a`. It ends at a node whose children (within `e`) all rank no higher
      than `a`. */
  method SiftLoop<T(!new)>(s: seq<T>, base: int, l: int, e: int, cmp: (T, T) -> int) returns (r: seq<T>, jold: int)
    requires IsTotalPreorder(cmp)
    requires 0 <= base <= l <= e < |s|
    requires HeapFrom(cmp, s, base, l + 1, e)
    ensures l <= jold <= e && SiftState(cmp, s, r, base, l, e, jold, s[l])
    ensures forall x :: jold < x <= e && Parent(base, x) == jold ==> cmp(r[x], s[l]) <= 0
  {
    r := s;
    var a := r[l];
    jold := l;
    var j := LeftChild(base, l);
    while j <= e
      invariant l <= jold <= e && j == LeftChild(base, jold)
      invariant SiftState(cmp, s, r, base, l, e, jold, a)
      decreases e - jold
    {
      if j < e && cmp(r[j], r[j + 1]) < 0 {
        j := j + 1;
      }
      MaxChild(cmp, r, base, jold, e, j);
      if cmp(a, r[j]) >= 0 {
        ChildrenBelow(cmp, r, base, jold, e, r[j], a);
        return;
      }
      ChildrenOf(base, jold, j);
      SiftStep(cmp, s, r, base, l, e, jold, j, a, r[jold := r[j]]);
      r := r[jold := r[j]];
      jold := j;
      j := LeftChild(base, j);
    }
    Childless(base, jold, e);
  }

  /** When the highest-ranking child `m` of `hole` ranks no higher than `a`,
      neither does any child. */
  lemma ChildrenBelow<T(!new)>(cmp: (T, T) -> int, r: seq<T>, base: int, hole: int, e: int, m: T, a: T)
    requires IsTotalPreorder(cmp)
    requires 0 <= base <= hole && e < |r|
    requires forall x :: hole < x <= e && Parent(base, x) == hole ==> cmp(r[x], m) <= 0
    requires cmp(m, a) <= 0
    ensures forall x :: hole < x <= e && Parent(base, x) == hole ==> cmp(r[x], a) <= 0
  {
    forall x | hole < x <= e && Parent(base, x) == hole
      ensures cmp(r[x], a) <= 0
    {
      Trans(cmp, r[x], m, a);
    }
  }

  /** A node whose first child lies past `e` has no children up to `e`. */
  lemma Childless(base: int, hole: int, e: int)
    requires base <= hole && LeftChild(base, hole) > e
    ensures forall x :: hole < x <= e ==> Parent(base, x) != hole
  {
    forall x | hole < x <= e
      ensures Parent(base, x) != hole
    {
      ChildrenOf(base, hole, x);
    }
  }

  /** HeapsortSorter.siftDown: restores the heap condition from node `l` on,
      given that it holds below `l`, within the heap ending at position `e`. */
  method SiftDown<T(!new)>(s: seq<T>, base: int, l: int, e: int, cmp: (T, T) -> int) returns (r: seq<T>)
    requires IsTotalPreorder(cmp)
    requires 0 <= base <= l <= e < |s|
    requires HeapFrom(cmp, s, base, l + 1, e)
    ensures Permutes(s, r, l, e + 1)
    ensures HeapFrom(cmp, r, base, l, e)
  {
    var jold;
    r, jold := SiftLoop(s, base, l, e, cmp);
    SiftFinish(cmp, s, r, base, l, e, jold, s[l], r[jold := s[l]]);
    r := r[jold := s[l]];
  }

  /** Exchanging the root with the last heap node keeps the heap condition
      below the root of the shortened heap. */
  lemma SwapKeepsLowerHeap<T>(cmp: (T, T) -> int, r: seq<T>, base: int, i: int)
    requires 0 <= base < i < |r|
    requires HeapFrom(cmp, r, base, base, i)
    ensures HeapFrom(cmp, Swap(r, base, i), base, base + 1, i - 1)
  {
    var r1 := Swap(r, base, i);
    forall x | base < x <= i - 1 && Parent(base, x) >= base + 1
      ensures cmp(r1[x], r1[Parent(base, x)]) <= 0
    {
      assert r1[x] == r[x] && r1[Parent(base, x)] == r[Parent(base, x)];
    }
  }

  /** One round of the extraction loop: the maximum of the heap `base .. i`
      joins the sorted tail, which stays above everything left in the heap. */
  lemma ExtractStep<T(!new)>(cmp: (T, T) -> int, r: seq<T>, base: int, i: int, hi: int, r2: seq<T>)
    requires IsTotalPreorder(cmp)
    requires 0 <= base < i < hi <= |r|
    requires HeapFrom(cmp, r, base, base, i)
    requires SortedBetween(cmp, r, i + 1, hi)
    requires forall x, y :: base <= x <= i < y < hi ==> cmp(r[x], r[y]) <= 0
    requires Permutes(Swap(r, base, i), r2, base, i)
    ensures Permutes(r, r2, base, hi)
    ensures SortedBetween(cmp, r2, i, hi)
    ensures forall x, y :: base <= x <= i - 1 < y < hi ==> cmp(r2[x], r2[y]) <= 0
  {
    var r1 := Swap(r, base, i);
    forall y | i <= y < hi
      ensures forall x :: base <= x < i ==> cmp(r2[x], r2[y]) <= 0
    {
      forall k | base <= k < i
        ensures cmp(r1[k], r1[y]) <= 0
      {
        var k' := if k == base then i else k;
        assert r1[k] == r[k'];
        if y == i {
          RootIsMax(cmp, r, base, i, k');
        }
      }
      ElementsTransfer(r1, r2, base, i, t => cmp(t, r1[y]) <= 0);
    }
    forall p, q | i <= p < q < hi
      ensures cmp(r2[p], r2[q]) <= 0
    {
      if p == i {
        assert r2[p] == r[base] && r2[q] == r[q];
      } else {
        assert r2[p] == r[p] && r2[q] == r[q];
      }
    }
  }

  /** The first loop of HeapsortSorter.sort: sifts down every inner node,
      from the last one back to the root, turning the range into a heap. */
  method BuildHeap<T(!new)>(s: seq<T>, lo: int, hi: int, cmp: (T, T) -> int) returns (r: seq<T>)
    requires IsTotalPreorder(cmp)
    requires 0 <= lo < hi <= |s|
    ensures Permutes(s, r, lo, hi)
    ensures HeapFrom(cmp, r, lo, lo, hi - 1)
  {
    r := s;
    var n := hi - lo;
    LeavesAreHeaps(cmp, r, lo, n - 1 + lo);
    var i := n / 2 - 1;
    while i >= 0
      invariant -1 <= i <= n / 2 - 1
      invariant Permutes(s, r, lo, hi)
      invariant HeapFrom(cmp, r, lo, lo + i + 1, n - 1 + lo)
    {
      ghost var r0 := r;
      r := SiftDown(r, lo, i + lo, n - 1 + lo, cmp);
      PermutesWiden(r0, r, i + lo, n + lo, lo, hi);
      PermutesTrans(s, r0, r, lo, hi);
      i := i - 1;
    }
  }

  /** The state of the extraction loop with the heap ending at `e`: a
      rearrangement of the range of `s` whose heap `lo .. e` is followed by a
      sorted tail that ranks no lower than anything in the heap. */
  ghost predicate ExtractState<T>(cmp: (T, T) -> int, s: seq<T>, r: seq<T>, lo: int, hi: int, e: int)
    requires 0 <= lo <= e < hi <= |s|
  {
    && Permutes(s, r, lo, hi)
    && HeapFrom(cmp, r, lo, lo, e)
    && SortedBetween(cmp, r, e + 1, hi)
    && (forall x, y :: lo <= x <= e < y < hi ==> cmp(r[x], r[y]) <= 0)
  }

  /** A round of extraction, once the new root has been sifted down, moves
      the state from the heap ending at `e` to the one ending at `e - 1`. */
  lemma ExtractRound<T(!new)>(cmp: (T, T) -> int, s: seq<T>, r0: seq<T>, r: seq<T>, lo: int, hi: int, e: int)
    requires IsTotalPreorder(cmp)
    requires 0 <= lo < e < hi <= |s|
    requires ExtractState(cmp, s, r0, lo, hi, e)
    requires Permutes(Swap(r0, lo, e), r, lo, e)
    requires HeapFrom(cmp, r, lo, lo, e - 1)
    ensures ExtractState(cmp, s, r, lo, hi, e - 1)
  {
    ExtractStep(cmp, r0, lo, e, hi, r);
    PermutesTrans(s, r0, r, lo, hi);
  }

  /** With the heap down to its root, the whole range is sorted. */
  lemma ExtractDone<T>(cmp: (T, T) -> int, s: seq<T>, r: seq<T>, lo: int, hi: int)
    requires 0 <= lo < hi <= |s|
    requires ExtractState(cmp, s, r, lo, hi, lo)
    ensures SortedBetween(cmp, r, lo, hi)
  {
    assert forall y :: lo < y < hi ==> cmp(r[lo], r[y]) <= 0;
  }

  /** The second loop of HeapsortSorter.sort: moves the root of the heap
      `lo .. lo+i` behind it and sifts the new root down, until the whole
      range is sorted. */
  method ExtractAll<T(!new)>(s: seq<T>, lo: int, hi: int, cmp: (T, T) -> int) returns (r: seq<T>)
    requires IsTotalPreorder(cmp)
    requires 0 <= lo < hi <= |s|
    requires HeapFrom(cmp, s, lo, lo, hi - 1)
    ensures Permutes(s, r, lo, hi)
    ensures SortedBetween(cmp, r, lo, hi)
  {
    r := s;
    var n := hi - lo;
    var i := n - 1;
    while i > 0
      invariant 0 <= i <= n - 1
      invariant ExtractState(cmp, s, r, lo, hi, i + lo)
    {
      ghost var r0 := r;
      SwapKeepsLowerHeap(cmp, r, lo, i + lo);
      r := Swap(r, lo, i + lo);
      r := SiftDown(r, lo, lo, i - 1 + lo, cmp);
      ExtractRound(cmp, s, r0, r, lo, hi, i + lo);
      i := i - 1;
    }
    ExtractDone(cmp, s, r, lo, hi);
  }

  /** HeapsortSorter.sort: validates the range, leaves an empty range alone,
      builds a heap over it and extracts the maxima into a sorted tail. */
  method Sort<T(!new)>(a: seq<T>, fromIndex: int, toIndex: int, cmp: (T, T) -> int)
    returns (r: seq<T>, err: Option<SorterError>)
    requires IsTotalPreorder(cmp)
    ensures err == CheckRange(|a|, fromIndex, toIndex)
    ensures err.Some? || fromIndex == toIndex ==> r == a
    ensures err.None? ==> Permutes(a, r, fromIndex, toIndex) && SortedBetween(cmp, r, fromIndex, toIndex)
  {
    err := CheckRange(|a|, fromIndex, toIndex);
    r := a;
    if err.Some? || fromIndex == toIndex {
      return;
    }
    r := BuildHeap(a, fromIndex, toIndex, cmp);
    var r0 := r;
    r := ExtractAll(r, fromIndex, toIndex, cmp);
    PermutesTrans(a, r0, r, fromIndex, toIndex);
  }
}
