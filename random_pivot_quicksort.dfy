/** Quicksort with a randomly chosen pivot and a single left-to-right
    partition scan (Lomuto style), sorting an integer array in place. The
    random number generator is replaced by an arbitrary choice of index in the
    range. */
module RandomPivotQuickSort {
  import opened SortedSeqs

  /** Exchanges positions `index1` and `index2`; nothing else changes. */
  method SwapElements(a: array<int>, index1: int, index2: int)
    requires 0 <= index1 < a.Length && 0 <= index2 < a.Length
    modifies a
    ensures a[..] == old(a[..])[index1 := old(a[index2])][index2 := old(a[index1])]
    ensures multiset(a[..]) == old(multiset(a[..]))
  {
    var temp := a[index1];
    a[index1] := a[index2];
    a[index2] := temp;
  }

  /** Some index between `low` and `high`, both included. Any such index may
      be returned: the pivot choice is modelled as an arbitrary pick. */
  method GetPivot(low: int, high: int) returns (pivot: int)
    requires low <= high
    ensures low <= pivot <= high
  {
    pivot :| low <= pivot <= high;
  }

  /** Positions `lo .. hi - 1` of `t` hold values at most `x`. */
  ghost predicate AtMost(t: seq<int>, lo: int, hi: int, x: int)
  {
    forall k :: lo <= k < hi && 0 <= k < |t| ==> t[k] <= x
  }

  /** Positions `lo .. hi - 1` of `t` hold values greater than `x`. */
  ghost predicate Above(t: seq<int>, lo: int, hi: int, x: int)
  {
    forall k :: lo <= k < hi && 0 <= k < |t| ==> t[k] > x
  }

  /** One partition pass over `a[startIndex..endIndex]`: the pivot is parked
      at `endIndex`, the scan moves every element at most the pivot to the
      front, and the pivot is then swapped to the boundary, whose index is
      returned. */
  method Partition(a: array<int>, startIndex: int, endIndex: int) returns (pivotIndex: int)
    requires 0 <= startIndex < endIndex < a.Length
    modifies a
    ensures startIndex <= pivotIndex <= endIndex
    ensures AtMost(a[..], startIndex, pivotIndex, a[pivotIndex])
    ensures Above(a[..], pivotIndex + 1, endIndex + 1, a[pivotIndex])
    ensures SameOutside(old(a[..]), a[..], startIndex, endIndex + 1)
    ensures multiset(a[..]) == old(multiset(a[..]))
  {
    ghost var original := a[..];
    pivotIndex := GetPivot(startIndex, endIndex);
    SwapElements(a, pivotIndex, endIndex);
    SwapInside(original, a[..], startIndex, endIndex + 1, pivotIndex, endIndex);
    pivotIndex := endIndex;
    var nextSwapIndex := startIndex;
    for currentIndex := startIndex to endIndex
      invariant startIndex <= nextSwapIndex <= currentIndex
      invariant AtMost(a[..], startIndex, nextSwapIndex, a[endIndex])
      invariant Above(a[..], nextSwapIndex, currentIndex, a[endIndex])
      invariant SameOutside(original, a[..], startIndex, endIndex + 1)
      invariant multiset(a[..]) == multiset(original)
    {
      if a[currentIndex] <= a[pivotIndex] {
        ghost var before := a[..];
        SwapElements(a, currentIndex, nextSwapIndex);
        PartitionStep(original, before, a[..], startIndex, nextSwapIndex, currentIndex, endIndex);
        nextSwapIndex := nextSwapIndex + 1;
      }
    }
    ghost var scanned := a[..];
    SwapElements(a, nextSwapIndex, pivotIndex);
    PartitionEnd(original, scanned, a[..], startIndex, nextSwapIndex, endIndex);
    pivotIndex := nextSwapIndex;
  }

  /** Exchanging two positions inside a range keeps agreement outside it. */
  lemma {:induction false} SwapInside(original: seq<int>, after: seq<int>, lo: int, hi: int, i: int, j: int)
    requires 0 <= lo <= i < hi <= |original| && lo <= j < hi
    requires after == original[i := original[j]][j := original[i]]
    ensures SameOutside(original, after, lo, hi)
  {
  }

  /** A step of the scan that swaps the current element, at most the pivot,
      to the end of the front region keeps the scan's invariant. */
  lemma {:induction false} PartitionStep(original: seq<int>, before: seq<int>, after: seq<int>,
                                         s: int, next: int, current: int, e: int)
    requires 0 <= s <= next <= current < e < |before|
    requires AtMost(before, s, next, before[e]) && Above(before, next, current, before[e])
    requires before[current] <= before[e]
    requires SameOutside(original, before, s, e + 1)
    requires after == before[current := before[next]][next := before[current]]
    ensures AtMost(after, s, next + 1, after[e]) && Above(after, next + 1, current + 1, after[e])
    ensures SameOutside(original, after, s, e + 1)
  {
    SwapInside(before, after, s, e + 1, current, next);
    SameOutsideTrans(original, before, after, s, e + 1);
  }

  /** The closing swap puts the pivot between the two regions of the scan. */
  lemma {:induction false} PartitionEnd(original: seq<int>, before: seq<int>, after: seq<int>, s: int, next: int, e: int)
    requires 0 <= s <= next <= e < |before|
    requires AtMost(before, s, next, before[e]) && Above(before, next, e, before[e])
    requires SameOutside(original, before, s, e + 1)
    requires after == before[next := before[e]][e := before[next]]
    ensures AtMost(after, s, next, after[next]) && Above(after, next + 1, e + 1, after[next])
    ensures SameOutside(original, after, s, e + 1)
  {
    SwapInside(before, after, s, e + 1, next, e);
    SameOutsideTrans(original, before, after, s, e + 1);
  }

  /** Sorts `a[startIndex..endIndex]` in place: partition, then recurse on
      the two sides of the pivot. A range of at most one element is left
      alone. */
  method QuickSort(a: array<int>, startIndex: int, endIndex: int)
    requires 0 <= startIndex <= endIndex + 1 <= a.Length
    modifies a
    ensures SortsRange(old(a[..]), a[..], startIndex, endIndex + 1)
    decreases endIndex - startIndex
  {
    if startIndex >= endIndex {
      return;
    } else if startIndex < endIndex + 1 {
      ghost var original := a[..];
      var pivotIndex := Partition(a, startIndex, endIndex);
      ghost var partitioned := a[..];
      QuickSort(a, startIndex, pivotIndex - 1);
      ghost var leftSorted := a[..];
      QuickSort(a, pivotIndex + 1, endIndex);
      SortAfterPartition(original, partitioned, leftSorted, a[..], startIndex, pivotIndex - 1, pivotIndex, endIndex);
    }
  }

  /** The two recursive calls of QuickSort, after a partition, leave the whole
      range sorted and permuted. The first call sorts `s .. leftEnd`, the
      part before the pivot at `p`. */
  lemma {:induction false} SortAfterPartition(original: seq<int>, partitioned: seq<int>, leftSorted: seq<int>,
                                              result: seq<int>, s: int, leftEnd: int, p: int, e: int)
    requires 0 <= s <= p <= e < |original| && leftEnd == p - 1
    requires SameOutside(original, partitioned, s, e + 1) && multiset(partitioned) == multiset(original)
    requires AtMost(partitioned, s, p, partitioned[p])
    requires Above(partitioned, p + 1, e + 1, partitioned[p])
    requires SortsRange(partitioned, leftSorted, s, leftEnd + 1)
    requires SortsRange(leftSorted, result, p + 1, e + 1)
    ensures SortsRange(original, result, s, e + 1)
  {
    SameOutsideTrans(original, partitioned, leftSorted, s, e + 1);
    SameOutsideTrans(original, leftSorted, result, s, e + 1);
    LeftOfPivot(partitioned, leftSorted, result, s, p, e);
    RightOfPivot(partitioned, leftSorted, result, s, p, e);
    JoinSorted(result, s, p, p + 1, e, partitioned[p]);
  }

  /** After both recursive calls, nothing up to the pivot's position exceeds the pivot. */
  lemma {:induction false} LeftOfPivot(partitioned: seq<int>, leftSorted: seq<int>, result: seq<int>, s: int, p: int, e: int)
    requires 0 <= s <= p <= e < |partitioned|
    requires AtMost(partitioned, s, p, partitioned[p])
    requires SortsRange(partitioned, leftSorted, s, p)
    requires SameOutside(leftSorted, result, p + 1, e + 1)
    ensures forall k :: s <= k < p + 1 && 0 <= k < |result| ==> result[k] <= partitioned[p]
  {
    RangeMultiset(partitioned, leftSorted, s, p);
    assert AllLe(partitioned[s..p], partitioned[p]);
    AllLePermutation(partitioned[s..p], leftSorted[s..p], partitioned[p]);
    forall k | s <= k < p + 1 && 0 <= k < |result| ensures result[k] <= partitioned[p] {
      if k < p {
        assert result[k] == leftSorted[s..p][k - s];
      } else {
        assert result[k] == leftSorted[k] == partitioned[p];
      }
    }
  }

  /** After both recursive calls, everything from the pivot's position on is at least the pivot. */
  lemma {:induction false} RightOfPivot(partitioned: seq<int>, leftSorted: seq<int>, result: seq<int>, s: int, p: int, e: int)
    requires 0 <= s <= p <= e < |partitioned|
    requires Above(partitioned, p + 1, e + 1, partitioned[p])
    requires SameOutside(partitioned, leftSorted, s, p)
    requires SortsRange(leftSorted, result, p + 1, e + 1)
    ensures forall k :: p <= k <= e && 0 <= k < |result| ==> partitioned[p] <= result[k]
  {
    RangeMultiset(leftSorted, result, p + 1, e + 1);
    assert leftSorted[p + 1..e + 1] == partitioned[p + 1..e + 1];
    assert AllGe(leftSorted[p + 1..e + 1], partitioned[p]);
    AllGePermutation(leftSorted[p + 1..e + 1], result[p + 1..e + 1], partitioned[p]);
    forall k | p <= k <= e && 0 <= k < |result| ensures partitioned[p] <= result[k] {
      if k > p {
        assert result[k] == result[p + 1..e + 1][k - p - 1];
      } else {
        assert result[k] == leftSorted[k] == partitioned[p];
      }
    }
  }

  /** Sorts the whole array in ascending order; an absent array is left alone
      and an empty one reaches QuickSort with an empty range. */
  method SortByAscendingOrder(a: array?<int>)
    modifies a
    ensures a != null ==> Sorted(a[..]) && multiset(a[..]) == old(multiset(a[..]))
  {
    if a != null {
      QuickSort(a, 0, a.Length - 1);
    }
  }

  /** Sorting an already sorted array leaves it element-for-element as it was. */
  method SortSortedIsIdentity(a: array<int>)
    requires Sorted(a[..])
    modifies a
    ensures a[..] == old(a[..])
  {
    SortByAscendingOrder(a);
    SortedUnique(a[..], old(a[..]));
  }

  /** The sample data of the quicksort demonstrations and its ascending order
      hold the same values, 83 twice. */
  lemma SampleIsPermutation()
    ensures multiset(SampleInput()) == multiset(SampleSorted())
  {
    SampleInputValues();
    SampleValuesReordered();
    SampleSortedValues();
  }

  function SampleInput(): seq<int>
  {
    [73, 20, -12, 83, 292, -3891, 92384, 85, 0, 83]
  }

  function SampleSorted(): seq<int>
  {
    [-3891, -12, 0, 20, 73, 83, 83, 85, 292, 92384]
  }

  lemma SampleInputValues()
    ensures multiset(SampleInput()) == multiset{73, 20, -12, 83, 292, -3891, 92384, 85, 0, 83}
  {
  }

  lemma SampleValuesReordered()
    ensures multiset{73, 20, -12, 83, 292, -3891, 92384, 85, 0, 83}
         == multiset{-3891, -12, 0, 20, 73, 83, 83, 85, 292, 92384}
  {
  }

  lemma SampleSortedIsSorted()
    ensures Sorted(SampleSorted())
  {
  }

  lemma SampleSortedValues()
    ensures multiset(SampleSorted()) == multiset{-3891, -12, 0, 20, 73, 83, 83, 85, 292, 92384}
  {
  }

  /** The sample input, with its duplicate 83, sorts to the expected order. */
  method SortSample() returns (sorted: seq<int>)
    ensures sorted == [-3891, -12, 0, 20, 73, 83, 83, 85, 292, 92384]
  {
    var a := new int[10] [73, 20, -12, 83, 292, -3891, 92384, 85, 0, 83];
    assert a[..] == SampleInput();
    SortByAscendingOrder(a);
    sorted := a[..];
    SampleIsPermutation();
    SampleSortedIsSorted();
    SortedUnique(sorted, SampleSorted());
  }
}
