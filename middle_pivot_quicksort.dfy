/** Quicksort over one class-wide integer array, with the middle element of
    the range as pivot and two indices that move inwards (Hoare style). The
    recursive calls are issued from inside the partition loop, after every
    round of scanning and swapping.

    Why it still sorts: in the first round the left scan stops at or before
    the pivot's position and the right scan at or after it, so a swap always
    happens. Afterwards everything left of `leftIndex` is at most the pivot and
    everything right of `rightIndex` at least the pivot, and the two recursive
    calls leave the whole range sorted (FirstRoundSorted). Any later round
    works on a sorted range: the scans stop inside it, a swap can only
    exchange two copies of the pivot value, and re-sorting a sub-range of a
    sorted range changes nothing in its order (ResortKeepsSorted). */
module MiddlePivotQuickSort {
  import opened SortedSeqs

  class QuickSortArray {
    /** The array that every call sorts a range of. */
    var arr: array<int>

    /** The sample data the class starts with. */
    constructor ()
      ensures fresh(arr)
      ensures arr[..] == ClassData()
    {
      arr := new int[10] [73, 20, -12, 83, 292, -3891, 92384, 85, 0, 83];
    }

    /** Sorts `arr[startingIndex..endingIndex]` in place; positions outside
        the range keep their values. The range must not be empty, since the
        pivot is read before anything else. */
    method QuickSort(startingIndex: int, endingIndex: int)
      requires 0 <= startingIndex <= endingIndex < arr.Length
      modifies arr
      ensures SortsRange(old(arr[..]), arr[..], startingIndex, endingIndex + 1)
      decreases endingIndex - startingIndex, 1
    {
      var leftIndex := startingIndex;
      var rightIndex := endingIndex;
      var pivotPosition := startingIndex + (endingIndex - startingIndex) / 2;
      var pivot := arr[pivotPosition];
      ghost var original := arr[..];
      ghost var started := false;
      while leftIndex <= rightIndex
        invariant startingIndex <= leftIndex <= endingIndex + 1
        invariant startingIndex - 1 <= rightIndex <= endingIndex
        invariant !started ==> leftIndex == startingIndex && rightIndex == endingIndex && arr[..] == original
        invariant started ==> startingIndex < leftIndex && rightIndex < endingIndex
        invariant started ==> SortsRange(original, arr[..], startingIndex, endingIndex + 1)
        decreases if leftIndex <= rightIndex then rightIndex - leftIndex + 1 else 0
      {
        ghost var leftFound, rightFound;
        leftIndex, rightIndex, leftFound, rightFound := ScanAndSwap(startingIndex, endingIndex, pivotPosition, pivot, leftIndex, rightIndex,
                                                                 original, started);
        ghost var swapped := arr[..];
        SortBothSides(startingIndex, endingIndex, leftIndex, rightIndex, pivot, started);
        PermuteThenSort(original, swapped, arr[..], startingIndex, endingIndex + 1);
        started := true;
      }
    }

    /** One round of the partition loop before its recursive calls: the left
        index moves right past elements below the pivot, the right index moves
        left past elements above it, and if they have not crossed the two
        elements they stop at are exchanged and both indices step inwards. In the
        first round this splits the range around the pivot; in a later round the
        range is sorted already and the exchange, if any, swaps two equal values. */
    method ScanAndSwap(startingIndex: int, endingIndex: int, ghost pivotPosition: int, pivot: int,
                       leftIndex: int, rightIndex: int, ghost original: seq<int>, ghost started: bool)
      returns (newLeft: int, newRight: int, ghost leftFound: int, ghost rightFound: int)
      requires 0 <= startingIndex <= pivotPosition <= endingIndex < arr.Length == |original|
      requires pivot == original[pivotPosition]
      requires !started ==> leftIndex == startingIndex && rightIndex == endingIndex && arr[..] == original
      requires started ==> startingIndex < leftIndex <= rightIndex < endingIndex
      requires started ==> SortsRange(original, arr[..], startingIndex, endingIndex + 1)
      modifies arr
      ensures leftIndex <= leftFound <= endingIndex && startingIndex <= rightFound <= rightIndex
      ensures old(arr[leftFound]) >= pivot && forall k :: leftIndex <= k < leftFound ==> old(arr[k]) < pivot
      ensures old(arr[rightFound]) <= pivot && forall k :: rightFound < k <= rightIndex ==> old(arr[k]) > pivot
      ensures leftFound <= rightFound ==>
                arr[..] == old(arr[..])[leftFound := old(arr[rightFound])][rightFound := old(arr[leftFound])] &&
                newLeft == leftFound + 1 && newRight == rightFound - 1
      ensures leftFound > rightFound ==> arr[..] == old(arr[..]) && newLeft == leftFound && newRight == rightFound
      ensures !started ==> leftFound <= pivotPosition <= rightFound
      ensures startingIndex < newLeft <= endingIndex + 1 && startingIndex - 1 <= newRight < endingIndex
      ensures SameOutside(original, arr[..], startingIndex, endingIndex + 1) && multiset(arr[..]) == multiset(original)
      ensures newLeft <= newRight ==> leftIndex < newLeft && newRight < rightIndex
      ensures started ==> arr[..] == old(arr[..])
      ensures !started ==> SplitAround(arr[..], startingIndex, endingIndex, newLeft, newRight, pivot)
    {
      ghost var top := arr[..];
      newLeft, newRight := ScanToStops(startingIndex, endingIndex, pivotPosition, pivot, leftIndex, rightIndex,
                                       original, started);
      leftFound, rightFound := newLeft, newRight;
      if newLeft <= newRight {
        var tempSwapValue := arr[newLeft];
        arr[newLeft] := arr[newRight];
        arr[newRight] := tempSwapValue;
        newLeft := newLeft + 1;
        newRight := newRight - 1;
        assert arr[..] == top[leftFound := top[rightFound]][rightFound := top[leftFound]];
      }
      RoundSplit(original, top, arr[..], startingIndex, endingIndex, pivotPosition, leftIndex, rightIndex,
                 leftFound, rightFound, newLeft, newRight, started);
    }

    /** The two scans of a round: from `leftIndex` rightwards to the first
        element not below the pivot, and from `rightIndex` leftwards to the
        first element not above it. Both stop inside the range: in the first
        round at the latest at the pivot's own position, in a later round,
        on a range already sorted, at the latest at its ends. */
    method ScanToStops(startingIndex: int, endingIndex: int, ghost pivotPosition: int, pivot: int,
                       leftIndex: int, rightIndex: int, ghost original: seq<int>, ghost started: bool)
      returns (leftFound: int, rightFound: int)
      requires 0 <= startingIndex <= pivotPosition <= endingIndex < arr.Length == |original|
      requires pivot == original[pivotPosition]
      requires !started ==> leftIndex == startingIndex && rightIndex == endingIndex && arr[..] == original
      requires started ==> startingIndex < leftIndex <= rightIndex < endingIndex
      requires started ==> SortsRange(original, arr[..], startingIndex, endingIndex + 1)
      ensures leftIndex <= leftFound <= endingIndex && startingIndex <= rightFound <= rightIndex
      ensures arr[leftFound] >= pivot && forall k :: leftIndex <= k < leftFound ==> arr[k] < pivot
      ensures arr[rightFound] <= pivot && forall k :: rightFound < k <= rightIndex ==> arr[k] > pivot
      ensures !started ==> leftFound <= pivotPosition <= rightFound
    {
      ghost var leftStop := if started then endingIndex else pivotPosition;
      ghost var rightStop := if started then startingIndex else pivotPosition;
      if started {
        PivotWithinSortedRange(original, arr[..], startingIndex, endingIndex, pivotPosition);
      }
      leftFound, rightFound := leftIndex, rightIndex;
      while arr[leftFound] < pivot
        invariant leftIndex <= leftFound <= leftStop
        invariant forall k :: leftIndex <= k < leftFound ==> arr[k] < pivot
        decreases leftStop - leftFound
      {
        leftFound := leftFound + 1;
      }
      while arr[rightFound] > pivot
        invariant rightStop <= rightFound <= rightIndex
        invariant forall k :: rightFound < k <= rightIndex ==> arr[k] > pivot
        decreases rightFound - rightStop
      {
        rightFound := rightFound - 1;
      }
    }

    /** The two recursive calls that end every round of QuickSort: first the
        part up to `rightIndex`, then the part from `leftIndex`. They leave the
        range sorted both when it was sorted already and when the round has
        just split it around `pivot`. */
    method SortBothSides(startingIndex: int, endingIndex: int, leftIndex: int, rightIndex: int,
                         ghost pivot: int, ghost sortedAlready: bool)
      requires 0 <= startingIndex < leftIndex <= endingIndex + 1 <= arr.Length
      requires startingIndex - 1 <= rightIndex < endingIndex
      requires sortedAlready ==> SortedRange(arr[..], startingIndex, endingIndex + 1)
      requires !sortedAlready ==> SplitAround(arr[..], startingIndex, endingIndex, leftIndex, rightIndex, pivot)
      modifies arr
      ensures SortsRange(old(arr[..]), arr[..], startingIndex, endingIndex + 1)
      decreases endingIndex - startingIndex, 0
    {
      ghost var swapped := arr[..];
      if startingIndex < rightIndex {
        QuickSort(startingIndex, rightIndex);
      }
      ghost var leftDone := arr[..];
      if leftIndex < endingIndex {
        QuickSort(leftIndex, endingIndex);
      }
      RoundSorted(swapped, leftDone, arr[..], startingIndex, endingIndex, leftIndex, rightIndex, pivot, sortedAlready);
    }

    /** Sorts the whole array, as the class's entry point does. */
    method SortAll()
      requires arr.Length > 0
      modifies arr
      ensures Sorted(arr[..])
      ensures multiset(arr[..]) == old(multiset(arr[..]))
    {
      QuickSort(0, arr.Length - 1);
    }
  }

  /** One round of scans and at most one swap, over snapshots of the array
      before the round (`top`) and after the swap (`swapped`). The scans
      started at `topLeft` and `topRight` and stopped at `leftFound` and
      `rightFound`; `left` and `right` are the indices after the swap. In the
      first round the result is split around the pivot; in a later round the
      range was sorted and the swap, if any, exchanged two equal values. */
  lemma {:induction false} RoundSplit(original: seq<int>, top: seq<int>, swapped: seq<int>, s: int, e: int, m: int,
                                      topLeft: int, topRight: int, leftFound: int, rightFound: int,
                                      left: int, right: int, started: bool)
    requires 0 <= s <= m <= e < |original| == |top|
    requires started ==> s < topLeft && topRight < e
    requires started ==> SortsRange(original, top, s, e + 1)
    requires !started ==> top == original && topLeft == s && topRight == e
    requires topLeft <= leftFound <= e && s <= rightFound <= topRight
    requires forall k :: topLeft <= k < leftFound ==> top[k] < original[m]
    requires forall k :: rightFound < k <= topRight ==> top[k] > original[m]
    requires top[leftFound] >= original[m] && top[rightFound] <= original[m]
    requires !started ==> leftFound <= m <= rightFound
    requires leftFound <= rightFound ==> left == leftFound + 1 && right == rightFound - 1
    requires leftFound <= rightFound ==> swapped == top[leftFound := top[rightFound]][rightFound := top[leftFound]]
    requires leftFound > rightFound ==> left == leftFound && right == rightFound && swapped == top
    ensures s < left <= e + 1 && s - 1 <= right < e
    ensures SameOutside(original, swapped, s, e + 1) && multiset(swapped) == multiset(original)
    ensures started ==> swapped == top
    ensures !started ==> SplitAround(swapped, s, e, left, right, original[m])
  {
    if leftFound <= rightFound {
      if started {
        assert top[leftFound] <= top[rightFound];
        assert swapped == top;
      } else {
        FirstSwapSplits(original, swapped, s, e, original[m], leftFound, rightFound);
      }
    }
  }

  /** In the first round, exchanging the two stopping positions keeps every
      element before the new left cursor at most the pivot and every element
      after the new right cursor at least the pivot. */
  lemma {:induction false} FirstSwapSplits(top: seq<int>, swapped: seq<int>, s: int, e: int, pivot: int,
                                           leftFound: int, rightFound: int)
    requires 0 <= s <= leftFound <= rightFound <= e < |top|
    requires forall k :: s <= k < leftFound ==> top[k] < pivot
    requires forall k :: rightFound < k <= e ==> top[k] > pivot
    requires top[leftFound] >= pivot && top[rightFound] <= pivot
    requires swapped == top[leftFound := top[rightFound]][rightFound := top[leftFound]]
    ensures SameOutside(top, swapped, s, e + 1) && multiset(swapped) == multiset(top)
    ensures SplitAround(swapped, s, e, leftFound + 1, rightFound - 1, pivot)
  {
  }

  /** What SortBothSides promises, over snapshots of the array before the
      calls (`swapped`), between them (`leftDone`) and after them (`rightDone`). */
  lemma {:induction false} RoundSorted(swapped: seq<int>, leftDone: seq<int>, rightDone: seq<int>,
                                       s: int, e: int, left: int, right: int, pivot: int, sortedAlready: bool)
    requires 0 <= s < left <= e + 1 <= |swapped|
    requires s - 1 <= right < e
    requires sortedAlready ==> SortedRange(swapped, s, e + 1)
    requires !sortedAlready ==> SplitAround(swapped, s, e, left, right, pivot)
    requires s < right ==> SortsRange(swapped, leftDone, s, right + 1)
    requires s >= right ==> leftDone == swapped
    requires left < e ==> |leftDone| == |swapped| && SortsRange(leftDone, rightDone, left, e + 1)
    requires left >= e ==> rightDone == leftDone
    ensures SortsRange(swapped, rightDone, s, e + 1)
  {
    PartSorted(swapped, leftDone, s, e, s, right);
    PartSorted(leftDone, rightDone, s, e, left, e);
    SameOutsideTrans(swapped, leftDone, rightDone, s, e + 1);
    if sortedAlready {
      if s <= right {
        ResortKeepsSorted(swapped, leftDone, s, e, s, right);
      }
      if left <= e {
        ResortKeepsSorted(leftDone, rightDone, s, e, left, e);
      }
    } else {
      FirstRoundSorted(swapped, leftDone, rightDone, s, e, left, right, pivot);
    }
  }

  /** `b` comes from `a` by sorting positions `i .. j` when that range has at
      least two elements, and is `a` otherwise: either way positions `i .. j`
      of `b` are sorted and `b` permutes every range around them. */
  lemma {:induction false} PartSorted(a: seq<int>, b: seq<int>, s: int, e: int, i: int, j: int)
    requires 0 <= s <= i <= j + 1 <= e + 1 <= |a|
    requires i < j ==> SortsRange(a, b, i, j + 1)
    requires i >= j ==> b == a
    ensures SortsRange(a, b, i, j + 1)
    ensures SameOutside(a, b, s, e + 1)
  {
  }

  /** The pivot value lies between the ends of a sorted permutation of the range it came from. */
  lemma {:induction false} PivotWithinSortedRange(original: seq<int>, current: seq<int>, s: int, e: int, m: int)
    requires 0 <= s <= m <= e < |original|
    requires SortsRange(original, current, s, e + 1)
    ensures current[s] <= original[m] <= current[e]
  {
    RangeMultiset(original, current, s, e + 1);
    assert original[m] == original[s..e + 1][m - s];
    assert original[m] in multiset(current[s..e + 1]);
    SortedEnds(current[s..e + 1], original[m]);
  }

  /** Positions `s .. left - 1` hold values at most `pivot` and positions
      `right + 1 .. e` values at least `pivot`; the two parts overlap or
      leave at most one position between them. */
  ghost predicate SplitAround(t: seq<int>, s: int, e: int, left: int, right: int, pivot: int)
  {
    left <= right + 2 &&
    (forall k :: s <= k < left && 0 <= k < |t| ==> t[k] <= pivot) &&
    (forall k :: right < k <= e && 0 <= k < |t| ==> pivot <= t[k])
  }

  /** After the first round the elements left of `left` are at most the pivot,
      the elements right of `right` at least the pivot, and the two recursive
      calls sort `[s, right]` and then `[left, e]`: the whole range is then
      sorted, whether the two ranges overlap or not. */
  lemma {:induction false} FirstRoundSorted(swapped: seq<int>, leftDone: seq<int>, rightDone: seq<int>,
                                            s: int, e: int, left: int, right: int, pivot: int)
    requires 0 <= s < left <= e + 1 && s - 1 <= right < e < |swapped|
    requires SplitAround(swapped, s, e, left, right, pivot)
    requires SortsRange(swapped, leftDone, s, right + 1)
    requires SortsRange(leftDone, rightDone, left, e + 1)
    ensures SortedRange(rightDone, s, e + 1)
  {
    if left > right {
      FirstRoundDisjoint(swapped, leftDone, rightDone, s, e, left, right, pivot);
    } else {
      FirstRoundOverlap(swapped, leftDone, rightDone, s, e, left, right, pivot);
    }
  }

  /** The two sorted parts do not overlap: the left one ends below the pivot
      and the right one starts above it. */
  lemma {:induction false} FirstRoundDisjoint(swapped: seq<int>, leftDone: seq<int>, rightDone: seq<int>,
                                              s: int, e: int, left: int, right: int, pivot: int)
    requires 0 <= s < left <= e + 1 && s - 1 <= right < e < |swapped|
    requires right < left
    requires SplitAround(swapped, s, e, left, right, pivot)
    requires SortsRange(swapped, leftDone, s, right + 1)
    requires SortsRange(leftDone, rightDone, left, e + 1)
    ensures SortedRange(rightDone, s, e + 1)
  {
    RangeMultiset(swapped, leftDone, s, right + 1);
    RangeMultiset(leftDone, rightDone, left, e + 1);
    assert AllLe(swapped[s..right + 1], pivot);
    AllLePermutation(swapped[s..right + 1], leftDone[s..right + 1], pivot);
    assert leftDone[left..e + 1] == swapped[left..e + 1];
    assert AllGe(swapped[left..e + 1], pivot);
    AllGePermutation(leftDone[left..e + 1], rightDone[left..e + 1], pivot);
    forall k | s <= k < left ensures rightDone[k] <= pivot {
      if k <= right {
        assert rightDone[k] == leftDone[s..right + 1][k - s];
      } else {
        assert rightDone[k] == swapped[k];
      }
    }
    forall k | right < k <= e ensures pivot <= rightDone[k] {
      if k < left {
        assert rightDone[k] == swapped[k];
      } else {
        assert rightDone[k] == rightDone[left..e + 1][k - left];
      }
    }
    assert SortedRange(rightDone, s, right + 1);
    JoinSorted(rightDone, s, right + 1, left, e, pivot);
  }

  /** The two sorted parts overlap: the second sort only rearranges values
      that are no smaller than the largest value it leaves in front of it. */
  lemma {:induction false} FirstRoundOverlap(swapped: seq<int>, leftDone: seq<int>, rightDone: seq<int>,
                                             s: int, e: int, left: int, right: int, pivot: int)
    requires 0 <= s < left <= right < e < |swapped|
    requires SplitAround(swapped, s, e, left, right, pivot)
    requires SortsRange(swapped, leftDone, s, right + 1)
    requires SortsRange(leftDone, rightDone, left, e + 1)
    ensures SortedRange(rightDone, s, e + 1)
  {
    RangeMultiset(swapped, leftDone, s, right + 1);
    RangeMultiset(leftDone, rightDone, left, e + 1);
    assert AllLe(swapped[s..right + 1][..left - s], pivot);
    SortedPrefixBound(swapped[s..right + 1], leftDone[s..right + 1], left - s, pivot);
    var x := leftDone[left - 1];
    assert x == leftDone[s..right + 1][..left - s][left - 1 - s];
    forall k | left <= k <= e ensures x <= leftDone[k] {
      if k > right {
        assert leftDone[k] == swapped[k];
      }
    }
    assert AllGe(leftDone[left..e + 1], x);
    AllGePermutation(leftDone[left..e + 1], rightDone[left..e + 1], x);
    forall k | left <= k <= e ensures x <= rightDone[k] {
      assert rightDone[k] == rightDone[left..e + 1][k - left];
    }
    forall k | s <= k < left ensures rightDone[k] <= x {
      assert rightDone[k] == leftDone[k];
    }
    assert SortedRange(rightDone, s, left);
    JoinSorted(rightDone, s, left, left, e, x);
  }

  /** The data the class array is initialised with. */
  function ClassData(): seq<int>
  {
    [73, 20, -12, 83, 292, -3891, 92384, 85, 0, 83]
  }

  /** The same values in ascending order. */
  function ClassDataSorted(): seq<int>
  {
    [-3891, -12, 0, 20, 73, 83, 83, 85, 292, 92384]
  }

  /** The class data and its ascending order hold the same values, 83 twice. */
  lemma ClassDataPermutes()
    ensures multiset(ClassData()) == multiset(ClassDataSorted())
  {
    ClassDataValues();
    ClassValuesReordered();
    ClassSortedValues();
  }

  lemma ClassDataValues()
    ensures multiset(ClassData()) == multiset{73, 20, -12, 83, 292, -3891, 92384, 85, 0, 83}
  {
  }

  lemma ClassValuesReordered()
    ensures multiset{73, 20, -12, 83, 292, -3891, 92384, 85, 0, 83}
         == multiset{-3891, -12, 0, 20, 73, 83, 83, 85, 292, 92384}
  {
  }

  lemma ClassSortedValues()
    ensures multiset(ClassDataSorted()) == multiset{-3891, -12, 0, 20, 73, 83, 83, 85, 292, 92384}
  {
  }

  lemma ClassDataSortedIsSorted()
    ensures Sorted(ClassDataSorted())
  {
  }

  /** The class's own sample data ends up in ascending order, both 83s kept. */
  method SortClassSample() returns (sorted: seq<int>)
    ensures sorted == [-3891, -12, 0, 20, 73, 83, 83, 85, 292, 92384]
  {
    var q := new QuickSortArray();
    q.SortAll();
    sorted := q.arr[..];
    ClassDataPermutes();
    ClassDataSortedIsSorted();
    SortedUnique(sorted, ClassDataSorted());
  }
}
