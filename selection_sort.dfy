/** Selection sort of an integer array in place: for every position but the
    last, find the smallest value from that position on and, if it is smaller
    than the value there, exchange the two. The two classes below hold the
    array being sorted in a field, as the two copies of the algorithm do. */
module SelectionSorting {
  import opened SortedSeqs

  /** The state after `i` rounds: the first `i` positions are ascending and
      none of them exceeds any later element. */
  ghost predicate SelectedPrefix(t: seq<int>, i: int)
  {
    SortedRange(t, 0, i) && forall k, m :: 0 <= k < i <= m < |t| ==> t[k] <= t[m]
  }

  /** The inner loop: the smallest value of `a[i..]` and the first index at
      which it occurs. */
  method FindSmallest(a: array<int>, i: int) returns (smallestValue: int, indexOfSmallestValue: int)
    requires 0 <= i < a.Length
    ensures i <= indexOfSmallestValue < a.Length && smallestValue == a[indexOfSmallestValue]
    ensures forall k :: i <= k < a.Length ==> smallestValue <= a[k]
    ensures forall k :: i <= k < indexOfSmallestValue ==> smallestValue < a[k]
  {
    smallestValue := a[i];
    indexOfSmallestValue := i;
    var j := i + 1;
    while j < a.Length
      invariant i < j <= a.Length
      invariant i <= indexOfSmallestValue < j && smallestValue == a[indexOfSmallestValue]
      invariant forall k :: i <= k < j ==> smallestValue <= a[k]
      invariant forall k :: i <= k < indexOfSmallestValue ==> smallestValue < a[k]
    {
      if a[j] < smallestValue {
        smallestValue := a[j];
        indexOfSmallestValue := j;
      }
      j := j + 1;
    }
  }

  /** The outer loop, shared by both classes: rounds `0 .. Length - 2`, each
      selecting the smallest remaining value and swapping it into place only
      when it is smaller than the value already there. Arrays of length 0
      and 1 are not touched. */
  method SelectionSortInPlace(integerArray: array<int>)
    modifies integerArray
    ensures SortsRange(old(integerArray[..]), integerArray[..], 0, integerArray.Length)
    ensures integerArray.Length <= 1 ==> integerArray[..] == old(integerArray[..])
  {
    ghost var original := integerArray[..];
    var i := 0;
    while i < integerArray.Length - 1
      invariant 0 <= i && (integerArray.Length == 0 || i <= integerArray.Length - 1)
      invariant integerArray.Length <= 1 ==> integerArray[..] == original
      invariant SelectedPrefix(integerArray[..], i)
      invariant multiset(integerArray[..]) == multiset(original)
      decreases integerArray.Length - i
    {
      var smallestValue, indexOfSmallestValue := FindSmallest(integerArray, i);
      ghost var before := integerArray[..];
      if integerArray[i] > smallestValue {
        var swapVariable := integerArray[i];
        integerArray[i] := integerArray[indexOfSmallestValue];
        integerArray[indexOfSmallestValue] := swapVariable;
        assert integerArray[..] == before[i := before[indexOfSmallestValue]][indexOfSmallestValue := before[i]];
      }
      SelectStep(before, integerArray[..], i, indexOfSmallestValue);
      i := i + 1;
    }
    SelectionDone(integerArray[..], i);
  }

  /** One round of the outer loop extends the selected prefix by one
      position and only exchanges two elements. */
  lemma {:induction false} SelectStep(before: seq<int>, after: seq<int>, i: int, m: int)
    requires 0 <= i <= m < |before|
    requires SelectedPrefix(before, i)
    requires forall k :: i <= k < |before| ==> before[m] <= before[k]
    requires before[i] > before[m] ==> after == before[i := before[m]][m := before[i]]
    requires before[i] <= before[m] ==> after == before
    ensures SelectedPrefix(after, i + 1)
    ensures multiset(after) == multiset(before)
  {
    assert |after| == |before|;
    assert after[i] == before[m];
    forall k, j | 0 <= k < i + 1 <= j < |after| ensures after[k] <= after[j] {
      if k < i {
        assert after[k] == before[k];
        assert after[j] == before[j] || after[j] == before[i];
      } else {
        assert after[j] == before[j] || after[j] == before[i];
      }
    }
    forall k, j | 0 <= k < j < i + 1 ensures after[k] <= after[j] {
      if j < i {
        assert after[k] == before[k] && after[j] == before[j];
      } else {
        assert after[k] == before[k];
        assert before[k] <= before[m];
      }
    }
  }

  /** When the outer loop ends, the whole array is ascending. */
  lemma {:induction false} SelectionDone(t: seq<int>, i: int)
    requires 0 <= i && (|t| == 0 || i == |t| - 1)
    requires SelectedPrefix(t, i)
    ensures Sorted(t)
  {
    forall k, j | 0 <= k < j < |t| ensures t[k] <= t[j] {
      if j < i {
      } else {
        assert k < i <= j;
      }
    }
  }

  /** The selection sort class whose `Execute` takes the array to sort: the
      array is stored in the class field and sorted there, with no copy. */
  class SelectionSort {
    var integerArray: array?<int>

    constructor ()
      ensures integerArray == null
    {
      integerArray := null;
    }

    method SetIntegerArray(newArray: array?<int>)
      modifies this
      ensures integerArray == newArray
    {
      integerArray := newArray;
    }

    /** Stores `input` in the field, sorts it in place and returns that same array. */
    method Execute(input: array<int>) returns (result: array<int>)
      modifies this, input
      ensures integerArray == input && result == input
      ensures SortsRange(old(input[..]), input[..], 0, input.Length)
    {
      SetIntegerArray(input);
      SelectionSortInPlace(input);
      result := input;
    }
  }

  /** The selection sort class that owns its data. */
  class SelectionSortArray {
    var integerArray: array<int>

    constructor ()
      ensures fresh(integerArray)
      ensures integerArray[..] == SampleData()
    {
      integerArray := new int[7] [78, -23, 0, 14, 9843, 283, -76];
    }

    method SelectionSort()
      modifies integerArray
      ensures SortsRange(old(integerArray[..]), integerArray[..], 0, integerArray.Length)
    {
      SelectionSortInPlace(integerArray);
    }
  }

  function SampleData(): seq<int>
  {
    [78, -23, 0, 14, 9843, 283, -76]
  }

  function SampleResult(): seq<int>
  {
    [-76, -23, 0, 14, 78, 283, 9843]
  }

  lemma SampleDataValues()
    ensures multiset(SampleData()) == multiset{78, -23, 0, 14, 9843, 283, -76}
  {
  }

  lemma SampleValuesReordered()
    ensures multiset{78, -23, 0, 14, 9843, 283, -76} == multiset{-76, -23, 0, 14, 78, 283, 9843}
  {
  }

  lemma SampleResultValues()
    ensures multiset(SampleResult()) == multiset{-76, -23, 0, 14, 78, 283, 9843}
  {
  }

  lemma SampleResultIsSorted()
    ensures Sorted(SampleResult())
  {
  }

  /** The class's own data sorts to the expected order. */
  method SortSample() returns (sorted: seq<int>)
    ensures sorted == [-76, -23, 0, 14, 78, 283, 9843]
  {
    var sorter := new SelectionSortArray();
    sorter.SelectionSort();
    sorted := sorter.integerArray[..];
    SampleDataValues();
    SampleValuesReordered();
    SampleResultValues();
    SampleResultIsSorted();
    SortedUnique(sorted, SampleResult());
  }
}
