/** Binary search over an integer array that is meant to be ascending. The
    result is the index of a match, or one of two "not found" codes: -1 when
    no probe ever landed on an element above the search value, -99 when one
    did. */
module BinarySearching {
  import opened SortedSeqs

  const NotFoundBelow: int := -1
  const NotFoundAbove: int := -99

  /** Searches `integerArray` for `searchValue`, halving the window
      `[lowerBound, upperBound]` after every probe of its midpoint. */
  method FindValue(integerArray: array<int>, searchValue: int) returns (searchValueIndex: int)
    ensures searchValueIndex == NotFoundBelow || searchValueIndex == NotFoundAbove ||
            0 <= searchValueIndex < integerArray.Length
    ensures 0 <= searchValueIndex ==> integerArray[searchValueIndex] == searchValue
    ensures searchValueIndex == NotFoundBelow ==>
              integerArray.Length == 0 || integerArray[integerArray.Length - 1] < searchValue
    ensures searchValueIndex == NotFoundAbove ==>
              exists k :: 0 <= k < integerArray.Length && integerArray[k] > searchValue
    ensures Sorted(integerArray[..]) ==> (0 <= searchValueIndex <==> searchValue in integerArray[..])
    ensures Sorted(integerArray[..]) && searchValueIndex == NotFoundAbove ==>
              searchValue < integerArray[integerArray.Length - 1]
    ensures Sorted(integerArray[..]) ==>
              (searchValueIndex == NotFoundBelow <==>
               integerArray.Length == 0 || integerArray[integerArray.Length - 1] < searchValue)
  {
    searchValueIndex := NotFoundBelow;
    var lowerBound := 0;
    var upperBound := integerArray.Length - 1;
    while lowerBound <= upperBound
      invariant 0 <= lowerBound <= upperBound + 1 <= integerArray.Length
      invariant searchValueIndex == NotFoundBelow || searchValueIndex == NotFoundAbove
      invariant (searchValueIndex == NotFoundBelow) == (upperBound == integerArray.Length - 1)
      invariant lowerBound == 0 || integerArray[lowerBound - 1] < searchValue
      invariant upperBound == integerArray.Length - 1 || integerArray[upperBound + 1] > searchValue
      invariant Sorted(integerArray[..]) ==> forall k :: 0 <= k < lowerBound ==> integerArray[k] < searchValue
      invariant Sorted(integerArray[..]) ==>
                  forall k :: upperBound < k < integerArray.Length ==> integerArray[k] > searchValue
      decreases upperBound - lowerBound
    {
      var midPointIndex := (lowerBound + upperBound) / 2;
      var midPointElement := integerArray[midPointIndex];
      if midPointElement == searchValue {
        searchValueIndex := midPointIndex;
        break;
      }
      if midPointElement > searchValue {
        upperBound := midPointIndex - 1;
      }
      if midPointElement < searchValue {
        lowerBound := midPointIndex + 1;
      } else {
        searchValueIndex := NotFoundAbove;
      }
    }
    if searchValueIndex < 0 && Sorted(integerArray[..]) {
      if searchValueIndex == NotFoundAbove {
        assert integerArray[upperBound + 1] > searchValue;
      }
    }
  }

  /** The two messages of the result printer. */
  datatype Report = NotFoundInList(searchValue: int) | FoundAtIndex(searchValue: int, index: int)

  /** The message the result printer chooses for a search result: -99 reads
      as "not found", and every other value, -1 included, as the index at
      which the search value was found. */
  function PrintedReport(searchValue: int, searchValueIndex: int): (report: Report)
    ensures report.searchValue == searchValue
    ensures report.NotFoundInList? <==> searchValueIndex == NotFoundAbove
    ensures report.FoundAtIndex? ==> report.index == searchValueIndex
  {
    if searchValueIndex == NotFoundAbove then NotFoundInList(searchValue)
    else FoundAtIndex(searchValue, searchValueIndex)
  }

  /** FindValue as written, on a sorted array whose every element is below the
      search value: the result is -1, which the printer reports as a match at
      index -1 although the value is absent. */
  method SearchAboveEveryElement() returns (valueIndex: int, present: bool)
    ensures valueIndex == NotFoundBelow && PrintedReport(1000, valueIndex) == FoundAtIndex(1000, -1) && !present
  {
    var integerArray := new int[9] [1, 19, 58, 293, 823, 854, 900, 927, 999];
    assert Sorted(integerArray[..]);
    valueIndex := FindValue(integerArray, 1000);
    present := 1000 in integerArray[..];
  }

  /** The search FindValue is evidently meant to be: every miss gives -99,
      the one code the printer treats as "not found". The window is halved
      exactly as in FindValue. */
  method FindValueOrNotFound(integerArray: array<int>, searchValue: int) returns (searchValueIndex: int)
    ensures searchValueIndex == NotFoundAbove || 0 <= searchValueIndex < integerArray.Length
    ensures 0 <= searchValueIndex ==> integerArray[searchValueIndex] == searchValue
    ensures Sorted(integerArray[..]) ==>
              (PrintedReport(searchValue, searchValueIndex).FoundAtIndex? <==> searchValue in integerArray[..])
  {
    searchValueIndex := NotFoundAbove;
    var lowerBound := 0;
    var upperBound := integerArray.Length - 1;
    while lowerBound <= upperBound
      invariant 0 <= lowerBound <= upperBound + 1 <= integerArray.Length
      invariant searchValueIndex == NotFoundAbove
      invariant Sorted(integerArray[..]) ==> forall k :: 0 <= k < lowerBound ==> integerArray[k] < searchValue
      invariant Sorted(integerArray[..]) ==>
                  forall k :: upperBound < k < integerArray.Length ==> integerArray[k] > searchValue
      decreases upperBound - lowerBound
    {
      var midPointIndex := (lowerBound + upperBound) / 2;
      var midPointElement := integerArray[midPointIndex];
      if midPointElement == searchValue {
        searchValueIndex := midPointIndex;
        break;
      }
      if midPointElement > searchValue {
        upperBound := midPointIndex - 1;
      } else {
        lowerBound := midPointIndex + 1;
      }
    }
  }

  /** The corrected search on the fixed data: 999 is found at index 8 and
      1000, above every element, is reported as not found. */
  method SearchFixedDataOrNotFound() returns (hitIndex: int, missIndex: int)
    ensures hitIndex == 8 && missIndex == NotFoundAbove && PrintedReport(1000, missIndex) == NotFoundInList(1000)
  {
    var integerArray := new int[9] [1, 19, 58, 293, 823, 854, 900, 927, 999];
    assert Sorted(integerArray[..]);
    assert integerArray[8] == 999;
    hitIndex := FindValueOrNotFound(integerArray, 999);
    assert forall k :: 0 <= k < 8 ==> integerArray[k] < 999;
    missIndex := FindValueOrNotFound(integerArray, 1000);
  }

  /** The fixed data and search value of the stand-alone search program,
      whose loop is the one in FindValue statement for statement. */
  method SearchFixedData() returns (valueIndex: int)
    ensures valueIndex == 8
  {
    var integerArray := new int[9] [1, 19, 58, 293, 823, 854, 900, 927, 999];
    var searchValue := 999;
    assert Sorted(integerArray[..]);
    assert integerArray[8] == searchValue;
    valueIndex := FindValue(integerArray, searchValue);
    assert forall k :: 0 <= k < 8 ==> integerArray[k] < searchValue;
  }
}
