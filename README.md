# Algorithms and Data Structures: a verified Dafny model

This project models the algorithmic core of a small collection of Java
teaching programs. The collection contains:

- two quicksorts over `int` arrays:
  - one with a random pivot and a single left-to-right (Lomuto) partition pass;
  - one with the middle element as pivot, inward scans, and recursion from inside its loop;
- a generic insertion sort over `Comparable` elements;
- two copies of an in-place selection sort;
- two copies of a binary search with two "not found" codes;
- a singly linked list built from `Node` objects.

Each Java method that changes an array or an object in place is a Dafny
`method`. Where the Java works on an array, the method works on an `array`.
Each loop in the Java is a loop here, with its invariants, and each method is
proved against a specification:

- the sorts against `SortsRange` (ascending, same multiset, nothing outside
  the range changes) or against the functional insertion sort
  `InsertionSorted`;
- the searches against membership in the array;
- the linked-list methods against the ghost sequence `contents` that the
  chain of nodes represents.

Modules, one per program:

- `SortedSeqs`: ascending order, agreement outside a range, and multiset
  facts shared by the integer sorts and the search.
- `RandomPivotQuickSort`: `QuickSort_Integers` (random pivot, Lomuto partition).
- `MiddlePivotQuickSort`: `QuickSort_Array`. The Java's static array is the field
  `arr` of class `QuickSortArray`.
- `InsertionSorting`: `InsertionSort`. The element order is a comparison
  function `cmp` in the role of `compareTo`.
- `SelectionSorting`: `SelectionSort` and `SelectionSort_Array`. The two
  share one in-place sort method.
- `BinarySearching`: `BinarySearch_Integers.findValue` and the search loop of
  `BinarySearch_Array.main`.
- `LinkedLists`: `Node` and `LinkedList`.

## Model

| member | source | states |
|---|---|---|
| RandomPivotQuickSort.SwapElements | QuickSort_Array/src/com/jvarghe/QuickSort_Integers.java:201-206 | the two positions exchange their values, every other position keeps its own, and the multiset is unchanged |
| RandomPivotQuickSort.GetPivot | QuickSort_Array/src/com/jvarghe/QuickSort_Integers.java:162-196 | the pivot index lies between `low` and `high`, both included |
| RandomPivotQuickSort.Partition | QuickSort_Array/src/com/jvarghe/QuickSort_Integers.java:72-158 | the returned pivot index is inside the range; everything left of it is at most the pivot and everything right of it is above it; nothing outside the range changes; the multiset is unchanged |
| RandomPivotQuickSort.SortAfterPartition | QuickSort_Array/src/com/jvarghe/QuickSort_Integers.java:47-57 | partitioning, then sorting left of the pivot and then right of it, sorts the whole range as a permutation of the original |
| RandomPivotQuickSort.QuickSort | QuickSort_Array/src/com/jvarghe/QuickSort_Integers.java:33-59 | `array[startIndex..endIndex]` becomes ascending, holds the same multiset, and nothing outside it changes; empty and one-element ranges included |
| RandomPivotQuickSort.SortByAscendingOrder | QuickSort_Array/src/com/jvarghe/QuickSort_Integers.java:12-21 | a non-null array becomes ascending with the same multiset; a null array is left alone |
| RandomPivotQuickSort.SortSortedIsIdentity | QuickSort_Array/src/com/jvarghe/QuickSort_Integers.java:12-21 | sorting an already ascending array leaves every element where it was |
| RandomPivotQuickSort.SortSample | QuickSort_Array/src/com/jvarghe/Main.java:326-337 | the demonstration data sorts to `[-3891, -12, 0, 20, 73, 83, 83, 85, 292, 92384]` |
| SortedSeqs.SortedUnique | QuickSort_Array/src/com/jvarghe/QuickSort_Integers.java:33-59 | two ascending sequences with the same multiset are equal, so a sort's result is determined by its input |
| MiddlePivotQuickSort.QuickSortArray.constructor | QuickSort_Array/src/com/jvarghe/QuickSort_Array.java:114 | the class array starts out holding the sample data |
| MiddlePivotQuickSort.QuickSortArray.ScanToStops | QuickSort_Array/src/com/jvarghe/QuickSort_Array.java:169-176 | the left scan stops at the first element from `leftIndex` on that is not below the pivot and the right scan at the first element from `rightIndex` down that is not above it; both stop inside the range, and in the first round on either side of the pivot's position |
| MiddlePivotQuickSort.QuickSortArray.ScanAndSwap | QuickSort_Array/src/com/jvarghe/QuickSort_Array.java:169-194 | the scans stop where ScanToStops says; when the stops have not crossed the two elements there are exchanged and both indices then move one step inward, and otherwise the array is unchanged and the indices are the stops; on the first round the range is then split around the pivot; on later rounds of an already sorted range the array is unchanged; the range keeps its multiset and nothing outside it changes |
| MiddlePivotQuickSort.QuickSortArray.SortBothSides | QuickSort_Array/src/com/jvarghe/QuickSort_Array.java:196-200 | the two guarded recursive calls on `[startingIndex, rightIndex]` and `[leftIndex, endingIndex]` leave the whole range ascending, as a permutation that touches nothing outside it |
| MiddlePivotQuickSort.QuickSortArray.QuickSort | QuickSort_Array/src/com/jvarghe/QuickSort_Array.java:126-202 | `arr[startingIndex..endingIndex]` becomes ascending with the same multiset, and nothing outside it changes, although the recursion runs inside the loop on every round |
| MiddlePivotQuickSort.FirstRoundSorted | QuickSort_Array/src/com/jvarghe/QuickSort_Array.java:184-200 | after the first round's split and both recursive sorts the range is ascending, whether the two sub-ranges overlap or not |
| MiddlePivotQuickSort.QuickSortArray.SortAll | QuickSort_Array/src/com/jvarghe/QuickSort_Array.java:117-123 | `quickSort(0, length - 1)` leaves the class array ascending with the same multiset |
| MiddlePivotQuickSort.SortClassSample | QuickSort_Array/src/com/jvarghe/QuickSort_Array.java:114-123 | the class's data sorts to `[-3891, -12, 0, 20, 73, 83, 83, 85, 292, 92384]` |
| InsertionSorting.SortInAscendingOrder | InsertionSort_Array/src/com/jvarghe/InsertionSort.java:299-328 | the array is reordered in place and is the array returned; its contents become the insertion sort of the old contents, which have the same multiset and, for a lawful comparison, are ascending; arrays of length 0 and 1 come back unchanged for any comparison |
| InsertionSorting.Sort | InsertionSort_Array/src/com/jvarghe/InsertionSort.java:331-388 | element `i` moves left by adjacent swaps past every element it compares strictly below, and stops at the first one it is not less than; positions after `i` do not change |
| InsertionSorting.InsertionSortPermutes | InsertionSort_Array/src/com/jvarghe/InsertionSort.java:354-380 | insertion sort rearranges its input: the multiset is unchanged |
| InsertionSorting.InsertionSortSorts | InsertionSort_Array/src/com/jvarghe/InsertionSort.java:322-325 | for a comparison that flips sign with its arguments and is transitive, the result is ascending |
| InsertionSorting.InsertionSortStable | InsertionSort_Array/src/com/jvarghe/InsertionSort.java:373 | the strict comparison never swaps equal elements, so for every key the elements equivalent to it come out in the order they went in |
| InsertionSorting.SortedInputUnchanged | InsertionSort_Array/src/com/jvarghe/InsertionSort.java:322 | for a lawful comparison, an ascending input comes back unchanged |
| SelectionSorting.FindSmallest | SelectionSort_Array/src/com/jvarghe/SelectionSort.java:31-46 | the inner loop finds the smallest value from position `i` on, and the first index where it occurs |
| SelectionSorting.SelectStep | SelectionSort_Array/src/com/jvarghe/SelectionSort.java:48-54 | one round, with its swap only when the smallest value is below the current one, extends the ascending prefix, none of whose elements exceeds a later one, by one position, and keeps the multiset |
| SelectionSorting.SelectionSortInPlace | SelectionSort_Array/src/com/jvarghe/SelectionSort.java:29-55 | the array becomes ascending with the same multiset; arrays of length 0 and 1 are not touched |
| SelectionSorting.SelectionSort.constructor | SelectionSort_Array/src/com/jvarghe/SelectionSort.java:6 | the array field starts out null |
| SelectionSorting.SelectionSort.SetIntegerArray | SelectionSort_Array/src/com/jvarghe/SelectionSort.java:9-12 | the field refers to the given array |
| SelectionSorting.SelectionSort.Execute | SelectionSort_Array/src/com/jvarghe/SelectionSort.java:16-58 | the field and the result are the argument array itself, not a copy, and that array is sorted in place |
| SelectionSorting.SelectionSortArray.constructor | SelectionSort_Array/src/com/jvarghe/SelectionSort_Array.java:35 | the class array is a new array holding `{78, -23, 0, 14, 9843, 283, -76}` |
| SelectionSorting.SelectionSortArray.SelectionSort | SelectionSort_Array/src/com/jvarghe/SelectionSort_Array.java:44-81 | the class's own array becomes ascending with the same multiset |
| SelectionSorting.SortSample | SelectionSort_Array/src/com/jvarghe/SelectionSort_Array.java:35-39 | the fixed data `{78, -23, 0, 14, 9843, 283, -76}` ends as `[-76, -23, 0, 14, 78, 283, 9843]` |
| BinarySearching.FindValue | BinarySearch_Array/src/com/jvarghe/BinarySearch_Integers.java:9-73 | every probe is in bounds; the loop terminates; the result is -1, -99 or an index holding the search value; on an ascending array the result is an index exactly when the value is present, -1 exactly when the array is empty or every element is below the value, and -99 otherwise; the array is not changed |
| BinarySearching.SearchFixedData | BinarySearch_Array/src/com/jvarghe/BinarySearch_Array.java:30-85 | on the fixed data with target 999 the search gives index 8 |
| BinarySearching.PrintedReport | BinarySearch_Array/src/com/jvarghe/BinarySearch_Integers.java:79-90 | the printer says "not found" exactly for -99 and reports every other result, -1 included, as the index at which the value was found |
| BinarySearching.SearchAboveEveryElement | BinarySearch_Array/src/com/jvarghe/BinarySearch_Integers.java:13-79 | searching the fixed data for 1000, which is absent, gives -1, a value the printer reports as found |
| BinarySearching.FindValueOrNotFound | BinarySearch_Array/src/com/jvarghe/BinarySearch_Integers.java:9-90 | the corrected search: the result is -99 or an index holding the value, and on an ascending array the printer reports "found" exactly when the value is present |
| BinarySearching.SearchFixedDataOrNotFound | BinarySearch_Array/src/com/jvarghe/BinarySearch_Array.java:30-32 | the corrected search finds 999 at index 8 and reports 1000 as not found |
| LinkedLists.Node.constructor | LinkedList/src/com/jvarghe/Node.java:22-26 | a new node holds the given element and no successor |
| LinkedLists.Node.GetElement | LinkedList/src/com/jvarghe/Node.java:30-33 | returns the stored element |
| LinkedLists.Node.SetElement | LinkedList/src/com/jvarghe/Node.java:36-39 | stores the element and keeps the successor |
| LinkedLists.Node.GetNextNode | LinkedList/src/com/jvarghe/Node.java:43-46 | returns the stored successor |
| LinkedLists.Node.SetNextNode | LinkedList/src/com/jvarghe/Node.java:49-52 | stores the successor and keeps the element |
| LinkedLists.NodeAccessors | LinkedList/src/com/jvarghe/Node.java:22-52 | the getters give back what the constructor and the setters stored: the element, the null successor of a new node, and the node set as successor, read back with its own element; each setter leaves the other field alone |
| LinkedLists.LinkedList.constructor | LinkedList/src/com/jvarghe/LinkedList.java:26-34 | a new list has a null head and is empty |
| LinkedLists.LinkedList.CountElements | LinkedList/src/com/jvarghe/LinkedList.java:39-66 | 0 for a null head, and otherwise the number of nodes reached from the head, which is the length of the list |
| LinkedLists.LinkedList.PopFirstElement | LinkedList/src/com/jvarghe/LinkedList.java:72-88 | an empty list gives no element and stays empty; otherwise the head's element is returned and the list becomes its tail |
| LinkedLists.LinkedList.AddNode | LinkedList/src/com/jvarghe/LinkedList.java:93-117 | on an empty list the result is the one-element list; on any other list the walk ends at null and the store through it fails with a null-pointer exception, leaving the list as it was |
| LinkedLists.AddNodeTwice | LinkedList/src/com/jvarghe/LinkedList.java:93-117 | adding to a new list succeeds once; the second add fails, and the list still counts one element |
| LinkedLists.LinkedList.LinkAfterLast | LinkedList/src/com/jvarghe/LinkedList.java:113-115 | the corrected last step of the append: the last node's successor becomes a new node holding the element, so the list gains it at its end |
| LinkedLists.LinkedList.AppendNode | LinkedList/src/com/jvarghe/LinkedList.java:93-117 | the corrected append: the new element ends up at the end of the list |
| LinkedLists.AppendNodeTwice | LinkedList/src/com/jvarghe/LinkedList.java:93-117 | two corrected appends give a two-element list whose elements pop off in the order they were added |
| LinkedLists.LinkedList.InsertElementAtIndex | LinkedList/src/com/jvarghe/LinkedList.java:121-141 | index 0 puts the element in front and makes the old list its tail; every other index, including one larger than the length, leaves the list and its head unchanged |
| LinkedLists.LinkedList.PrependElement | LinkedList/src/com/jvarghe/LinkedList.java:137-139 | a new head node holds the element and has the old head as its successor, so the list becomes the element followed by the old list |
| LinkedLists.LinkedList.DeleteAllElements | LinkedList/src/com/jvarghe/LinkedList.java:145-152 | the list becomes empty |
| LinkedLists.InsertThenClear | LinkedList/src/com/jvarghe/LinkedList.java:121-152 | inserting at index 0 prepends and any other index is ignored; after clearing, the count is 0 |

## Left out

- Console output is not modelled: every `print…` method, `Node.toString`, and what each `main` prints. What three `main` methods compute is modelled, by `SortAll`, `SearchFixedData` and `SelectionSorting.SortSample`. The result printer's choice of message is the function `BinarySearching.PrintedReport`; the formatting and the output are not modelled.
- `java.util.Random` is not modelled. `GetPivot` picks any index between `low` and `high`, so every proof holds for every pivot sequence.
- Java's 32-bit `int` is not modelled. Integers are mathematical, so `(lowerBound + upperBound) / 2` and the random-range arithmetic cannot overflow here.
- `Comparable` and `String.compareTo` are not modelled. They become a comparison function `cmp`. Sortedness and stability are proved for a `cmp` that flips sign with its arguments and is transitive, as the `Comparable` contract asks. The permutation property and the link to the functional specification hold for any `cmp`.
- Null elements inside arrays and lists are not modelled. `PopFirstElement` returns `None` where the Java returns null, so a list that stores a null element is outside the model.
- SelectionSorting.SelectionSort.Execute: takes a non-null array only; on null the Java throws a `NullPointerException`, which is not modelled.
- InsertionSorting.SortInAscendingOrder: takes a non-null array only; on null the Java throws a `NullPointerException` when it reads the length, which is not modelled.
- BinarySearching.FindValue: takes a non-null array only; on null the Java throws a `NullPointerException` when it reads the length, which is not modelled. The same holds for FindValueOrNotFound.
- Java `static` fields are modelled as fields of one object: the arrays of `QuickSort_Array`, `SelectionSort` and `SelectionSort_Array`. The Java programs create no instance: every member is static. The model uses one object per program, so sharing a static field between several objects is not modelled.
- InsertionSorting: the element type is declared `T(!new)`, because the laws of the comparison quantify over all its values. Such a type holds no references, so elements are modelled as plain values, and no class type such as a `Comparable` object can be sorted. A Java `Comparable` object is represented only by its value. This is sound for this sort, because `sort` compares elements and moves them between positions but never tests their identity or changes them.
- MiddlePivotQuickSort.QuickSortArray.QuickSort: requires a non-empty range, `startingIndex <= endingIndex`. Every call in the program meets this, from `main` on the fixed data or from the guarded recursive calls.
- MiddlePivotQuickSort.QuickSortArray.SortAll: requires a non-empty array, as the fixed data is.
- Some loop bodies are moved into helper methods with their own contracts, with the statements in the Java's order:
  - `ScanToStops`, `ScanAndSwap` and `SortBothSides` (middle-pivot quicksort);
  - `FindSmallest` (selection sort);
  - `PrependElement` (insert at index 0);
  - `LinkAfterLast` (the corrected append).
- PrependElement: the new node gets the old head as its successor before `head` is reassigned. The Java does these the other way round; the resulting list is the same.
- The loop in `BinarySearch_Array.main` is the loop of `findValue`, statement for statement. `SearchFixedData` calls `FindValue` on the same fixed data.
- A second `main` in the selection sort program calls a method that does not exist, and the binary search program's `Main.java` does not compile. Both are not part of this model.
- Time-complexity claims are not modelled.
- The unused CORBA import and the `Cloneable` marker in `LinkedList` have no behaviour and are not modelled.

## Findings

| source | as written | input that shows it | evidently intended | confidence | as-written member | corrected member |
|---|---|---|---|---|---|---|
| LinkedList/src/com/jvarghe/LinkedList.java:104-115 | the walk continues while `currentNode != null`, so the following `setNextNode` call goes through a null reference | any non-empty list, e.g. a second `addNode` on a new list | walk while the successor is not null, then link the new node after the last node | high; not executed | LinkedLists.AddNodeTwice | LinkedLists.AppendNodeTwice |
| BinarySearch_Array/src/com/jvarghe/BinarySearch_Integers.java:13-90 | the index starts at -1 and becomes -99 only after a probe above the search value; the printer treats every code but -99 as a match | `{1, 19, 58, 293, 823, 854, 900, 927, 999}` searched for 1000 gives -1, printed as "found at index -1" | every miss yields -99, the code the printer reads as "not found" | medium; not executed | BinarySearching.SearchAboveEveryElement | BinarySearching.FindValueOrNotFound |
