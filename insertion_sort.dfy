/** Generic insertion sort: every element from the second on is moved left by
    adjacent swaps for as long as it compares strictly below its left
    neighbour. The element type is abstract; its order is a comparison
    function returning a negative, zero or positive number, as a Java
    `compareTo` does. */
module InsertionSorting {

  /** What the Java `Comparable` contract asks of `compareTo`, in the part the
      sort relies on: swapping the arguments flips the sign, and "at most" is
      transitive. Together they make `cmp` a total preorder. */
  ghost predicate Comparator<T(!new)>(cmp: (T, T) -> int)
  {
    (forall x, y :: cmp(x, y) < 0 <==> cmp(y, x) > 0) &&
    (forall x, y, z :: cmp(x, y) <= 0 && cmp(y, z) <= 0 ==> cmp(x, z) <= 0)
  }

  /** `s` is in ascending order under `cmp`. */
  ghost predicate SortedBy<T>(s: seq<T>, cmp: (T, T) -> int)
  {
    forall i, j :: 0 <= i < j < |s| ==> cmp(s[i], s[j]) <= 0
  }

  /** The elements of `s` that `cmp` ranks equal to `key`, in their order in `s`. */
  function EquivalentTo<T>(s: seq<T>, key: T, cmp: (T, T) -> int): (r: seq<T>)
    ensures |r| <= |s|
    ensures forall i :: 0 <= i < |r| ==> cmp(r[i], key) == 0
  {
    if |s| == 0 then []
    else EquivalentTo(s[..|s| - 1], key, cmp) + (if cmp(s[|s| - 1], key) == 0 then [s[|s| - 1]] else [])
  }

  /** One run of the inner loop: `x` sits just after `prefix` and moves left
      past every element it compares strictly below, stopping at the first
      element it is not less than. */
  function InsertFromBack<T>(prefix: seq<T>, x: T, cmp: (T, T) -> int): (r: seq<T>)
    ensures |r| == |prefix| + 1
  {
    if |prefix| == 0 then [x]
    else if cmp(x, prefix[|prefix| - 1]) < 0 then InsertFromBack(prefix[..|prefix| - 1], x, cmp) + [prefix[|prefix| - 1]]
    else prefix + [x]
  }

  /** The outer loop: the elements of `s` inserted one after another. */
  function InsertionSorted<T>(s: seq<T>, cmp: (T, T) -> int): (r: seq<T>)
    ensures |r| == |s|
  {
    if |s| == 0 then [] else InsertFromBack(InsertionSorted(s[..|s| - 1], cmp), s[|s| - 1], cmp)
  }

  /** Sorts `unsortedArray` in place and hands back the same array: its
      contents become InsertionSorted of the old contents, which is a
      rearrangement of them and, for a lawful comparison, ascending. */
  method SortInAscendingOrder<T(!new)>(unsortedArray: array<T>, cmp: (T, T) -> int) returns (sortedArray: array<T>)
    modifies unsortedArray
    ensures sortedArray == unsortedArray
    ensures unsortedArray[..] == InsertionSorted(old(unsortedArray[..]), cmp)
    ensures multiset(unsortedArray[..]) == old(multiset(unsortedArray[..]))
    ensures Comparator(cmp) ==> SortedBy(unsortedArray[..], cmp)
    ensures unsortedArray.Length <= 1 ==> unsortedArray[..] == old(unsortedArray[..])
  {
    ghost var input := unsortedArray[..];
    var i := 1;
    while i < unsortedArray.Length
      invariant unsortedArray.Length == 0 || 1 <= i <= unsortedArray.Length
      invariant unsortedArray.Length == 0 ||
                unsortedArray[..] == InsertionSorted(input[..i], cmp) + input[i..]
      decreases unsortedArray.Length - i
    {
      ghost var before := unsortedArray[..];
      Sort(i, unsortedArray, cmp);
      SortStep(input, before, unsortedArray[..], i, cmp);
      i := i + 1;
    }
    if unsortedArray.Length > 0 {
      assert input[..unsortedArray.Length] == input;
      assert input[unsortedArray.Length..] == [];
    } else {
      assert unsortedArray[..] == [] == InsertionSorted(input, cmp);
    }
    InsertionSortPermutes(input, cmp);
    if Comparator(cmp) {
      InsertionSortSorts(input, cmp);
    }
    sortedArray := unsortedArray;
  }

  /** The outer loop's step: inserting the next element extends the sorted prefix by one. */
  lemma {:induction false} SortStep<T>(input: seq<T>, before: seq<T>, after: seq<T>, i: int, cmp: (T, T) -> int)
    requires 1 <= i < |input| == |before|
    requires before == InsertionSorted(input[..i], cmp) + input[i..]
    requires after == InsertFromBack(before[..i], before[i], cmp) + before[i + 1..]
    ensures after == InsertionSorted(input[..i + 1], cmp) + input[i + 1..]
  {
    assert before[..i] == InsertionSorted(input[..i], cmp);
    assert before[i] == input[i];
    assert before[i + 1..] == input[i + 1..];
    assert input[..i + 1][..i] == input[..i];
  }

  /** Moves `unsorted[i]` left by adjacent swaps while it compares strictly
      below its left neighbour; the positions after `i` are not touched. */
  method Sort<T>(i: int, unsorted: array<T>, cmp: (T, T) -> int)
    requires 0 <= i < unsorted.Length
    modifies unsorted
    ensures unsorted[..] == InsertFromBack(old(unsorted[..])[..i], old(unsorted[i]), cmp) + old(unsorted[..])[i + 1..]
  {
    ghost var start := unsorted[..];
    ghost var x := unsorted[i];
    var primeIndex := i;
    assert unsorted[..] == Moving(start, x, i, i);
    while primeIndex > 0
      invariant 0 <= primeIndex <= i
      invariant unsorted[..] == Moving(start, x, i, primeIndex)
      invariant PassedOver(start, x, i, primeIndex, cmp)
      decreases primeIndex
    {
      var primeElement := unsorted[primeIndex];
      var primeMinusOneElement := unsorted[primeIndex - 1];
      ghost var current := unsorted[..];
      InsertionPointFacts(start, current, x, i, primeIndex);
      if cmp(primeElement, primeMinusOneElement) < 0 {
        unsorted[primeIndex - 1] := primeElement;
        unsorted[primeIndex] := primeMinusOneElement;
        MoveLeft(start, current, unsorted[..], x, i, primeIndex, cmp);
        primeIndex := primeIndex - 1;
      } else {
        break;
      }
    }
    StopHere(start, x, i, primeIndex, cmp);
  }

  /** The array while the inner loop runs: `x`, taken from position `i` of
      `start`, now sits at position `p` and the elements it has passed over
      have each moved one place right. */
  ghost function Moving<T>(start: seq<T>, x: T, i: int, p: int): seq<T>
    requires 0 <= p <= i < |start|
  {
    start[..p] + [x] + start[p..i] + start[i + 1..]
  }

  /** The elements that `x` has passed over are those InsertFromBack moves it past. */
  ghost predicate PassedOver<T>(start: seq<T>, x: T, i: int, p: int, cmp: (T, T) -> int)
    requires 0 <= p <= i < |start|
  {
    InsertFromBack(start[..i], x, cmp) == InsertFromBack(start[..p], x, cmp) + start[p..i]
  }

  /** Where the inner loop stops, at the front or before an element `x` is
      not less than, the array is the insertion of `x`. */
  lemma {:induction false} StopHere<T>(start: seq<T>, x: T, i: int, p: int, cmp: (T, T) -> int)
    requires 0 <= p <= i < |start|
    requires PassedOver(start, x, i, p, cmp)
    requires p == 0 || cmp(x, start[p - 1]) >= 0
    ensures Moving(start, x, i, p) == InsertFromBack(start[..i], x, cmp) + start[i + 1..]
  {
    assert InsertFromBack(start[..p], x, cmp) == start[..p] + [x];
  }

  /** Reading the two cells the inner loop compares, from the shape its invariant gives the array. */
  lemma {:induction false} InsertionPointFacts<T>(start: seq<T>, current: seq<T>, x: T, i: int, p: int)
    requires 0 < p <= i < |start|
    requires current == Moving(start, x, i, p)
    ensures |current| == |start| && current[p] == x && current[p - 1] == start[p - 1]
  {
    assert current[p] == ([x] + start[p..i] + start[i + 1..])[0];
  }

  /** One adjacent swap of the inner loop moves `x` one place left. */
  lemma {:induction false} MoveLeft<T>(start: seq<T>, current: seq<T>, next: seq<T>, x: T, i: int, p: int,
                                       cmp: (T, T) -> int)
    requires 0 < p <= i < |start|
    requires current == Moving(start, x, i, p)
    requires next == current[p - 1 := x][p := start[p - 1]]
    requires PassedOver(start, x, i, p, cmp)
    requires cmp(x, start[p - 1]) < 0
    ensures next == Moving(start, x, i, p - 1)
    ensures PassedOver(start, x, i, p - 1, cmp)
  {
    assert start[..p][..p - 1] == start[..p - 1];
    assert start[p - 1..i] == [start[p - 1]] + start[p..i];
    assert InsertFromBack(start[..p], x, cmp) == InsertFromBack(start[..p - 1], x, cmp) + [start[p - 1]];
    var expected := start[..p - 1] + [x] + start[p - 1..i] + start[i + 1..];
    assert |next| == |expected|;
    forall k | 0 <= k < |next| ensures next[k] == expected[k] {
      if k < p - 1 {
        assert next[k] == current[k] == start[k];
      } else if k == p - 1 {
      } else if k == p {
      } else {
        assert next[k] == current[k];
      }
    }
  }

  /** Inserting adds exactly `x` to the elements. */
  lemma {:induction false} InsertPermutes<T>(prefix: seq<T>, x: T, cmp: (T, T) -> int)
    ensures multiset(InsertFromBack(prefix, x, cmp)) == multiset(prefix) + multiset{x}
    decreases |prefix|
  {
    if |prefix| > 0 && cmp(x, prefix[|prefix| - 1]) < 0 {
      var init := prefix[..|prefix| - 1];
      InsertPermutes(init, x, cmp);
      assert prefix == init + [prefix[|prefix| - 1]];
    }
  }

  /** Insertion sort rearranges its input: the result holds the same multiset. */
  lemma {:induction false} InsertionSortPermutes<T>(s: seq<T>, cmp: (T, T) -> int)
    ensures multiset(InsertionSorted(s, cmp)) == multiset(s)
    decreases |s|
  {
    if |s| > 0 {
      var init := s[..|s| - 1];
      InsertionSortPermutes(init, cmp);
      InsertPermutes(InsertionSorted(init, cmp), s[|s| - 1], cmp);
      assert s == init + [s[|s| - 1]];
    }
  }

  /** Every element of an insertion is `x` or an element of the prefix. */
  lemma {:induction false} InsertElements<T>(prefix: seq<T>, x: T, cmp: (T, T) -> int)
    ensures forall y :: y in InsertFromBack(prefix, x, cmp) ==> y == x || y in prefix
  {
    InsertPermutes(prefix, x, cmp);
    forall y | y in InsertFromBack(prefix, x, cmp) ensures y == x || y in prefix {
      assert y in multiset(InsertFromBack(prefix, x, cmp));
    }
  }

  /** Inserting into a sorted prefix gives a sorted sequence. */
  lemma {:induction false} InsertKeepsSorted<T(!new)>(prefix: seq<T>, x: T, cmp: (T, T) -> int)
    requires Comparator(cmp)
    requires SortedBy(prefix, cmp)
    ensures SortedBy(InsertFromBack(prefix, x, cmp), cmp)
    decreases |prefix|
  {
    if |prefix| > 0 {
      var last := prefix[|prefix| - 1];
      var init := prefix[..|prefix| - 1];
      if cmp(x, last) < 0 {
        var t := InsertFromBack(init, x, cmp);
        InsertKeepsSorted(init, x, cmp);
        InsertElements(init, x, cmp);
        forall k | 0 <= k < |t| ensures cmp(t[k], last) <= 0 {
          assert t[k] in t;
          if t[k] != x {
            var m :| 0 <= m < |init| && init[m] == t[k];
            assert prefix[m] == t[k];
          }
        }
        AppendSorted(t, last, cmp);
      } else {
        AppendAfterLast(prefix, x, cmp);
      }
    }
  }

  /** An element not below the last element of a sorted sequence may be added at its end. */
  lemma {:induction false} AppendAfterLast<T(!new)>(prefix: seq<T>, x: T, cmp: (T, T) -> int)
    requires Comparator(cmp)
    requires SortedBy(prefix, cmp)
    requires |prefix| > 0 && cmp(x, prefix[|prefix| - 1]) >= 0
    ensures SortedBy(prefix + [x], cmp)
  {
    var last := prefix[|prefix| - 1];
    assert cmp(last, x) <= 0;
    forall k | 0 <= k < |prefix| ensures cmp(prefix[k], x) <= 0 {
      assert cmp(prefix[k], last) <= 0 || k == |prefix| - 1;
    }
    AppendSorted(prefix, x, cmp);
  }

  /** A sorted sequence stays sorted when an element at least as large as all
      of it is added at the end. */
  lemma {:induction false} AppendSorted<T>(t: seq<T>, y: T, cmp: (T, T) -> int)
    requires SortedBy(t, cmp)
    requires forall k :: 0 <= k < |t| ==> cmp(t[k], y) <= 0
    ensures SortedBy(t + [y], cmp)
  {
  }

  /** Insertion sort produces an ascending sequence. */
  lemma {:induction false} InsertionSortSorts<T(!new)>(s: seq<T>, cmp: (T, T) -> int)
    requires Comparator(cmp)
    ensures SortedBy(InsertionSorted(s, cmp), cmp)
    decreases |s|
  {
    if |s| > 0 {
      InsertionSortSorts(s[..|s| - 1], cmp);
      InsertKeepsSorted(InsertionSorted(s[..|s| - 1], cmp), s[|s| - 1], cmp);
    }
  }

  lemma {:induction false} EquivalentToAppend<T>(s: seq<T>, y: T, key: T, cmp: (T, T) -> int)
    ensures EquivalentTo(s + [y], key, cmp) == EquivalentTo(s, key, cmp) + (if cmp(y, key) == 0 then [y] else [])
  {
    assert (s + [y])[..|s|] == s;
  }

  /** `x` only moves past elements it is strictly below, none of which is
      equivalent to it, so an insertion keeps the order of equivalent elements. */
  lemma {:induction false} InsertKeepsEquivalentOrder<T(!new)>(prefix: seq<T>, x: T, key: T, cmp: (T, T) -> int)
    requires Comparator(cmp)
    ensures EquivalentTo(InsertFromBack(prefix, x, cmp), key, cmp) ==
            EquivalentTo(prefix, key, cmp) + (if cmp(x, key) == 0 then [x] else [])
    decreases |prefix|
  {
    if |prefix| == 0 {
      EquivalentToAppend([], x, key, cmp);
    } else if cmp(x, prefix[|prefix| - 1]) < 0 {
      InsertKeepsEquivalentOrder(prefix[..|prefix| - 1], x, key, cmp);
      StrictlyBelowNotEquivalent(x, prefix[|prefix| - 1], key, cmp);
      MovePastKeepsEquivalentOrder(prefix, x, key, cmp);
    } else {
      EquivalentToAppend(prefix, x, key, cmp);
    }
  }

  /** The step of InsertKeepsEquivalentOrder where `x` moves past the last
      element of the prefix, which is not equivalent to `x`. */
  lemma {:induction false} MovePastKeepsEquivalentOrder<T>(prefix: seq<T>, x: T, key: T, cmp: (T, T) -> int)
    requires |prefix| > 0 && cmp(x, prefix[|prefix| - 1]) < 0
    requires !(cmp(x, key) == 0 && cmp(prefix[|prefix| - 1], key) == 0)
    requires EquivalentTo(InsertFromBack(prefix[..|prefix| - 1], x, cmp), key, cmp) ==
             EquivalentTo(prefix[..|prefix| - 1], key, cmp) + (if cmp(x, key) == 0 then [x] else [])
    ensures EquivalentTo(InsertFromBack(prefix, x, cmp), key, cmp) ==
            EquivalentTo(prefix, key, cmp) + (if cmp(x, key) == 0 then [x] else [])
  {
    var last := prefix[|prefix| - 1];
    var init := prefix[..|prefix| - 1];
    var front := EquivalentTo(init, key, cmp);
    var fromX: seq<T> := if cmp(x, key) == 0 then [x] else [];
    var fromLast: seq<T> := if cmp(last, key) == 0 then [last] else [];
    assert prefix == init + [last];
    assert InsertFromBack(prefix, x, cmp) == InsertFromBack(init, x, cmp) + [last];
    EquivalentToAppend(InsertFromBack(init, x, cmp), last, key, cmp);
    EquivalentToAppend(init, last, key, cmp);
    assert EquivalentTo(InsertFromBack(prefix, x, cmp), key, cmp) == (front + fromX) + fromLast;
    assert EquivalentTo(prefix, key, cmp) + fromX == (front + fromLast) + fromX;
    if fromX == [] {
      assert front + fromX == front;
      assert (front + fromLast) + fromX == front + fromLast;
    } else {
      assert fromLast == [];
      assert front + fromLast == front;
      assert (front + fromX) + fromLast == front + fromX;
    }
  }

  /** If `x` is at most `y`, then `y` is not below `x`. */
  lemma {:induction false} NotBelow<T(!new)>(x: T, y: T, cmp: (T, T) -> int)
    requires Comparator(cmp)
    requires cmp(x, y) <= 0
    ensures !(cmp(y, x) < 0)
  {
  }

  /** Two elements equivalent to the same key are not strictly ordered. */
  lemma {:induction false} StrictlyBelowNotEquivalent<T(!new)>(x: T, y: T, key: T, cmp: (T, T) -> int)
    requires Comparator(cmp)
    requires cmp(x, y) < 0
    ensures !(cmp(x, key) == 0 && cmp(y, key) == 0)
  {
  }

  /** The sort is stable: for every key, the elements equivalent to it come
      out in the order they went in. */
  lemma {:induction false} InsertionSortStable<T(!new)>(s: seq<T>, key: T, cmp: (T, T) -> int)
    requires Comparator(cmp)
    ensures EquivalentTo(InsertionSorted(s, cmp), key, cmp) == EquivalentTo(s, key, cmp)
    decreases |s|
  {
    if |s| > 0 {
      var init := s[..|s| - 1];
      InsertionSortStable(init, key, cmp);
      InsertKeepsEquivalentOrder(InsertionSorted(init, cmp), s[|s| - 1], key, cmp);
    }
  }

  /** An input that is already ascending comes back unchanged; in particular
      inputs of length 0 and 1. */
  lemma {:induction false} SortedInputUnchanged<T(!new)>(s: seq<T>, cmp: (T, T) -> int)
    requires Comparator(cmp)
    requires SortedBy(s, cmp)
    ensures InsertionSorted(s, cmp) == s
    decreases |s|
  {
    if |s| > 0 {
      var init := s[..|s| - 1];
      assert SortedBy(init, cmp);
      SortedInputUnchanged(init, cmp);
      if |init| > 0 {
        assert cmp(init[|init| - 1], s[|s| - 1]) <= 0;
        NotBelow(init[|init| - 1], s[|s| - 1], cmp);
      }
      assert s == init + [s[|s| - 1]];
    }
  }
}
