/** Order facts about integer sequences shared by the integer sorts and searches:
    sortedness of an index range, bounds of a range, and the facts that
    relate them to the multiset of a range. */
module SortedSeqs {

  /** Positions `lo .. hi - 1` of `s` are in non-decreasing order. */
  ghost predicate SortedRange(s: seq<int>, lo: int, hi: int)
  {
    forall i, j :: lo <= i < j < hi && 0 <= i && j < |s| ==> s[i] <= s[j]
  }

  ghost predicate Sorted(s: seq<int>)
  {
    SortedRange(s, 0, |s|)
  }

  /** Every element of `s` is at most `x`. */
  ghost predicate AllLe(s: seq<int>, x: int)
  {
    forall i :: 0 <= i < |s| ==> s[i] <= x
  }

  /** Every element of `s` is at least `x`. */
  ghost predicate AllGe(s: seq<int>, x: int)
  {
    forall i :: 0 <= i < |s| ==> x <= s[i]
  }

  /** `s` and `t` have the same length and agree outside positions `lo .. hi - 1`. */
  ghost predicate SameOutside(s: seq<int>, t: seq<int>, lo: int, hi: int)
  {
    |s| == |t| && forall k :: 0 <= k < |s| && !(lo <= k < hi) ==> s[k] == t[k]
  }

  /** `after` is `before` with positions `lo .. hi - 1` rearranged into
      ascending order and every other position unchanged. */
  ghost predicate SortsRange(before: seq<int>, after: seq<int>, lo: int, hi: int)
  {
    SameOutside(before, after, lo, hi) && SortedRange(after, lo, hi) && multiset(after) == multiset(before)
  }

  /** When two sequences agree outside a range and hold the same multiset,
      the range itself holds the same multiset in both. */
  lemma {:induction false} RangeMultiset(s: seq<int>, t: seq<int>, lo: int, hi: int)
    requires 0 <= lo <= hi <= |s|
    requires SameOutside(s, t, lo, hi)
    requires multiset(s) == multiset(t)
    ensures multiset(s[lo..hi]) == multiset(t[lo..hi])
  {
    assert s == s[..lo] + s[lo..hi] + s[hi..];
    assert t == t[..lo] + t[lo..hi] + t[hi..];
    forall k | 0 <= k < lo ensures s[..lo][k] == t[..lo][k] {
      assert s[k] == t[k];
    }
    assert s[..lo] == t[..lo];
    forall k | 0 <= k < |s| - hi ensures s[hi..][k] == t[hi..][k] {
      assert s[hi + k] == t[hi + k];
    }
    assert s[hi..] == t[hi..];
    assert multiset(s[lo..hi]) == multiset(s) - multiset(s[..lo]) - multiset(s[hi..]);
    assert multiset(t[lo..hi]) == multiset(t) - multiset(t[..lo]) - multiset(t[hi..]);
  }

  /** A bound on every element survives any permutation. */
  lemma {:induction false} AllLePermutation(s: seq<int>, t: seq<int>, x: int)
    requires multiset(s) == multiset(t)
    requires AllLe(s, x)
    ensures AllLe(t, x)
  {
    forall i | 0 <= i < |t| ensures t[i] <= x {
      assert t[i] in multiset(t);
      assert t[i] in s;
    }
  }

  lemma {:induction false} AllGePermutation(s: seq<int>, t: seq<int>, x: int)
    requires multiset(s) == multiset(t)
    requires AllGe(s, x)
    ensures AllGe(t, x)
  {
    forall i | 0 <= i < |t| ensures x <= t[i] {
      assert t[i] in multiset(t);
      assert t[i] in s;
    }
  }

  /** In a sorted sequence, the first element is at most, and the last at
      least, any value of its multiset. */
  lemma {:induction false} SortedEnds(s: seq<int>, v: int)
    requires Sorted(s)
    requires v in multiset(s)
    ensures s[0] <= v <= s[|s| - 1]
  {
    assert v in s;
    var k :| 0 <= k < |s| && s[k] == v;
    assert k == 0 || s[0] <= s[k];
    assert k == |s| - 1 || s[k] <= s[|s| - 1];
  }

  /** A sorted sequence is determined by its multiset. */
  lemma {:induction false} SortedUnique(s: seq<int>, t: seq<int>)
    requires Sorted(s) && Sorted(t)
    requires multiset(s) == multiset(t)
    ensures s == t
    decreases |s|
  {
    if |s| == 0 {
      assert |multiset(t)| == 0;
    } else {
      assert |t| == |multiset(t)| == |multiset(s)| == |s|;
      SortedEnds(s, t[0]);
      SortedEnds(t, s[0]);
      assert s[0] == t[0];
      assert s == [s[0]] + s[1..];
      assert t == [t[0]] + t[1..];
      assert multiset(s[1..]) == multiset(s) - multiset{s[0]};
      assert multiset(t[1..]) == multiset(t) - multiset{t[0]};
      SortedUnique(s[1..], t[1..]);
    }
  }

  /** Cardinality is monotone in multiset inclusion. */
  lemma SubMultisetCard(m: multiset<int>, n: multiset<int>)
    requires m <= n
    ensures |m| <= |n|
  {
    assert n == m + (n - m);
  }

  /** If the first `k` elements of `a` are at most `p`, then so are the first `k`
      elements of any sorted permutation `b` of `a`: a sorted sequence holds
      its elements that are at most `p` in a prefix. */
  lemma {:induction false} SortedPrefixBound(a: seq<int>, b: seq<int>, k: int, p: int)
    requires multiset(a) == multiset(b)
    requires 0 <= k <= |a|
    requires AllLe(a[..k], p)
    requires Sorted(b)
    ensures |b| == |a| && AllLe(b[..k], p)
  {
    assert |b| == |multiset(b)| == |multiset(a)| == |a|;
    if k > 0 && b[k - 1] > p {
      var low := multiset(a[..k]);
      var small := multiset(b[..k - 1]);
      var large := multiset(b[k - 1..]);
      assert a == a[..k] + a[k..];
      assert b == b[..k - 1] + b[k - 1..];
      assert multiset(b) == small + large;
      forall x | x in large ensures x > p {
        assert x in b[k - 1..];
        var j :| 0 <= j < |b| - (k - 1) && b[k - 1..][j] == x;
        assert b[k - 1] <= b[k - 1 + j];
      }
      forall x ensures low[x] <= small[x] {
        if x in low {
          assert x in a[..k];
          assert x <= p;
          assert x !in large;
          assert low[x] <= multiset(a)[x];
        }
      }
      assert low <= small;
      SubMultisetCard(low, small);
      assert false;
    }
  }

  /** Sorting a sub-range of a sorted range in place keeps the whole range sorted. */
  lemma {:induction false} ResortKeepsSorted(a: seq<int>, b: seq<int>, s: int, e: int, i: int, j: int)
    requires 0 <= s <= i <= j <= e < |a|
    requires SortedRange(a, s, e + 1)
    requires SortsRange(a, b, i, j + 1)
    ensures SortedRange(b, s, e + 1)
  {
    RangeMultiset(a, b, i, j + 1);
    forall x, y | s <= x < y <= e ensures b[x] <= b[y] {
      if x < i && i <= y <= j {
        assert b[y] == b[i..j + 1][y - i];
        assert b[y] in multiset(a[i..j + 1]);
        var m :| 0 <= m < j + 1 - i && a[i..j + 1][m] == b[y];
        assert a[x] <= a[i + m];
      } else if i <= x <= j && j < y {
        assert b[x] == b[i..j + 1][x - i];
        assert b[x] in multiset(a[i..j + 1]);
        var m :| 0 <= m < j + 1 - i && a[i..j + 1][m] == b[x];
        assert a[i + m] <= a[y];
      }
    }
  }

  /** Agreeing outside a range is transitive. */
  lemma {:induction false} SameOutsideTrans(a: seq<int>, b: seq<int>, c: seq<int>, lo: int, hi: int)
    requires SameOutside(a, b, lo, hi) && SameOutside(b, c, lo, hi)
    ensures SameOutside(a, c, lo, hi)
  {
    forall k | 0 <= k < |a| && !(lo <= k < hi) ensures a[k] == c[k] {
      assert a[k] == b[k];
    }
  }

  /** Permuting a range and then sorting it sorts the original range. */
  lemma {:induction false} PermuteThenSort(a: seq<int>, b: seq<int>, c: seq<int>, lo: int, hi: int)
    requires SameOutside(a, b, lo, hi) && multiset(b) == multiset(a)
    requires SortsRange(b, c, lo, hi)
    ensures SortsRange(a, c, lo, hi)
  {
    SameOutsideTrans(a, b, c, lo, hi);
  }

  /** Two sorted pieces `s .. a - 1` and `b .. e` make a sorted range when some
      `x` bounds everything before `b` from above and everything from `a` on
      from below. */
  lemma {:induction false} JoinSorted(t: seq<int>, s: int, a: int, b: int, e: int, x: int)
    requires SortedRange(t, s, a) && SortedRange(t, b, e + 1)
    requires forall k :: s <= k < b && 0 <= k < |t| ==> t[k] <= x
    requires forall k :: a <= k <= e && 0 <= k < |t| ==> x <= t[k]
    ensures SortedRange(t, s, e + 1)
  {
    forall i, j | s <= i < j < e + 1 && 0 <= i && j < |t| ensures t[i] <= t[j] {
      if j < a {
      } else if b <= i {
      } else {
        assert t[i] <= x <= t[j];
      }
    }
  }
}
