/**
 * Reference definitions the sorting routines are proved against: an
 * ascending insertion sort on sequences (the result std::sort promises),
 * the smallest and largest element of a range, and the facts about sorted
 * permutations the drivers share.
 */
module Sorting {
  import opened Simd
  import opened Bitonic

  /** x inserted into a sorted sequence before the first larger element. */
  function Insert(x: int, s: seq<int>): (r: seq<int>)
    ensures |r| == |s| + 1
    decreases |s|
  {
    if |s| == 0 || x <= s[0] then [x] + s else [s[0]] + Insert(x, s[1..])
  }

  /** The ascending arrangement of s. */
  function SortSeq(s: seq<int>): (r: seq<int>)
    ensures |r| == |s|
    decreases |s|
  {
    if |s| == 0 then [] else Insert(s[0], SortSeq(s[1..]))
  }

  lemma {:induction false} InsertMultiset(x: int, s: seq<int>)
    ensures multiset(Insert(x, s)) == multiset{x} + multiset(s)
    decreases |s|
  {
    if |s| > 0 && x > s[0] {
      InsertMultiset(x, s[1..]);
      HeadSplit(s);
    }
  }

  lemma {:induction false} InsertSorted(x: int, s: seq<int>)
    requires Sorted(s)
    ensures Sorted(Insert(x, s))
    ensures |s| > 0 ==> Insert(x, s)[0] == Min(x, s[0])
    decreases |s|
  {
    if |s| > 0 && x > s[0] {
      InsertSorted(x, s[1..]);
      var t := Insert(x, s[1..]);
      var u := [s[0]] + t;
      assert |t| > 0 && s[0] <= t[0] by {
        if |s| > 1 {
          assert t[0] == Min(x, s[1]) && s[0] <= s[1];
        } else {
          assert t == [x];
        }
      }
      forall i, j | 0 <= i < j < |u| ensures u[i] <= u[j] {
        assert u[j] == t[j - 1];
        if i > 0 {
          assert u[i] == t[i - 1];
        } else {
          assert t[0] <= t[j - 1];
        }
      }
      assert Insert(x, s) == u;
    }
  }

  /** SortSeq sorts. */
  lemma {:induction false} SortSeqSorted(s: seq<int>)
    ensures Sorted(SortSeq(s))
    decreases |s|
  {
    if |s| > 0 {
      SortSeqSorted(s[1..]);
      InsertSorted(s[0], SortSeq(s[1..]));
    }
  }

  /** SortSeq only rearranges. */
  lemma {:induction false} SortSeqMultiset(s: seq<int>)
    ensures multiset(SortSeq(s)) == multiset(s)
    decreases |s|
  {
    if |s| > 0 {
      SortSeqMultiset(s[1..]);
      InsertMultiset(s[0], SortSeq(s[1..]));
      HeadSplit(s);
    }
  }

  /** A sorted permutation of s is SortSeq(s). */
  lemma SortedIsSortSeq(s: seq<int>, r: seq<int>)
    requires Sorted(r) && multiset(r) == multiset(s)
    ensures r == SortSeq(s)
  {
    SortSeqSorted(s);
    SortSeqMultiset(s);
    SortedUnique(r, SortSeq(s));
  }

  /** Every element of b is an element of a, when both hold the same elements. */
  lemma InRangeMultiset(a: seq<int>, b: seq<int>)
    requires InRange(a) && multiset(a) == multiset(b)
    ensures InRange(b)
  {
    forall i | 0 <= i < |b| ensures TYPE_MIN <= b[i] <= TYPE_MAX {
      assert b[i] in multiset(b);
      var j :| 0 <= j < |a| && a[j] == b[i];
    }
  }

  /** All elements are at least (at most) x. */
  predicate AllGe(s: seq<int>, x: int)
  {
    forall i :: 0 <= i < |s| ==> x <= s[i]
  }

  predicate AllLe(s: seq<int>, x: int)
  {
    forall i :: 0 <= i < |s| ==> s[i] <= x
  }

  /**
   * Sorting real elements together with padding that is at least every real
   * element leaves the real elements, sorted, at the front.
   */
  lemma SortedPaddedPrefix(r: seq<int>, s: seq<int>, pad: seq<int>, m: int)
    requires Sorted(r) && multiset(r) == multiset(s) + multiset(pad)
    requires AllLe(s, m) && (forall i :: 0 <= i < |pad| ==> pad[i] == m)
    ensures |r| == |s| + |pad|
    ensures r[..|s|] == SortSeq(s)
  {
    assert |r| == |multiset(r)| == |multiset(s) + multiset(pad)| == |s| + |pad|;
    var t := SortSeq(s) + pad;
    SortSeqSorted(s);
    SortSeqMultiset(s);
    forall i | 0 <= i < |SortSeq(s)| ensures SortSeq(s)[i] <= m {
      assert SortSeq(s)[i] in multiset(s);
    }
    forall i, j | 0 <= i < j < |t| ensures t[i] <= t[j] {
      if j >= |s| {
        assert t[j] == m;
      }
    }
    SortedUnique(r, t);
    assert t[..|s|] == SortSeq(s);
  }

  /** Splitting a slice at any index splits its elements. */
  lemma SliceSplit(s: seq<int>, i: int, j: int, k: int)
    requires 0 <= i <= j <= k <= |s|
    ensures s[i..k] == s[i..j] + s[j..k]
    ensures multiset(s[i..k]) == multiset(s[i..j]) + multiset(s[j..k])
  {
    assert s[i..k] == s[i..j] + s[j..k];
  }
}
