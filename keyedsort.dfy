/**
 * What the quicksort drivers of the key-value sort (kvsort_, kvselect_) and
 * of the argsort (argsort_, argselect_) promise, for elements of any type E
 * compared by `key`: a range sorted by key, or a position selected by key.
 * Both only rearrange the elements of the range and change nothing outside
 * it. The lemmas here combine the partition of KeyedPartition with the two
 * recursive calls, or with a skipped call.
 */
module KeyedSort {
  import opened Simd
  import opened Sorting
  import opened KeyedPartition
  import opened KvSortN
  import opened Comparators

  /** a is a0 outside [lo, hi). */
  ghost predicate Frame<E>(a: seq<E>, a0: seq<E>, lo: int, hi: int)
  {
    0 <= lo <= hi <= |a| == |a0| && a[..lo] == a0[..lo] && a[hi..] == a0[hi..]
  }

  /**
   * a is a0 with [lo, hi) sorted by key: nothing outside the range changes,
   * and the range holds its old elements with their keys ascending.
   */
  ghost predicate KeyedSortedWithin<E>(a: seq<E>, a0: seq<E>, key: E -> int, lo: int, hi: int)
  {
    Frame(a, a0, lo, hi) && multiset(a[lo..hi]) == multiset(a0[lo..hi]) && Sorted(Keys(a[lo..hi], key))
  }

  /** pos is selected by key in [lo, hi): no key before it is larger, none after it smaller. */
  ghost predicate KeySelectedAt<E>(a: seq<E>, key: E -> int, lo: int, hi: int, pos: int)
    requires 0 <= lo && hi <= |a|
  {
    lo <= pos < hi ==>
      (forall k :: lo <= k < pos ==> key(a[k]) <= key(a[pos]))
      && (forall k :: pos < k < hi ==> key(a[pos]) <= key(a[k]))
  }

  /**
   * a is a0 with [lo, hi) rearranged so that pos, when it lies in the range,
   * is selected by key.
   */
  ghost predicate KeyedSelectedWithin<E>(a: seq<E>, a0: seq<E>, key: E -> int, lo: int, hi: int, pos: int)
  {
    Frame(a, a0, lo, hi) && multiset(a[lo..hi]) == multiset(a0[lo..hi]) && KeySelectedAt(a, key, lo, hi, pos)
  }

  /** Every key of s is at most x / at least x. */
  ghost predicate KeysAtMost<E>(s: seq<E>, key: E -> int, x: int)
  {
    forall i :: 0 <= i < |s| ==> key(s[i]) <= x
  }

  ghost predicate KeysAtLeast<E>(s: seq<E>, key: E -> int, x: int)
  {
    forall i :: 0 <= i < |s| ==> x <= key(s[i])
  }

  // ------------------------------------------------------------ slices

  lemma {:induction false} FrameParts<E>(A1: seq<E>, A2: seq<E>, A3: seq<E>, left: int, p: int, hi: int)
    requires Frame(A2, A1, left, p) && Frame(A3, A2, p, hi) && p <= hi
    ensures A3[left..p] == A2[left..p] && A2[p..hi] == A1[p..hi]
    ensures Frame(A3, A1, left, hi)
  {
    assert A3[..p][left..p] == A3[left..p] && A2[..p][left..p] == A2[left..p];
    assert A2[p..][..hi - p] == A2[p..hi] && A1[p..][..hi - p] == A1[p..hi];
    assert A3[..p][..left] == A3[..left] && A2[..p][..left] == A2[..left];
    assert A2[p..][hi - p..] == A2[hi..] && A1[p..][hi - p..] == A1[hi..];
  }

  lemma {:induction false} SplitAt<E>(s: seq<E>, i: int, j: int, k: int)
    requires 0 <= i <= j <= k <= |s|
    ensures s[i..k] == s[i..j] + s[j..k]
    ensures multiset(s[i..k]) == multiset(s[i..j]) + multiset(s[j..k])
  {
    assert s[i..k] == s[i..j] + s[j..k];
  }

  /** Keys of a concatenation. */
  lemma {:induction false} KeysConcat<E>(s: seq<E>, t: seq<E>, key: E -> int)
    ensures Keys(s + t, key) == Keys(s, key) + Keys(t, key)
  {
  }

  // ------------------------------------------------------------ multisets and keys

  /** Rearranging keeps the key bounds. */
  lemma {:induction false} BoundsMultiset<E>(s: seq<E>, t: seq<E>, key: E -> int, x: int)
    requires multiset(s) == multiset(t)
    ensures KeysAtMost(t, key, x) ==> KeysAtMost(s, key, x)
    ensures KeysAtLeast(t, key, x) ==> KeysAtLeast(s, key, x)
  {
    forall i | 0 <= i < |s| ensures exists j :: 0 <= j < |t| && t[j] == s[i] {
      assert s[i] in multiset(t);
    }
  }

  /** A sorted part with keys at most x followed by one with keys at least x is sorted. */
  lemma {:induction false} SortedJoin<E>(L: seq<E>, R: seq<E>, key: E -> int, x: int)
    requires Sorted(Keys(L, key)) && Sorted(Keys(R, key)) && KeysAtMost(L, key, x) && KeysAtLeast(R, key, x)
    ensures Sorted(Keys(L + R, key))
  {
    var t := Keys(L + R, key);
    KeysConcat(L, R, key);
    forall i, j | 0 <= i < j < |t| ensures t[i] <= t[j] {
      if j < |L| {
        assert t[i] == Keys(L, key)[i] && t[j] == Keys(L, key)[j];
      } else if i >= |L| {
        assert t[i] == Keys(R, key)[i - |L|] && t[j] == Keys(R, key)[j - |L|];
      } else {
        assert t[i] == key(L[i]) && t[j] == key(R[j - |L|]);
      }
    }
  }

  /** The parts of a partition, as key bounds on the slices. */
  lemma {:induction false} PartBounds<E>(A1: seq<E>, A0: seq<E>, key: E -> int, left: int, p: int, hi: int,
                                         pivot: int, keepEqual: bool)
    requires Partitioned(A1, A0, key, left, hi, p, pivot, keepEqual)
    ensures KeysAtMost(A1[left..p], key, pivot) && KeysAtLeast(A1[p..hi], key, pivot)
  {
    forall i | 0 <= i < p - left ensures key(A1[left..p][i]) <= pivot {
      assert A1[left..p][i] == A1[left + i];
    }
    forall i | 0 <= i < hi - p ensures pivot <= key(A1[p..hi][i]) {
      assert A1[p..hi][i] == A1[p + i];
    }
  }

  // ------------------------------------------------------------ sort

  /**
   * After the partition and the two recursive calls of kvsort_ / argsort_,
   * the range is sorted by key: the lower part holds, sorted, the keys up to
   * the pivot, the upper part those from the pivot on.
   */
  lemma {:induction false} SortJoin<E>(A0: seq<E>, A1: seq<E>, A2: seq<E>, A3: seq<E>, key: E -> int,
                                       left: int, p: int, hi: int, pivot: int, keepEqual: bool)
    requires Partitioned(A1, A0, key, left, hi, p, pivot, keepEqual)
    requires KeyedSortedWithin(A2, A1, key, left, p) && KeyedSortedWithin(A3, A2, key, p, hi)
    ensures KeyedSortedWithin(A3, A0, key, left, hi)
  {
    FrameParts(A1, A2, A3, left, p, hi);
    assert A1[..left] == A0[..left] && A1[hi..] == A0[hi..];
    PartBounds(A1, A0, key, left, p, hi, pivot, keepEqual);
    var L, R := A3[left..p], A3[p..hi];
    BoundsMultiset(L, A1[left..p], key, pivot);
    BoundsMultiset(R, A1[p..hi], key, pivot);
    SortedJoin(L, R, key, pivot);
    SplitAt(A3, left, p, hi);
    SplitAt(A1, left, p, hi);
  }

  /** A range whose keys are all c is sorted by key as it stands. */
  lemma {:induction false} ConstantSorted<E>(a: seq<E>, key: E -> int, lo: int, hi: int, c: int)
    requires 0 <= lo <= hi <= |a| && forall k :: lo <= k < hi ==> key(a[k]) == c
    ensures KeyedSortedWithin(a, a, key, lo, hi)
  {
    var t := Keys(a[lo..hi], key);
    forall i, j | 0 <= i < j < |t| ensures t[i] <= t[j] {
      assert t[i] == key(a[lo + i]) && t[j] == key(a[lo + j]);
    }
  }

  /**
   * With the pivot equal to the smallest key, the lower part holds only
   * keys equal to the pivot (none at all when equal keys go up).
   */
  lemma {:induction false} LowPartConstant<E>(A1: seq<E>, A0: seq<E>, key: E -> int, left: int, p: int, hi: int,
                                              pivot: int, keepEqual: bool, s: int, b: int)
    requires Partitioned(A1, A0, key, left, hi, p, pivot, keepEqual)
    requires Extremes(A1[left..hi], key, TYPE_MAX, TYPE_MIN, s, b) && pivot == s
    ensures forall k :: left <= k < p ==> key(A1[k]) == pivot
    ensures !keepEqual ==> p == left
  {
    forall k | left <= k < p ensures key(A1[k]) == pivot {
      assert A1[left..hi][k - left] == A1[k];
    }
    if p > left {
      assert Low(key(A1[left]), pivot, keepEqual) && key(A1[left]) == pivot;
    }
  }

  /** With the pivot equal to the largest key, the upper part holds only keys equal to the pivot. */
  lemma {:induction false} HighPartConstant<E>(A1: seq<E>, A0: seq<E>, A2: seq<E>, key: E -> int, left: int,
                                               p: int, hi: int, pivot: int, keepEqual: bool, s: int, b: int)
    requires Partitioned(A1, A0, key, left, hi, p, pivot, keepEqual) && Frame(A2, A1, left, p)
    requires Extremes(A1[left..hi], key, TYPE_MAX, TYPE_MIN, s, b) && pivot == b
    ensures forall k :: p <= k < hi ==> key(A2[k]) == pivot
  {
    forall k | p <= k < hi ensures key(A2[k]) == pivot {
      assert A1[left..hi][k - left] == A1[k];
      assert A2[p..][k - p] == A1[p..][k - p];
    }
  }

  // ------------------------------------------------------------ select

  /** A range sorted by key has every position selected. */
  lemma {:induction false} SortedSelects<E>(a: seq<E>, a0: seq<E>, key: E -> int, lo: int, hi: int, pos: int)
    requires KeyedSortedWithin(a, a0, key, lo, hi)
    ensures KeyedSelectedWithin(a, a0, key, lo, hi, pos)
  {
    if lo <= pos < hi {
      var t := Keys(a[lo..hi], key);
      forall k | lo <= k < pos ensures key(a[k]) <= key(a[pos]) {
        assert t[k - lo] == key(a[k]) && t[pos - lo] == key(a[pos]);
      }
      forall k | pos < k < hi ensures key(a[pos]) <= key(a[k]) {
        assert t[k - lo] == key(a[k]) && t[pos - lo] == key(a[pos]);
      }
    }
  }

  /** The selected key is among the keys of the range, so it keeps their bounds. */
  lemma {:induction false} SelectedBound<E>(a: seq<E>, key: E -> int, lo: int, hi: int, pos: int, x: int)
    requires 0 <= lo <= pos < hi <= |a|
    ensures KeysAtMost(a[lo..hi], key, x) ==> key(a[pos]) <= x
    ensures KeysAtLeast(a[lo..hi], key, x) ==> x <= key(a[pos])
  {
    assert a[lo..hi][pos - lo] == a[pos];
  }

  /**
   * kvselect_ / argselect_ recursing into the lower part: the selection
   * there, with every upper key at least the pivot, selects in the range.
   */
  lemma {:induction false} SelectLower<E>(A0: seq<E>, A1: seq<E>, A2: seq<E>, key: E -> int, left: int, p: int,
                                          hi: int, pivot: int, keepEqual: bool, pos: int)
    requires Partitioned(A1, A0, key, left, hi, p, pivot, keepEqual) && pos < p
    requires KeyedSelectedWithin(A2, A1, key, left, p, pos)
    ensures KeyedSelectedWithin(A2, A0, key, left, hi, pos)
  {
    FrameParts(A1, A2, A2, left, p, hi);
    assert A1[..left] == A0[..left] && A1[hi..] == A0[hi..];
    PartBounds(A1, A0, key, left, p, hi, pivot, keepEqual);
    BoundsMultiset(A2[left..p], A1[left..p], key, pivot);
    LowerSelects(A2, key, left, p, hi, pivot, pos);
    SplitAt(A2, left, p, hi);
    SplitAt(A1, left, p, hi);
  }

  /** A selection in [left, p) with keys there at most x and keys in [p, hi) at least x. */
  lemma {:induction false} LowerSelects<E>(A: seq<E>, key: E -> int, left: int, p: int, hi: int, x: int, pos: int)
    requires 0 <= left <= p <= hi <= |A| && pos < p
    requires KeysAtMost(A[left..p], key, x) && KeysAtLeast(A[p..hi], key, x)
    requires KeySelectedAt(A, key, left, p, pos)
    ensures KeySelectedAt(A, key, left, hi, pos)
  {
    if left <= pos {
      SelectedBound(A, key, left, p, pos, x);
      forall k | p <= k < hi ensures key(A[pos]) <= key(A[k]) {
        assert A[p..hi][k - p] == A[k];
      }
    }
  }

  /** The mirror image: recursing into the upper part, every lower key at most the pivot. */
  lemma {:induction false} SelectUpper<E>(A0: seq<E>, A1: seq<E>, A2: seq<E>, key: E -> int, left: int, p: int,
                                          hi: int, pivot: int, keepEqual: bool, pos: int)
    requires Partitioned(A1, A0, key, left, hi, p, pivot, keepEqual) && p <= pos
    requires KeyedSelectedWithin(A2, A1, key, p, hi, pos)
    ensures KeyedSelectedWithin(A2, A0, key, left, hi, pos)
  {
    FrameParts(A1, A1, A2, left, p, hi);
    assert A1[..left] == A0[..left] && A1[hi..] == A0[hi..];
    PartBounds(A1, A0, key, left, p, hi, pivot, keepEqual);
    BoundsMultiset(A2[p..hi], A1[p..hi], key, pivot);
    UpperSelects(A2, key, left, p, hi, pivot, pos);
    SplitAt(A2, left, p, hi);
    SplitAt(A1, left, p, hi);
  }

  /** A selection in [p, hi) with keys there at least x and keys in [left, p) at most x. */
  lemma {:induction false} UpperSelects<E>(A: seq<E>, key: E -> int, left: int, p: int, hi: int, x: int, pos: int)
    requires 0 <= left <= p <= hi <= |A| && p <= pos
    requires KeysAtMost(A[left..p], key, x) && KeysAtLeast(A[p..hi], key, x)
    requires KeySelectedAt(A, key, p, hi, pos)
    ensures KeySelectedAt(A, key, left, hi, pos)
  {
    if pos < hi {
      SelectedBound(A, key, p, hi, pos, x);
      forall k | left <= k < p ensures key(A[k]) <= key(A[pos]) {
        assert A[left..p][k - left] == A[k];
      }
    }
  }

  /**
   * kvselect_ / argselect_ making no call: pos lies in a part whose keys all
   * equal the pivot (the smallest or the largest key), so the partition
   * alone selects it.
   */
  lemma {:induction false} SelectNoCall<E>(A0: seq<E>, A1: seq<E>, key: E -> int, left: int, p: int, hi: int,
                                           pivot: int, keepEqual: bool, pos: int)
    requires Partitioned(A1, A0, key, left, hi, p, pivot, keepEqual)
    requires pos < p ==> forall k :: left <= k < p ==> key(A1[k]) == pivot
    requires p <= pos ==> forall k :: p <= k < hi ==> key(A1[k]) == pivot
    ensures KeyedSelectedWithin(A1, A0, key, left, hi, pos)
  {
    PartBounds(A1, A0, key, left, p, hi, pivot, keepEqual);
    if left <= pos < hi {
      forall k | left <= k < pos ensures key(A1[k]) <= key(A1[pos]) {
        if k < p { assert A1[left..p][k - left] == A1[k]; }
      }
      forall k | pos < k < hi ensures key(A1[pos]) <= key(A1[k]) {
        if p <= k { assert A1[p..hi][k - p] == A1[k]; }
      }
    }
  }

  // ------------------------------------------------------------ key range

  /** The two parts of a partition of int64 keys hold int64 keys. */
  lemma {:induction false} KeyedPartsInRange<E>(A1: seq<E>, A0: seq<E>, key: E -> int, left: int, p: int, hi: int,
                                                pivot: int, keepEqual: bool)
    requires Partitioned(A1, A0, key, left, hi, p, pivot, keepEqual) && InRange(Keys(A0[left..hi], key))
    ensures InRange(Keys(A1[left..p], key)) && InRange(Keys(A1[p..hi], key))
  {
    BoundsMultiset(A1[left..hi], A0[left..hi], key, TYPE_MAX);
    BoundsMultiset(A1[left..hi], A0[left..hi], key, TYPE_MIN);
    assert KeysAtMost(A1[left..hi], key, TYPE_MAX) && KeysAtLeast(A1[left..hi], key, TYPE_MIN);
    forall i | 0 <= i < p - left ensures TYPE_MIN <= key(A1[left..p][i]) <= TYPE_MAX {
      assert A1[left..p][i] == A1[left..hi][i];
    }
    forall i | 0 <= i < hi - p ensures TYPE_MIN <= key(A1[p..hi][i]) <= TYPE_MAX {
      assert A1[p..hi][i] == A1[left..hi][p - left + i];
    }
  }

  /** What lies beyond the changed range is kept, slice by slice. */
  lemma {:induction false} FrameKeeps<E>(A2: seq<E>, A1: seq<E>, lo: int, p: int, hi: int)
    requires Frame(A2, A1, lo, p) && p <= hi <= |A1|
    ensures A2[p..hi] == A1[p..hi]
  {
    assert A2[p..hi] == A2[p..][..hi - p] && A1[p..hi] == A1[p..][..hi - p];
  }

  // ------------------------------------------------------------ std::reverse

  /** The keys of s in the order of the std::sort comparator of the given direction. */
  predicate OrderedBy(descending: bool, s: seq<int>)
  {
    forall i, j :: 0 <= i < j < |s| ==> !StdSortComparator(descending, s[j], s[i])
  }

  /**
   * Position pos of s is in its place for that order: nothing before it
   * belongs after it, nothing after it belongs before it.
   */
  predicate SelectedBy(descending: bool, s: seq<int>, pos: int)
  {
    0 <= pos < |s| ==>
      (forall j :: 0 <= j < pos ==> !StdSortComparator(descending, s[pos], s[j]))
      && (forall j :: pos < j < |s| ==> !StdSortComparator(descending, s[j], s[pos]))
  }

  function Reversed<E>(s: seq<E>): (r: seq<E>)
    ensures |r| == |s| && forall i :: 0 <= i < |s| ==> r[i] == s[|s| - 1 - i]
  {
    seq(|s|, i requires 0 <= i < |s| => s[|s| - 1 - i])
  }

  /** Reversing a sequence keeps its elements. */
  lemma {:induction false} ReversedMultiset<E>(s: seq<E>)
    ensures multiset(Reversed(s)) == multiset(s)
    decreases |s|
  {
    if s != [] {
      var t := s[1..];
      ReversedMultiset(t);
      assert Reversed(s) == Reversed(t) + [s[0]];
      assert s == [s[0]] + t;
    }
  }

  lemma {:induction false} ReversedKeys<E>(s: seq<E>, key: E -> int)
    ensures Keys(Reversed(s), key) == Reversed(Keys(s, key))
  {
  }

  /** An ascending sequence reversed is in descending order. */
  lemma {:induction false} ReversedOrdered(s: seq<int>)
    requires Sorted(s)
    ensures OrderedBy(true, Reversed(s))
  {
    var r := Reversed(s);
    forall i, j | 0 <= i < j < |r| ensures !StdSortComparator(true, r[j], r[i]) {
      assert s[|s| - 1 - j] <= s[|s| - 1 - i];
    }
  }

  /** Position |s| - 1 - k selected in ascending order is position k selected in descending order, once reversed. */
  lemma {:induction false} ReversedSelected(s: seq<int>, k: int)
    requires 0 <= k < |s| && SelectedBy(false, s, |s| - 1 - k)
    ensures SelectedBy(true, Reversed(s), k)
  {
  }

  lemma {:induction false} SortedOrdered(s: seq<int>)
    requires Sorted(s)
    ensures OrderedBy(false, s)
  {
  }

  /**
   * std::reverse(arr + lo, arr + hi): the ends are exchanged pairwise,
   * moving inwards, until they meet.
   */
  method ReverseRange<E>(arr: array<E>, lo: int, hi: int)
    requires 0 <= lo <= hi <= arr.Length
    modifies arr
    ensures arr[lo..hi] == Reversed(old(arr[lo..hi]))
    ensures Frame(arr[..], old(arr[..]), lo, hi)
  {
    var i, j := lo, hi;
    while i + 1 < j
      invariant lo <= i <= j <= hi && i - lo == hi - j
      invariant forall k :: lo <= k < i || j <= k < hi ==> arr[k] == old(arr[lo + hi - 1 - k])
      invariant forall k :: 0 <= k < lo || hi <= k < arr.Length ==> arr[k] == old(arr[k])
      invariant forall k :: i <= k < j ==> arr[k] == old(arr[k])
      decreases j - i
    {
      arr[i], arr[j - 1] := arr[j - 1], arr[i];
      i, j := i + 1, j - 1;
    }
    forall k | 0 <= k < hi - lo ensures arr[lo..hi][k] == Reversed(old(arr[lo..hi]))[k] {
      assert arr[lo..hi][k] == arr[lo + k];
    }
    assert arr[..lo] == old(arr[..lo]);
    assert arr[hi..] == old(arr[hi..]);
  }
}
