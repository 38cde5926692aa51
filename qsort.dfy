/**
 * The quicksort drivers of xss-common-qsort.h: the recursive qsort_ and
 * qselect_ over an inclusive range [left, right], the NaN helpers
 * move_nans_to_end_of_array and replace_inf_with_nan, and the entry points
 * avx512_qsort, avx512_qselect and avx512_partial_qsort.
 *
 * Indices are arrsize_t in the source. The model keeps them as naturals
 * below 2^64 and writes out each subtraction that can wrap (Wrap); an
 * inclusive `right` of left - 1 stands for an empty range, which is what
 * the source's `pivot_index - 1` gives, because qsort_ only ever uses
 * right + 1 - left.
 */
module CommonQsort {
  import opened Simd
  import opened Bitonic
  import opened Levels
  import opened Sorting
  import opened Partition
  import opened NetworkSort
  import opened Pivot

  /** vtype::network_sort_threshold of the 8-lane int64 type. */
  const NETWORK_SORT_THRESHOLD: nat := 256

  /** 2^64: arrsize_t (size_t) arithmetic is modulo this. */
  const ARRSIZE_MOD: nat := 0x1_0000_0000_0000_0000

  /** An arrsize_t result of the signed value x. */
  function Wrap(x: int): (r: nat)
    ensures r < ARRSIZE_MOD
    ensures 0 <= x < ARRSIZE_MOD ==> r == x
    ensures x == -1 ==> r == ARRSIZE_MOD - 1
  {
    x % ARRSIZE_MOD
  }

  /** (arrsize_t)log2(n) for n >= 1: the floor of the base-2 logarithm. */
  function Log2Floor(n: nat): (r: nat)
    requires n >= 1
    ensures Pow2(r) <= n < 2 * Pow2(r)
  {
    if n == 1 then 0 else 1 + Log2Floor(n / 2)
  }

  // ------------------------------------------------------------ shared facts

  /** RangeSelected: a[pos] is at least everything before it and at most everything after it in [lo, hi). */
  ghost predicate SelectedAt(a: seq<int>, lo: int, hi: int, pos: int)
  {
    0 <= lo <= pos < hi <= |a|
    && (forall k :: lo <= k < pos ==> a[k] <= a[pos])
    && (forall k :: pos < k < hi ==> a[pos] <= a[k])
  }

  /** a is a0 with the range [lo, hi) sorted and everything outside it left alone. */
  ghost predicate SortedWithin(a: seq<int>, a0: seq<int>, lo: int, hi: int)
  {
    0 <= lo <= hi <= |a| == |a0|
    && a[lo..hi] == SortSeq(a0[lo..hi])
    && a[..lo] == a0[..lo] && a[hi..] == a0[hi..]
  }

  /**
   * a is a0 with the range [lo, hi) rearranged so that pos is selected in
   * it, and everything outside the range left alone.
   */
  ghost predicate SelectedWithin(a: seq<int>, a0: seq<int>, lo: int, hi: int, pos: int)
  {
    SelectedAt(a, lo, hi, pos) && |a| == |a0|
    && SameElements(a[lo..hi], a0[lo..hi])
    && a[..lo] == a0[..lo] && a[hi..] == a0[hi..]
  }

  /** s and t hold the same elements, each as often. */
  ghost predicate SameElements(s: seq<int>, t: seq<int>)
  {
    multiset(s) == multiset(t)
  }

  /** Every element of s is below x / at least x. */
  ghost predicate AllBelow(s: seq<int>, x: int)
  {
    forall i :: 0 <= i < |s| ==> s[i] < x
  }

  ghost predicate AllAtLeast(s: seq<int>, x: int)
  {
    forall i :: 0 <= i < |s| ==> x <= s[i]
  }

  lemma BelowMultiset(s: seq<int>, t: seq<int>, x: int)
    requires multiset(s) == multiset(t)
    ensures AllBelow(t, x) ==> AllBelow(s, x)
    ensures AllAtLeast(t, x) ==> AllAtLeast(s, x)
  {
    forall i | 0 <= i < |s| ensures exists j :: 0 <= j < |t| && t[j] == s[i] {
      assert s[i] in multiset(t);
    }
  }

  /** A sorted part below x followed by a sorted part from x on is sorted. */
  lemma SortedJoin(L: seq<int>, R: seq<int>, x: int)
    requires Simd.Sorted(L) && Simd.Sorted(R) && AllBelow(L, x) && AllAtLeast(R, x)
    ensures Simd.Sorted(L + R)
  {
    var t := L + R;
    forall i, j | 0 <= i < j < |t| ensures t[i] <= t[j] {
      if j < |L| {
        assert t[i] == L[i] && t[j] == L[j];
      } else if i >= |L| {
        assert t[i] == R[i - |L|] && t[j] == R[j - |L|];
      } else {
        assert t[i] == L[i] && t[j] == R[j - |L|];
      }
    }
  }

  /** A sorted range has every position selected. */
  lemma SortedSelected(a: seq<int>, lo: int, hi: int, pos: int)
    requires 0 <= lo <= pos < hi <= |a| && Simd.Sorted(a[lo..hi])
    ensures SelectedAt(a, lo, hi, pos)
  {
    forall k | lo <= k < pos ensures a[k] <= a[pos] {
      assert a[lo..hi][k - lo] <= a[lo..hi][pos - lo];
    }
    forall k | pos < k < hi ensures a[pos] <= a[k] {
      assert a[lo..hi][pos - lo] <= a[lo..hi][k - lo];
    }
  }

  /**
   * A selected position holds the element of its rank: a[pos] is what a
   * full sort of the range would put there.
   */
  lemma {:induction false} SelectedRank(a: seq<int>, a0: seq<int>, lo: int, hi: int, pos: int)
    requires SelectedAt(a, lo, hi, pos) && |a0| == |a|
    requires multiset(a[lo..hi]) == multiset(a0[lo..hi])
    ensures a[pos] == SortSeq(a0[lo..hi])[pos - lo]
  {
    var L := a[lo..pos];
    var R := a[pos + 1..hi];
    var x := a[pos];
    assert a[lo..hi] == L + [x] + R;
    forall i | 0 <= i < |L| ensures L[i] <= x {
      assert L[i] == a[lo + i];
    }
    forall i | 0 <= i < |R| ensures x <= R[i] {
      assert R[i] == a[pos + 1 + i];
    }
    var t := SortSeq(L) + [x] + SortSeq(R);
    SortedAround(L, x, R);
    assert multiset(t) == multiset(a[lo..hi]);
    SortedIsSortSeq(a0[lo..hi], t);
    assert t[pos - lo] == x;
  }

  /** Sorting the elements on either side of a separating x keeps x between them. */
  lemma {:induction false} SortedAround(L: seq<int>, x: int, R: seq<int>)
    requires forall i :: 0 <= i < |L| ==> L[i] <= x
    requires forall i :: 0 <= i < |R| ==> x <= R[i]
    ensures Simd.Sorted(SortSeq(L) + [x] + SortSeq(R))
    ensures multiset(SortSeq(L) + [x] + SortSeq(R)) == multiset(L + [x] + R)
  {
    var SL, SR := SortSeq(L), SortSeq(R);
    SortSeqSorted(L);
    SortSeqSorted(R);
    SortSeqMultiset(L);
    SortSeqMultiset(R);
    forall i | 0 <= i < |SL| ensures SL[i] <= x {
      assert SL[i] in multiset(L);
    }
    forall i | 0 <= i < |SR| ensures x <= SR[i] {
      assert SR[i] in multiset(R);
    }
    var t := SL + [x] + SR;
    forall i, j | 0 <= i < j < |t| ensures t[i] <= t[j] {
      var n := |SL|;
      if j < n {
        assert t[i] == SL[i] && t[j] == SL[j];
      } else if i > n {
        assert t[i] == SR[i - n - 1] && t[j] == SR[j - n - 1];
      } else if i == n {
        assert t[j] == SR[j - n - 1];
      } else if j == n {
        assert t[i] == SL[i];
      } else {
        assert t[i] == SL[i] && t[j] == SR[j - n - 1];
      }
    }
  }

  /** After a partition, each part holds int64 values like the whole range. */
  lemma PartsInRange(A1: seq<int>, A0: seq<int>, left: int, p: int, hi: int, pivot: int)
    requires Partitioned(A1, A0, left, hi, p, pivot) && InRange(A0[left..hi])
    ensures InRange(A1[left..p]) && InRange(A1[p..hi])
  {
    InRangeMultiset(A0[left..hi], A1[left..hi]);
    forall i | 0 <= i < p - left ensures TYPE_MIN <= A1[left..p][i] <= TYPE_MAX {
      assert A1[left..p][i] == A1[left..hi][i];
    }
    forall i | 0 <= i < hi - p ensures TYPE_MIN <= A1[p..hi][i] <= TYPE_MAX {
      assert A1[p..hi][i] == A1[left..hi][p - left + i];
    }
  }

  /** The parts of a partition: below the pivot, then from the pivot on. */
  lemma PartsBounds(A1: seq<int>, A0: seq<int>, left: int, p: int, hi: int, pivot: int)
    requires Partitioned(A1, A0, left, hi, p, pivot)
    ensures AllBelow(A1[left..p], pivot) && AllAtLeast(A1[p..hi], pivot)
  {
    assert forall i :: 0 <= i < p - left ==> A1[left..p][i] == A1[left + i];
    assert forall i :: 0 <= i < hi - p ==> A1[p..hi][i] == A1[p + i];
  }

  /** A pivot equal to the smallest element leaves nothing below it. */
  lemma {:induction false} PivotIsSmallest(A1: seq<int>, A0: seq<int>, left: int, p: int, hi: int,
                                           pivot: int, s: int, b: int)
    requires Partitioned(A1, A0, left, hi, p, pivot)
    requires Extremes(A1[left..hi], TYPE_MAX, TYPE_MIN, s, b) && pivot == s
    ensures p == left
  {
    assert left < hi ==> A1[left..hi][0] == A1[left];
  }

  /** A pivot equal to the largest element leaves only copies of it from p on. */
  lemma {:induction false} PivotIsBiggest(A1: seq<int>, A0: seq<int>, left: int, p: int, hi: int,
                                          pivot: int, s: int, b: int)
    requires Partitioned(A1, A0, left, hi, p, pivot)
    requires Extremes(A1[left..hi], TYPE_MAX, TYPE_MIN, s, b) && pivot == b
    ensures forall k :: p <= k < hi ==> A1[k] == b
    ensures A1[p..hi] == SortSeq(A1[p..hi])
  {
    forall k | p <= k < hi ensures A1[k] == b {
      assert A1[left..hi][k - left] == A1[k];
    }
    assert Simd.Sorted(A1[p..hi]) by {
      forall i, j | 0 <= i < j < hi - p ensures A1[p..hi][i] <= A1[p..hi][j] {
        assert A1[p..hi][i] == A1[p + i] && A1[p..hi][j] == A1[p + j];
      }
    }
    SortedIsSortSeq(A1[p..hi], A1[p..hi]);
  }

  // ------------------------------------------------------------------ qsort_

  /** std::sort(arr + lo, arr + hi, comparison_func): the range replaced by its ascending arrangement. */
  method StdSort(arr: array<int>, lo: nat, hi: nat)
    requires lo <= hi <= arr.Length
    modifies arr
    ensures SortedWithin(arr[..], old(arr[..]), lo, hi)
  {
    var s := SortSeq(arr[lo..hi]);
    forall k | lo <= k < hi {
      arr[k] := s[k - lo];
    }
    assert arr[lo..hi] == s;
  }

  /**
   * After the two recursive calls of qsort_ (each made or skipped), the
   * range is sorted: the lower part holds, sorted, the elements below the
   * pivot, the upper part the others.
   */
  lemma {:induction false} QsortJoin(A0: seq<int>, A1: seq<int>, A2: seq<int>, A3: seq<int>,
                                     left: int, p: int, hi: int, pivot: int)
    requires Partitioned(A1, A0, left, hi, p, pivot)
    requires SortedWithin(A2, A1, left, p) && SortedWithin(A3, A2, p, hi)
    ensures SortedWithin(A3, A0, left, hi)
  {
    QsortFrames(A1, A2, A3, left, p, hi);
    var L, R := A3[left..p], A3[p..hi];
    assert L == SortSeq(A1[left..p]) && R == SortSeq(A1[p..hi]);
    SortedParts(A0, A1, L, R, left, p, hi, pivot);
    SliceSplit(A3, left, p, hi);
  }

  /** The slices the two recursive calls leave alone. */
  lemma {:induction false} QsortFrames(A1: seq<int>, A2: seq<int>, A3: seq<int>, left: int, p: int, hi: int)
    requires 0 <= left <= p <= hi <= |A1|
    requires |A2| == |A1| && A2[..left] == A1[..left] && A2[p..] == A1[p..]
    requires |A3| == |A2| && A3[..p] == A2[..p] && A3[hi..] == A2[hi..]
    ensures A3[left..p] == A2[left..p] && A2[p..hi] == A1[p..hi]
    ensures A3[..left] == A1[..left] && A3[hi..] == A1[hi..]
  {
    assert A3[..p][left..p] == A3[left..p] && A2[..p][left..p] == A2[left..p];
    assert A2[p..][..hi - p] == A2[p..hi] && A1[p..][..hi - p] == A1[p..hi];
    assert A3[..p][..left] == A3[..left] && A2[..p][..left] == A2[..left];
    assert A2[p..][hi - p..] == A2[hi..] && A1[p..][hi - p..] == A1[hi..];
  }

  /** The sorted lower part followed by the sorted upper part is the sorted range. */
  lemma {:induction false} SortedParts(A0: seq<int>, A1: seq<int>, L: seq<int>, R: seq<int>,
                                       left: int, p: int, hi: int, pivot: int)
    requires Partitioned(A1, A0, left, hi, p, pivot)
    requires L == SortSeq(A1[left..p]) && R == SortSeq(A1[p..hi])
    ensures L + R == SortSeq(A0[left..hi])
  {
    PartsBounds(A1, A0, left, p, hi, pivot);
    SortSeqSorted(A1[left..p]);
    SortSeqSorted(A1[p..hi]);
    SortSeqMultiset(A1[left..p]);
    SortSeqMultiset(A1[p..hi]);
    BelowMultiset(L, A1[left..p], pivot);
    BelowMultiset(R, A1[p..hi], pivot);
    SortedJoin(L, R, pivot);
    SliceSplit(A1, left, p, hi);
    SortedIsSortSeq(A0[left..hi], L + R);
  }

  /**
   * qsort_: sorts arr[left..right] in place and leaves the rest of the
   * array alone. Out of recursion budget it falls back to std::sort; a
   * range of at most network_sort_threshold elements goes to sort_n;
   * otherwise it partitions around get_pivot_blocks and recurses on the
   * parts, skipping the lower part when the pivot is the smallest element
   * and the upper part when it is the largest.
   */
  method Qsort(arr: array<int>, left: nat, right: int, maxIters: nat)
    requires left <= right + 1 <= arr.Length && InRange(arr[left..right + 1])
    modifies arr
    ensures SortedWithin(arr[..], old(arr[..]), left, right + 1)
    decreases maxIters
  {
    var hi := right + 1;
    if maxIters == 0 {
      StdSort(arr, left, hi);
      return;
    }
    if hi - left <= NETWORK_SORT_THRESHOLD {
      var n := hi - left;
      SortN(arr, left, n);
      assert left + n == hi;
      return;
    }
    var pivot := GetPivotBlocks(arr, left, right);
    var smallest, biggest := TYPE_MAX, TYPE_MIN;
    ghost var A0 := arr[..];
    var p;
    p, smallest, biggest := PartitionAvx512(arr, left, hi, pivot, smallest, biggest);
    ghost var A1 := arr[..];
    PartsInRange(A1, A0, left, p, hi, pivot);
    if pivot != smallest {
      Qsort(arr, left, p - 1, maxIters - 1);
    } else {
      PivotIsSmallest(A1, A0, left, p, hi, pivot, smallest, biggest);
      EmptyWithin(A1, left);
    }
    ghost var A2 := arr[..];
    assert SortedWithin(A2, A1, left, p);
    UpperUntouched(A1, A2, left, p, hi);
    if pivot != biggest {
      Qsort(arr, p, right, maxIters - 1);
    } else {
      PivotIsBiggest(A1, A0, left, p, hi, pivot, smallest, biggest);
      SameWithin(A2, p, hi);
    }
    assert SortedWithin(arr[..], A2, p, hi);
    QsortJoin(A0, A1, A2, arr[..], left, p, hi, pivot);
    assert A0 == old(arr[..]);
  }

  /** A sort of nothing changes nothing. */
  lemma EmptyWithin(a: seq<int>, lo: int)
    requires 0 <= lo <= |a|
    ensures SortedWithin(a, a, lo, lo)
  {
    assert a[lo..lo] == [];
  }

  /** An already sorted range sorts to itself. */
  lemma SameWithin(a: seq<int>, lo: int, hi: int)
    requires 0 <= lo <= hi <= |a| && a[lo..hi] == SortSeq(a[lo..hi])
    ensures SortedWithin(a, a, lo, hi)
  {
  }

  /** The lower recursive call leaves the upper part of the range as the partition left it. */
  lemma UpperUntouched(A1: seq<int>, A2: seq<int>, left: int, p: int, hi: int)
    requires SortedWithin(A2, A1, left, p) && p <= hi <= |A1|
    ensures A2[p..hi] == A1[p..hi]
  {
    assert A2[p..][..hi - p] == A2[p..hi] && A1[p..][..hi - p] == A1[p..hi];
  }

  // ----------------------------------------------------------------- qselect_

  /** A sorted range has every position selected. */
  lemma {:induction false} SortedWithinSelected(a: seq<int>, a0: seq<int>, lo: int, hi: int, pos: int)
    requires SortedWithin(a, a0, lo, hi) && lo <= pos < hi
    ensures SelectedWithin(a, a0, lo, hi, pos)
  {
    SortSeqSorted(a0[lo..hi]);
    SortSeqMultiset(a0[lo..hi]);
    SortedSelected(a, lo, hi, pos);
  }

  /** After recursing into the lower part, which holds pos, pos is selected in the whole range. */
  lemma {:induction false} QselectLower(A0: seq<int>, A1: seq<int>, A2: seq<int>,
                                        left: int, p: int, hi: int, pos: int, pivot: int)
    requires Partitioned(A1, A0, left, hi, p, pivot)
    requires SelectedWithin(A2, A1, left, p, pos)
    ensures SelectedWithin(A2, A0, left, hi, pos)
  {
    PartsBounds(A1, A0, left, p, hi, pivot);
    BelowMultiset(A2[left..p], A1[left..p], pivot);
    assert A2[pos] == A2[left..p][pos - left];
    forall k | p <= k < hi ensures A2[pos] <= A2[k] {
      assert A2[k] == A2[p..][k - p] == A1[p..][k - p] == A1[k];
      assert A1[k] == A1[p..hi][k - p];
    }
    SliceSplit(A2, left, p, hi);
    SliceSplit(A1, left, p, hi);
    assert A2[p..hi] == A1[p..hi] by {
      assert A2[p..][..hi - p] == A2[p..hi] && A1[p..][..hi - p] == A1[p..hi];
    }
    assert A2[hi..] == A1[hi..] by {
      assert A2[p..][hi - p..] == A2[hi..] && A1[p..][hi - p..] == A1[hi..];
    }
  }

  /** After recursing into the upper part, which holds pos, pos is selected in the whole range. */
  lemma {:induction false} QselectUpper(A0: seq<int>, A1: seq<int>, A2: seq<int>,
                                        left: int, p: int, hi: int, pos: int, pivot: int)
    requires Partitioned(A1, A0, left, hi, p, pivot)
    requires SelectedWithin(A2, A1, p, hi, pos)
    ensures SelectedWithin(A2, A0, left, hi, pos)
  {
    PartsBounds(A1, A0, left, p, hi, pivot);
    BelowMultiset(A2[p..hi], A1[p..hi], pivot);
    assert A2[pos] == A2[p..hi][pos - p];
    forall k | left <= k < p ensures A2[k] <= A2[pos] {
      assert A2[k] == A2[..p][k] == A1[..p][k] == A1[k];
      assert A1[k] == A1[left..p][k - left];
    }
    SliceSplit(A2, left, p, hi);
    SliceSplit(A1, left, p, hi);
    assert A2[left..p] == A1[left..p] by {
      assert A2[..p][left..] == A2[left..p] && A1[..p][left..] == A1[left..p];
    }
    assert A2[..left] == A1[..left] by {
      assert A2[..p][..left] == A2[..left] && A1[..p][..left] == A1[..left];
    }
  }

  /** With the pivot the largest element and pos in the upper part, pos is already selected. */
  lemma {:induction false} QselectDone(A0: seq<int>, A1: seq<int>, left: int, p: int, hi: int,
                                       pos: int, pivot: int, s: int, b: int)
    requires Partitioned(A1, A0, left, hi, p, pivot)
    requires Extremes(A1[left..hi], TYPE_MAX, TYPE_MIN, s, b) && pivot == b && p <= pos < hi
    ensures SelectedWithin(A1, A0, left, hi, pos)
  {
    PivotIsBiggest(A1, A0, left, p, hi, pivot, s, b);
    PartsBounds(A1, A0, left, p, hi, pivot);
    forall k | left <= k < p ensures A1[k] <= A1[pos] {
      assert A1[k] == A1[left..p][k - left];
    }
  }

  /**
   * qselect_: rearranges arr[left..right] so that arr[pos] holds the
   * element of rank pos - left, with no larger element before it and no
   * smaller one after it. It recurses only into the part that holds pos,
   * and stops when that part is made of copies of the largest element.
   */
  method Qselect(arr: array<int>, pos: nat, left: nat, right: nat, maxIters: nat)
    requires left <= pos <= right < arr.Length && InRange(arr[left..right + 1])
    modifies arr
    ensures SelectedWithin(arr[..], old(arr[..]), left, right + 1, pos)
    decreases maxIters
  {
    ghost var A0 := arr[..];
    var hi := right + 1;
    if maxIters == 0 {
      StdSort(arr, left, hi);
      SortedWithinSelected(arr[..], A0, left, hi, pos);
    } else if hi - left <= NETWORK_SORT_THRESHOLD {
      SortN(arr, left, hi - left);
      SortedWithinSelected(arr[..], A0, left, hi, pos);
    } else {
      var pivot := GetPivot(arr, left, right);
      ghost var B0 := arr[..];
      assert B0 == A0;
      var smallest, biggest := TYPE_MAX, TYPE_MIN;
      var p;
      p, smallest, biggest := PartitionAvx512(arr, left, hi, pivot, smallest, biggest);
      ghost var A1 := arr[..];
      if pivot != smallest && pos < p {
        assert InRange(arr[left..p]) by { PartsInRange(A1, B0, left, p, hi, pivot); }
        Qselect(arr, pos, left, p - 1, maxIters - 1);
        QselectLower(B0, A1, arr[..], left, p, hi, pos, pivot);
      } else if pivot != biggest && pos >= p {
        assert InRange(arr[p..hi]) by { PartsInRange(A1, B0, left, p, hi, pivot); }
        Qselect(arr, pos, p, right, maxIters - 1);
        QselectUpper(B0, A1, arr[..], left, p, hi, pos, pivot);
      } else {
        if pivot == smallest {
          PivotIsSmallest(A1, B0, left, p, hi, pivot, smallest, biggest);
        }
        QselectDone(B0, A1, left, p, hi, pos, pivot, smallest, biggest);
      }
    }
  }

  // ------------------------------------------------------------ NaN helpers

  /**
   * The first c of the first size slots hold no NaN and the remaining
   * size - c slots hold nothing but NaNs.
   */
  ghost predicate NanBoundary(a: seq<int>, size: int, c: int, isNan: int -> bool)
  {
    0 <= c <= size <= |a|
    && (forall k :: 0 <= k < c ==> !isNan(a[k]))
    && (forall k :: c <= k < size ==> isNan(a[k]))
  }

  /**
   * The bounds move_nans_to_end_of_array starts its scan with, as written:
   * ii = 0 and jj = size - 1 in arrsize_t arithmetic.
   */
  function NanScanStart(size: nat): (r: (nat, nat))
    requires size < ARRSIZE_MOD
    ensures 0 < size ==> r == (0, size - 1)
    ensures size == 0 ==> r == (0, ARRSIZE_MOD - 1)
  {
    (0, Wrap(size - 1))
  }

  /**
   * For size == 0, jj starts at 2^64 - 1, so the loop test ii < jj holds and
   * the first step reads arr[0], which is not one of the size slots.
   */
  lemma NanScanZeroOverruns()
    ensures NanScanStart(0).0 < NanScanStart(0).1 && !(NanScanStart(0).0 < 0)
  {
  }

  /**
   * move_nans_to_end_of_array: swaps every NaN of arr[0..size) to the end,
   * counting them, and returns the index of the last element that is not a
   * NaN (size - count - 1, which wraps when everything is a NaN). isNan is
   * the element type's NaN test. An empty array is not scanned, and the
   * result is size - 0 - 1, wrapped.
   */
  method MoveNansToEnd(arr: array<int>, size: nat, isNan: int -> bool) returns (r: nat, ghost c: nat)
    requires size <= arr.Length
    modifies arr
    ensures NanBoundary(arr[..], size, c, isNan)
    ensures r == Wrap(c - 1)
    ensures multiset(arr[..size]) == multiset(old(arr[..size]))
    ensures arr[size..] == old(arr[size..])
  {
    if size == 0 {
      c := 0;
      r := Wrap(-1);
      return;
    }
    var jj := size - 1;
    var ii := 0;
    var count := 0;
    while ii < jj
      invariant NanScan(arr[..], old(arr[..]), size, ii, jj, isNan)
      invariant count == size - 1 - jj
      decreases jj - ii
    {
      if isNan(arr[ii]) {
        NanSwapStep(arr[..], old(arr[..]), size, ii, jj, isNan);
        arr[ii], arr[jj] := arr[jj], arr[ii];
        jj := jj - 1;
        count := count + 1;
      } else {
        ii := ii + 1;
      }
    }
    if isNan(arr[ii]) {
      count := count + 1;
    }
    c := size - count;
    r := Wrap(size - count - 1);
  }

  /**
   * The state of the scan of move_nans_to_end_of_array: a permutation of
   * the first size slots of a0 with no NaN before ii and only NaNs after jj.
   */
  ghost predicate NanScan(a: seq<int>, a0: seq<int>, size: int, ii: int, jj: int, isNan: int -> bool)
  {
    0 <= ii <= jj < size <= |a| == |a0|
    && (forall k :: 0 <= k < ii ==> !isNan(a[k]))
    && (forall k :: jj < k < size ==> isNan(a[k]))
    && multiset(a[..size]) == multiset(a0[..size])
    && a[size..] == a0[size..]
  }

  /** Swapping a NaN at ii with the slot at jj extends the NaN suffix by one. */
  lemma {:induction false} NanSwapStep(a: seq<int>, a0: seq<int>, size: int, ii: int, jj: int, isNan: int -> bool)
    requires NanScan(a, a0, size, ii, jj, isNan) && ii < jj && isNan(a[ii])
    ensures NanScan(a[ii := a[jj]][jj := a[ii]], a0, size, ii, jj - 1, isNan)
  {
    var b := a[ii := a[jj]][jj := a[ii]];
    assert b[..size] == a[..size][ii := a[jj]][jj := a[ii]];
    assert b[size..] == a[size..];
  }

  /** What replace_inf_with_nan writes: quiet NaN for floating-point types, 0xFFFF for the fp16 bit patterns. */
  function NanFill(floating: bool, quietNaN: int): (v: int)
    ensures floating ==> v == quietNaN
    ensures !floating ==> v == 0xFFFF
  {
    if floating then quietNaN else 0xFFFF
  }

  /**
   * replace_inf_with_nan: walking down from size - 1, overwrites nan_count
   * slots with the NaN value. Only the last nan_count slots of arr[0..size)
   * change.
   */
  method ReplaceInfWithNan(arr: array<int>, size: nat, nanCount: nat, floating: bool, quietNaN: int)
    requires nanCount <= size <= arr.Length
    modifies arr
    ensures forall k :: size - nanCount <= k < size ==> arr[k] == NanFill(floating, quietNaN)
    ensures arr[..size - nanCount] == old(arr[..size - nanCount])
    ensures arr[size..] == old(arr[size..])
  {
    var ii := size - 1;
    var n := nanCount;
    while n > 0
      invariant 0 <= n <= nanCount && ii == size - 1 - (nanCount - n)
      invariant forall k :: ii < k < size ==> arr[k] == NanFill(floating, quietNaN)
      invariant forall k :: 0 <= k <= ii || size <= k < arr.Length ==> arr[k] == old(arr[k])
    {
      arr[ii] := if floating then quietNaN else 0xFFFF;
      n := n - 1;
      ii := ii - 1;
    }
    assert arr[..size - nanCount] == old(arr[..size - nanCount]);
    assert arr[size..] == old(arr[size..]);
  }

  // ------------------------------------------------------------ entry points

  /** At most one element is already in order. */
  lemma ShortSorted(a: seq<int>, n: int)
    requires 0 <= n <= 1 && n <= |a|
    ensures SortedWithin(a, a, 0, n)
  {
    SortedIsSortSeq(a[..n], a[..n]);
  }

  /**
   * avx512_qsort for an integer element type: qsort_ over [0, arrsize - 1]
   * with a recursion budget of 2 * floor(log2(arrsize)); arrays of at most
   * one element are left as they are.
   */
  method Avx512Qsort(arr: array<int>, arrsize: nat)
    requires arrsize <= arr.Length && InRange(arr[..arrsize])
    modifies arr
    ensures SortedWithin(arr[..], old(arr[..]), 0, arrsize)
  {
    if arrsize > 1 {
      Qsort(arr, 0, arrsize - 1, 2 * Log2Floor(arrsize));
    } else {
      ShortSorted(arr[..], arrsize);
    }
  }

  /**
   * avx512_qselect: with hasnan set (for a floating-point type) the NaNs go
   * to the end first; c is the number of elements that are not NaNs. When k
   * is below c, arr[k] ends up holding the element of rank k among them,
   * with none larger before it and none smaller after it in [0, c); when k
   * is not below c and no NaN was moved, nothing changes.
   */
  method Avx512Qselect(arr: array<int>, k: nat, arrsize: nat, hasnan: bool, floating: bool, isNan: int -> bool)
    returns (ghost c: nat)
    requires arrsize <= arr.Length && arrsize < ARRSIZE_MOD && k < ARRSIZE_MOD && InRange(arr[..arrsize])
    modifies arr
    ensures c <= arrsize
    ensures floating && hasnan ==> NanBoundary(arr[..], arrsize, c, isNan)
    ensures !(floating && hasnan) ==> c == arrsize
    ensures k < c ==> SelectedAt(arr[..], 0, c, k) && arr[k] == SortSeq(arr[..c])[k]
    ensures !(floating && hasnan) && k < c ==> arr[k] == SortSeq(old(arr[..arrsize]))[k]
    ensures !(floating && hasnan) && k >= c ==> arr[..] == old(arr[..])
    ensures multiset(arr[..arrsize]) == multiset(old(arr[..arrsize]))
    ensures arr[arrsize..] == old(arr[arrsize..])
  {
    var last := Wrap(arrsize - 1);
    c := arrsize;
    if floating && hasnan {
      last, c := MoveNansToEnd(arr, arrsize, isNan);
    }
    ghost var A0 := arr[..];
    if last >= k && last != ARRSIZE_MOD - 1 {
      // last != 2^64 - 1, so last == c - 1 and k < c
      assert arr[..c] == arr[..arrsize][..c];
      InRangeMultiset(old(arr[..arrsize]), arr[..arrsize]);
      assert InRange(arr[..c]);
      var maxIters := if last == 0 then 0 else 2 * Log2Floor(last);
      Qselect(arr, k, 0, last, maxIters);
      SelectAllDone(arr[..], A0, last, c, arrsize, k, floating && hasnan, isNan);
      if !(floating && hasnan) {
        assert arr[..c] == arr[..arrsize];
        SortSeqOfPermutation(arr[..c], old(arr[..arrsize]));
      }
    }
    // last == 2^64 - 1 makes qselect_ work on right + 1 - left == 0 elements
  }

  /** Two arrangements of the same elements sort to the same sequence. */
  lemma {:induction false} SortSeqOfPermutation(s: seq<int>, t: seq<int>)
    requires multiset(s) == multiset(t)
    ensures SortSeq(s) == SortSeq(t)
  {
    SortSeqSorted(s);
    SortSeqMultiset(s);
    SortedIsSortSeq(t, SortSeq(s));
  }

  /**
   * The frames and rank of a selection over [0, c) inside the first
   * arrsize slots; the selection only rearranges elements that are not
   * NaNs, so a NaN boundary at c stays where it is.
   */
  lemma {:induction false} SelectAllDone(a: seq<int>, a0: seq<int>, right: int, c: int, arrsize: int, k: int,
                                         moved: bool, isNan: int -> bool)
    requires SelectedWithin(a, a0, 0, right + 1, k) && c == right + 1 && c <= arrsize <= |a|
    requires moved ==> NanBoundary(a0, arrsize, c, isNan)
    ensures SelectedAt(a, 0, c, k) && a[k] == SortSeq(a[..c])[k]
    ensures moved ==> NanBoundary(a, arrsize, c, isNan)
    ensures multiset(a[..arrsize]) == multiset(a0[..arrsize])
    ensures a[arrsize..] == a0[arrsize..]
  {
    SelectedRank(a, a, 0, c, k);
    SliceSplit(a, 0, c, arrsize);
    SliceSplit(a0, 0, c, arrsize);
    assert a[c..arrsize] == a[c..][..arrsize - c] && a0[c..arrsize] == a0[c..][..arrsize - c];
    assert a[arrsize..] == a[c..][arrsize - c..] && a0[arrsize..] == a0[c..][arrsize - c..];
    if moved {
      NanBoundaryKept(a, a0, c, arrsize, isNan);
    }
  }

  /** Rearranging the slots before a NaN boundary keeps the boundary. */
  lemma {:induction false} NanBoundaryKept(a: seq<int>, a0: seq<int>, c: int, arrsize: int, isNan: int -> bool)
    requires NanBoundary(a0, arrsize, c, isNan) && |a| == |a0|
    requires multiset(a[..c]) == multiset(a0[..c]) && a[c..] == a0[c..]
    ensures NanBoundary(a, arrsize, c, isNan)
  {
    forall i | 0 <= i < c ensures !isNan(a[i]) {
      assert a[i] == a[..c][i];
      assert a[i] in multiset(a0[..c]);
      var j :| 0 <= j < c && a0[..c][j] == a[i];
    }
    forall i | c <= i < arrsize ensures isNan(a[i]) {
      assert a[i] == a[c..][i - c] == a0[c..][i - c] == a0[i];
    }
  }

  // ------------------------------------------------------ avx512_partial_qsort

  /**
   * avx512_partial_qsort as written: the k it passes to avx512_qselect and
   * the size it passes to avx512_qsort, both k - 1 in arrsize_t arithmetic.
   */
  function PartialQsortCalls(k: nat): (r: (nat, nat))
    requires k < ARRSIZE_MOD
    ensures 0 < k ==> r == (k - 1, k - 1)
    ensures k == 0 ==> r.0 == r.1 == ARRSIZE_MOD - 1
  {
    (Wrap(k - 1), Wrap(k - 1))
  }

  /**
   * For k == 0 the size handed to avx512_qsort is 2^64 - 1: more than any
   * array holds and more than 1, so qsort_ runs over [0, 2^64 - 2].
   */
  lemma PartialQsortZeroOverruns(arrsize: nat)
    requires arrsize < ARRSIZE_MOD - 1
    ensures PartialQsortCalls(0).1 > arrsize && PartialQsortCalls(0).1 > 1
  {
  }

  /**
   * avx512_partial_qsort with the k == 0 guard that xss_partial_sort_kv has:
   * select the element of rank k - 1, then sort the k - 1 slots before it.
   * The first k slots end up holding the k smallest elements in ascending
   * order.
   */
  method Avx512PartialQsort(arr: array<int>, k: nat, arrsize: nat)
    requires k <= arrsize <= arr.Length && arrsize < ARRSIZE_MOD && InRange(arr[..arrsize])
    modifies arr
    ensures arr[..k] == SortSeq(old(arr[..arrsize]))[..k]
    ensures multiset(arr[..arrsize]) == multiset(old(arr[..arrsize]))
    ensures arr[arrsize..] == old(arr[arrsize..])
  {
    if k == 0 {
      return;
    }
    ghost var A0 := arr[..];
    ghost var c := Avx512Qselect(arr, k - 1, arrsize, false, false, x => false);
    ghost var A1 := arr[..];
    PrefixInRange(A0, A1, k - 1, arrsize);
    Avx512Qsort(arr, k - 1);
    PartialDone(A0, A1, arr[..], k, arrsize);
  }

  /** The slots before the selected one hold int64 values. */
  lemma PrefixInRange(a0: seq<int>, a1: seq<int>, n: int, arrsize: int)
    requires 0 <= n <= arrsize <= |a0| == |a1| && InRange(a0[..arrsize])
    requires multiset(a1[..arrsize]) == multiset(a0[..arrsize])
    ensures InRange(a1[..n])
  {
    InRangeMultiset(a0[..arrsize], a1[..arrsize]);
    assert forall i :: 0 <= i < n ==> a1[..n][i] == a1[..arrsize][i];
  }

  /**
   * After the selection of rank k - 1 and the sort of the slots before it,
   * the first k slots are the first k of the fully sorted arrangement.
   */
  lemma {:induction false} PartialDone(a0: seq<int>, a1: seq<int>, a2: seq<int>, k: int, arrsize: int)
    requires 0 < k <= arrsize <= |a0| == |a1|
    requires SelectedAt(a1, 0, arrsize, k - 1)
    requires multiset(a1[..arrsize]) == multiset(a0[..arrsize]) && a1[arrsize..] == a0[arrsize..]
    requires SortedWithin(a2, a1, 0, k - 1)
    ensures a2[..k] == SortSeq(a0[..arrsize])[..k]
    ensures multiset(a2[..arrsize]) == multiset(a0[..arrsize]) && a2[arrsize..] == a0[arrsize..]
  {
    var n := k - 1;
    var L, x, R := a1[..n], a1[n], a1[k..arrsize];
    assert a1[..arrsize] == L + [x] + R;
    assert SortSeq(L) + [x] + SortSeq(R) == SortSeq(a0[..arrsize]) by {
      forall i | 0 <= i < |L| ensures L[i] <= x {
        assert L[i] == a1[i];
      }
      forall i | 0 <= i < |R| ensures x <= R[i] {
        assert R[i] == a1[k + i];
      }
      SortedAround(L, x, R);
      SortedIsSortSeq(a0[..arrsize], SortSeq(L) + [x] + SortSeq(R));
    }
    PartialSlices(a1, a2, n, arrsize);
    assert (SortSeq(L) + [x] + SortSeq(R))[..k] == SortSeq(L) + [x];
    assert multiset(a2[..arrsize]) == multiset(a1[..arrsize]) by {
      SortSeqMultiset(L);
    }
  }

  /** The sort of the slots before n leaves slot n and everything after it alone. */
  lemma {:induction false} PartialSlices(a1: seq<int>, a2: seq<int>, n: int, arrsize: int)
    requires 0 <= n < arrsize <= |a1| && SortedWithin(a2, a1, 0, n)
    ensures a2[..n + 1] == SortSeq(a1[..n]) + [a1[n]]
    ensures a2[..arrsize] == SortSeq(a1[..n]) + [a1[n]] + a1[n + 1..arrsize]
    ensures a2[arrsize..] == a1[arrsize..]
  {
    assert a2[n] == a2[n..][0] == a1[n..][0] == a1[n];
    assert a2[..n + 1] == a2[..n] + [a2[n]];
    assert a2[n + 1..arrsize] == a2[n..][1..arrsize - n] && a1[n + 1..arrsize] == a1[n..][1..arrsize - n];
    assert a2[..arrsize] == a2[..n + 1] + a2[n + 1..arrsize];
    assert a2[arrsize..] == a2[n..][arrsize - n..] && a1[arrsize..] == a1[n..][arrsize - n..];
  }
}
