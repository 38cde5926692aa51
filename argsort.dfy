/**
 * The argsort quicksort of xss-common-argsort.h: get_pivot_64bit,
 * argsort_ and argselect_, and the entry points xss_argsort and
 * xss_argselect. The data array arr is only read; what is rearranged is
 * the array arg of indexes into it, an index being compared by the element
 * it points at. Data elements are int64 and the vector type has 8 lanes.
 */
module ArgSort {
  import opened Simd
  import opened Sorting
  import opened KeyedPartition
  import opened KvSortN
  import opened KeyedSort
  import opened KeyedHeap
  import opened RegNetworks
  import opened CommonQsort
  import opened Comparators
  import opened Pivot

  /** argsort_n<256>: ranges of up to 256 indexes go to the network base case. */
  const ARG_NETWORK_MAX: nat := 256

  /** A rearrangement of indexes into K points into K. */
  lemma {:induction false} IndexesMultiset(s: seq<int>, t: seq<int>, n: int)
    requires multiset(s) == multiset(t) && IndexesIn(t, n)
    ensures IndexesIn(s, n)
  {
    forall i | 0 <= i < |s| ensures 0 <= s[i] < n {
      assert s[i] in multiset(t);
      var j :| 0 <= j < |t| && t[j] == s[i];
    }
  }

  /** Index i of a range of indexes into K points into K. */
  lemma {:induction false} IndexAt(A: seq<int>, lo: int, hi: int, n: int, i: int)
    requires 0 <= lo <= i < hi <= |A| && IndexesIn(A[lo..hi], n)
    ensures 0 <= A[i] < n
  {
    assert A[lo..hi][i - lo] == A[i];
  }

  // ------------------------------------------------------------ get_pivot_64bit

  /** Sample j of 1 .. 8 lies in [left, right]: 8 * ((right - left) / 8) is at most right - left. */
  lemma {:induction false} SampleIndex(left: nat, right: nat, j: nat)
    requires left + NUMLANES <= right && 1 <= j <= NUMLANES
    ensures left <= left + j * ((right - left) / NUMLANES) <= right
  {
    var size := (right - left) / NUMLANES;
    StridesFit(right - left, NUMLANES);
    StrideBound(j, size, NUMLANES);
  }

  /** Sample j of get_pivot_64bit: the key of the index at left + j * ((right - left) / 8). */
  function Sample(K: seq<int>, A: seq<int>, left: nat, right: nat, j: nat): (r: int)
    requires left + NUMLANES <= right < |A| && IndexesIn(A[left..right + 1], |K|) && 1 <= j <= NUMLANES
    ensures r in Keys(A[left..right + 1], KeyOf(K))
  {
    var at := left + j * ((right - left) / NUMLANES);
    SampleIndex(left, right, j);
    IndexAt(A, left, right + 1, |K|, at);
    assert Keys(A[left..right + 1], KeyOf(K))[at - left] == K[A[at]];
    K[A[at]]
  }

  /** The eight samples, in register order. */
  function ArgSamples(K: seq<int>, A: seq<int>, left: nat, right: nat): (r: seq<int>)
    requires left + NUMLANES <= right < |A| && IndexesIn(A[left..right + 1], |K|)
    ensures |r| == NUMLANES && forall x :: x in r ==> x in Keys(A[left..right + 1], KeyOf(K))
  {
    seq(NUMLANES, j requires 0 <= j < NUMLANES => Sample(K, A, left, right, j + 1))
  }

  /**
   * get_pivot_64bit for 8 lanes: for a range of at least 9 indexes, lane 4
   * of the sorted register of the eight samples; otherwise the key of the
   * last index. Either way the pivot is one of the keys of the range.
   */
  method GetPivot64bit(arr: array<int>, arg: array<int>, left: nat, right: nat) returns (pivot: int)
    requires left <= right < arg.Length && IndexesIn(arg[left..right + 1], arr.Length)
    ensures right - left >= NUMLANES ==> pivot == SortSeq(ArgSamples(arr[..], arg[..], left, right))[4]
    ensures right - left < NUMLANES ==> IndexesIn([arg[right]], arr.Length) && pivot == arr[arg[right]]
    ensures pivot in Keys(arg[left..right + 1], KeyOf(arr[..]))
  {
    if right - left >= NUMLANES {
      var K, A := arr[..], arg[..];
      var randVec := [Sample(K, A, left, right, 1), Sample(K, A, left, right, 2),
                      Sample(K, A, left, right, 3), Sample(K, A, left, right, 4),
                      Sample(K, A, left, right, 5), Sample(K, A, left, right, 6),
                      Sample(K, A, left, right, 7), Sample(K, A, left, right, 8)];
      assert randVec == ArgSamples(K, A, left, right);
      var sort := SortReg8Lanes(randVec);
      pivot := sort[4];
      SortReg8LanesSorts(randVec);
      SortedIsSortSeq(randVec, sort);
      assert pivot in multiset(randVec) by {
        assert pivot in multiset(sort);
      }
    } else {
      IndexAt(arg[..], left, right + 1, arr.Length, right);
      pivot := arr[arg[right]];
      assert Keys(arg[left..right + 1], KeyOf(arr[..]))[right - left] == pivot;
    }
  }

  // ------------------------------------------------------------ argsort_

  /**
   * std_argsort(arr, arg, left, hi): the indexes of [left, hi) sorted by the
   * elements they point at. std::sort's algorithm is not modelled; the heap
   * sort stands in for it.
   */
  method StdArgsort(arr: array<int>, arg: array<int>, left: nat, hi: nat)
    requires arr != arg && left <= hi <= arg.Length
    modifies arg
    ensures KeyedSortedWithin(arg[..], old(arg[..]), KeyOf(arr[..]), left, hi)
  {
    HeapSort(arg, KeyOf(arr[..]), left, hi - left);
  }

  /** The network sort of a range, as argsort_n promises it, is a keyed sort of the range. */
  lemma {:induction false} ArgNetworkKeyed(K: seq<int>, a0: seq<int>, a: seq<int>, lo: int, hi: int)
    requires 0 <= lo <= hi <= |a| == |a0| && a[..lo] == a0[..lo] && a[hi..] == a0[hi..]
    requires IndexesIn(a0[lo..hi], |K|) && ArgSorted(K, a0[lo..hi], a[lo..hi])
    ensures KeyedSortedWithin(a, a0, KeyOf(K), lo, hi)
  {
    GatherKeys(K, a0[lo..hi]);
    SortSeqSorted(Gather(K, a0[lo..hi]));
    SortSeqMultiset(Gather(K, a0[lo..hi]));
  }

  /** The base case of argsort_ and argselect_: argsort_n<256> on arg + left. */
  method ArgNetwork(arr: array<int>, arg: array<int>, left: nat, hi: nat)
    requires arr != arg && left <= hi <= arg.Length && hi - left <= ARG_NETWORK_MAX
    requires InRange(arr[..]) && IndexesIn(arg[left..hi], arr.Length)
    modifies arg
    ensures KeyedSortedWithin(arg[..], old(arg[..]), KeyOf(arr[..]), left, hi)
  {
    ArgsortN(arr, arg, left, hi - left, ARG_NETWORK_MAX, 5);
    ArgNetworkKeyed(arr[..], old(arg[..]), arg[..], left, hi);
  }

  /** The parts of a partition of indexes into K point into K. */
  lemma {:induction false} IndexPartsIn(A1: seq<int>, A0: seq<int>, key: int -> int, left: int, p: int, hi: int,
                                        pivot: int, n: int)
    requires Partitioned(A1, A0, key, left, hi, p, pivot, false) && IndexesIn(A0[left..hi], n)
    ensures IndexesIn(A1[left..p], n) && IndexesIn(A1[p..hi], n)
  {
    IndexesMultiset(A1[left..hi], A0[left..hi], n);
    forall i | 0 <= i < p - left ensures 0 <= A1[left..p][i] < n {
      assert A1[left..p][i] == A1[left..hi][i];
    }
    forall i | 0 <= i < hi - p ensures 0 <= A1[p..hi][i] < n {
      assert A1[p..hi][i] == A1[left..hi][p - left + i];
    }
  }

  /**
   * The pivot and the partition of argsort_ and argselect_:
   * get_pivot_64bit, then argpartition_unrolled over [left, right + 1)
   * with smallest and biggest starting at type_max and type_min; indexes of
   * keys equal to the pivot go right.
   */
  method ArgPivotPartition(arr: array<int>, arg: array<int>, left: nat, right: nat)
    returns (pivot: int, p: int, smallest: int, biggest: int)
    requires arr != arg && left <= right < arg.Length && IndexesIn(arg[left..right + 1], arr.Length)
    modifies arg
    ensures Partitioned(arg[..], old(arg[..]), KeyOf(arr[..]), left, right + 1, p, pivot, false)
    ensures Extremes(arg[left..right + 1], KeyOf(arr[..]), TYPE_MAX, TYPE_MIN, smallest, biggest)
    ensures IndexesIn(arg[left..p], arr.Length) && IndexesIn(arg[p..right + 1], arr.Length)
  {
    pivot := GetPivot64bit(arr, arg, left, right);
    p, smallest, biggest := KeyedPartition.Partition(arg, KeyOf(arr[..]), left, right + 1, pivot, false,
                                                     TYPE_MAX, TYPE_MIN);
    IndexPartsIn(arg[..], old(arg[..]), KeyOf(arr[..]), left, p, right + 1, pivot, arr.Length);
  }

  /**
   * argsort_(left, right, max_iters): with the budget spent, std_argsort;
   * ranges of at most 256 indexes go to argsort_n<256>; otherwise the range
   * is partitioned around the pivot of get_pivot_64bit and each part is
   * sorted unless the pivot is its smallest (left part) or largest (right
   * part) key, when that part holds nothing but the pivot's key. arr is
   * never written.
   */
  method Argsort(arr: array<int>, arg: array<int>, left: nat, right: int, maxIters: nat)
    requires arr != arg && left <= right + 1 <= arg.Length
    requires InRange(arr[..]) && IndexesIn(arg[left..right + 1], arr.Length)
    modifies arg
    ensures KeyedSortedWithin(arg[..], old(arg[..]), KeyOf(arr[..]), left, right + 1)
    decreases maxIters, 1
  {
    var hi := right + 1;
    if maxIters == 0 {
      StdArgsort(arr, arg, left, hi);
    } else if hi - left <= ARG_NETWORK_MAX {
      ArgNetwork(arr, arg, left, hi);
    } else {
      ArgsortParts(arr, arg, left, right, maxIters);
    }
  }

  /**
   * The recursive case of argsort_: the range is partitioned around the
   * pivot of get_pivot_64bit and each part is sorted unless the pivot is
   * its smallest (left part) or largest (right part) key, when that part
   * holds nothing but the pivot's key.
   */
  method ArgsortParts(arr: array<int>, arg: array<int>, left: nat, right: nat, maxIters: nat)
    requires arr != arg && left <= right < arg.Length && maxIters > 0
    requires InRange(arr[..]) && IndexesIn(arg[left..right + 1], arr.Length)
    modifies arg
    ensures KeyedSortedWithin(arg[..], old(arg[..]), KeyOf(arr[..]), left, right + 1)
    decreases maxIters, 0
  {
    var hi := right + 1;
    ghost var K := arr[..];
    ghost var A0 := arg[..];
    var pivot, p, smallest, biggest := ArgPivotPartition(arr, arg, left, right);
    ghost var A1 := arg[..];
    if pivot != smallest {
      Argsort(arr, arg, left, p - 1, maxIters - 1);
    } else {
      LowPartConstant(A1, A0, KeyOf(K), left, p, hi, pivot, false, smallest, biggest);
      ConstantSorted(A1, KeyOf(K), left, p, pivot);
    }
    ghost var A2 := arg[..];
    FrameKeeps(A2, A1, left, p, hi);
    if pivot != biggest {
      Argsort(arr, arg, p, right, maxIters - 1);
    } else {
      HighPartConstant(A1, A0, A2, KeyOf(K), left, p, hi, pivot, false, smallest, biggest);
      ConstantSorted(A2, KeyOf(K), p, hi, pivot);
    }
    SortJoin(A0, A1, A2, arg[..], KeyOf(K), left, p, hi, pivot, false);
  }

  /**
   * argselect_(pos, left, right, max_iters): as argsort_, but after the
   * partition only the part holding pos is worked on, and not even that one
   * when the pivot is its smallest (left part) or largest (right part) key.
   */
  method Argselect(arr: array<int>, arg: array<int>, pos: nat, left: nat, right: int, maxIters: nat)
    requires arr != arg && left <= right + 1 <= arg.Length
    requires InRange(arr[..]) && IndexesIn(arg[left..right + 1], arr.Length)
    modifies arg
    ensures KeyedSelectedWithin(arg[..], old(arg[..]), KeyOf(arr[..]), left, right + 1, pos)
    decreases maxIters, 1
  {
    var hi := right + 1;
    if maxIters == 0 {
      StdArgsort(arr, arg, left, hi);
      SortedSelects(arg[..], old(arg[..]), KeyOf(arr[..]), left, hi, pos);
    } else if hi - left <= ARG_NETWORK_MAX {
      ArgNetwork(arr, arg, left, hi);
      SortedSelects(arg[..], old(arg[..]), KeyOf(arr[..]), left, hi, pos);
    } else {
      ArgselectParts(arr, arg, pos, left, right, maxIters);
    }
  }

  /**
   * The recursive case of argselect_: after the partition only the part
   * holding pos is worked on, and not even that one when the pivot is its
   * smallest (left part) or largest (right part) key.
   */
  method ArgselectParts(arr: array<int>, arg: array<int>, pos: nat, left: nat, right: nat, maxIters: nat)
    requires arr != arg && left <= right < arg.Length && maxIters > 0
    requires InRange(arr[..]) && IndexesIn(arg[left..right + 1], arr.Length)
    modifies arg
    ensures KeyedSelectedWithin(arg[..], old(arg[..]), KeyOf(arr[..]), left, right + 1, pos)
    decreases maxIters, 0
  {
    var hi := right + 1;
    ghost var K := arr[..];
    ghost var A0 := arg[..];
    var pivot, p, smallest, biggest := ArgPivotPartition(arr, arg, left, right);
    ghost var A1 := arg[..];
    if pivot != smallest && pos < p {
      Argselect(arr, arg, pos, left, p - 1, maxIters - 1);
      SelectLower(A0, A1, arg[..], KeyOf(K), left, p, hi, pivot, false, pos);
    } else if pivot != biggest && pos >= p {
      Argselect(arr, arg, pos, p, right, maxIters - 1);
      SelectUpper(A0, A1, arg[..], KeyOf(K), left, p, hi, pivot, false, pos);
    } else {
      if pos < p {
        LowPartConstant(A1, A0, KeyOf(K), left, p, hi, pivot, false, smallest, biggest);
      } else {
        HighPartConstant(A1, A0, A1, KeyOf(K), left, p, hi, pivot, false, smallest, biggest);
      }
      SelectNoCall(A0, A1, KeyOf(K), left, p, hi, pivot, false, pos);
    }
  }

  // ------------------------------------------------------------ entry points

  /** std::is_sorted(s, s + |s|, comp): no element belongs before its predecessor. */
  predicate IsSortedBy(descending: bool, s: seq<int>)
  {
    forall i :: 0 < i < |s| ==> !StdSortComparator(descending, s[i], s[i - 1])
  }

  /** The neighbour check of std::is_sorted is the same as the order over all pairs. */
  lemma {:induction false} IsSortedByOrdered(descending: bool, s: seq<int>)
    ensures IsSortedBy(descending, s) <==> OrderedBy(descending, s)
  {
    if IsSortedBy(descending, s) {
      forall i, j | 0 <= i < j < |s| ensures !StdSortComparator(descending, s[j], s[i]) {
        NeighboursOrder(descending, s, i, j);
      }
    }
    if OrderedBy(descending, s) {
      forall i | 0 < i < |s| ensures !StdSortComparator(descending, s[i], s[i - 1]) {
        assert 0 <= i - 1 < i < |s|;
      }
    }
  }

  /** Ordered neighbours make s[i] and s[j] ordered, by induction on j. */
  lemma {:induction false} NeighboursOrder(descending: bool, s: seq<int>, i: int, j: int)
    requires IsSortedBy(descending, s) && 0 <= i < j < |s|
    ensures !StdSortComparator(descending, s[j], s[i])
    decreases j
  {
    if i < j - 1 {
      NeighboursOrder(descending, s, i, j - 1);
      assert !StdSortComparator(descending, s[j], s[j - 1]);
    }
  }

  /**
   * The indexes a, from a0 pointing into K, read K in the order of the
   * given direction: a holds the indexes of a0, rearranged so that the
   * elements they point at are in that order.
   */
  ghost predicate ArgOrders(K: seq<int>, a: seq<int>, a0: seq<int>, descending: bool)
  {
    |a| == |a0| && IndexesIn(a0, |K|) && multiset(a) == multiset(a0) && IndexesIn(a, |K|)
    && OrderedBy(descending, Keys(a, KeyOf(K)))
  }

  /** As ArgOrders, with only position k in its place, ascending. */
  ghost predicate ArgSelects(K: seq<int>, a: seq<int>, a0: seq<int>, k: int)
  {
    |a| == |a0| && IndexesIn(a0, |K|) && multiset(a) == multiset(a0) && IndexesIn(a, |K|)
    && SelectedBy(false, Keys(a, KeyOf(K)), k)
  }

  /** A sorted range of indexes, reversed when descending, reads K in that direction's order. */
  lemma {:induction false} ArgSortFinished(K: seq<int>, a0: seq<int>, a1: seq<int>, a2: seq<int>, descending: bool)
    requires |a0| == |a1| && IndexesIn(a0, |K|) && KeyedSortedWithin(a1, a0, KeyOf(K), 0, |a0|)
    requires descending ==> a2 == Reversed(a1)
    requires !descending ==> a2 == a1
    ensures ArgOrders(K, a2, a0, descending)
  {
    var n := |a0|;
    assert a0[0..n] == a0 && a1[0..n] == a1;
    IndexesMultiset(a1, a0, |K|);
    if descending {
      ReversedKeys(a1, KeyOf(K));
      ReversedOrdered(Keys(a1, KeyOf(K)));
      ReversedMultiset(a1);
      IndexesMultiset(a2, a1, |K|);
    } else {
      SortedOrdered(Keys(a1, KeyOf(K)));
    }
  }

  /** A range of indexes selected at k reads K with position k in its place. */
  lemma {:induction false} ArgSelectFinished(K: seq<int>, a0: seq<int>, a1: seq<int>, k: int)
    requires |a0| == |a1| && IndexesIn(a0, |K|) && KeyedSelectedWithin(a1, a0, KeyOf(K), 0, |a0|, k)
    ensures ArgSelects(K, a1, a0, k)
  {
    var n := |a0|;
    assert a0[0..n] == a0 && a1[0..n] == a1;
    IndexesMultiset(a1, a0, |K|);
  }

  /**
   * The identity permutation std::iota writes, over K already in the order
   * of the direction, reads K in that order: the early exit of xss_argsort
   * leaves a correct answer when arg starts as std::iota left it.
   */
  lemma {:induction false} IotaOrders(K: seq<int>, a0: seq<int>, descending: bool)
    requires |a0| == |K| && (forall i :: 0 <= i < |a0| ==> a0[i] == i)
    requires |K| <= 1 || IsSortedBy(descending, K)
    ensures ArgOrders(K, a0, a0, descending)
  {
    assert Gather(K, a0) == K;
    GatherKeys(K, a0);
    IsSortedByOrdered(descending, K);
  }

  /**
   * xss_argsort for int64 data: arrays of more than one element that are
   * not already in order (std::is_sorted with the direction's comparator)
   * go through argsort_ over [0, arrsize - 1] with a budget of
   * 2 * (arrsize_t)log2(arrsize), then arg is reversed when descending.
   * An array already in order returns arg untouched, which is a correct
   * answer only for the std::iota start every caller supplies.
   */
  method XssArgsort(arr: array<int>, arg: array<int>, arrsize: nat, descending: bool)
    requires arr != arg && arr.Length == arrsize && arg.Length == arrsize
    requires InRange(arr[..]) && IndexesIn(arg[..], arrsize)
    modifies arg
    ensures arrsize <= 1 || IsSortedBy(descending, arr[..]) ==> arg[..] == old(arg[..])
    ensures arrsize > 1 && !IsSortedBy(descending, arr[..]) ==> ArgOrders(arr[..], arg[..], old(arg[..]), descending)
    ensures (forall i :: 0 <= i < arrsize ==> old(arg[i]) == i) ==> ArgOrders(arr[..], arg[..], old(arg[..]), descending)
  {
    if arrsize > 1 {
      if IsSortedBy(descending, arr[..]) {
        IotaStart(arr[..], arg[..], descending);
        return;
      }
      ghost var A0 := arg[..];
      assert arg[0..arrsize] == arg[..];
      Argsort(arr, arg, 0, arrsize - 1, 2 * Log2Floor(arrsize));
      ghost var A1 := arg[..];
      if descending {
        ReverseRange(arg, 0, arrsize);
        assert arg[..] == arg[0..arrsize];
      }
      ArgSortFinished(arr[..], A0, A1, arg[..], descending);
    } else {
      IotaStart(arr[..], arg[..], descending);
    }
  }

  /** IotaOrders for the identity start, nothing asked of any other. */
  lemma {:induction false} IotaStart(K: seq<int>, a0: seq<int>, descending: bool)
    requires |a0| == |K| && IndexesIn(a0, |K|) && (|K| <= 1 || IsSortedBy(descending, K))
    ensures (forall i :: 0 <= i < |a0| ==> a0[i] == i) ==> ArgOrders(K, a0, a0, descending)
  {
    if forall i :: 0 <= i < |a0| ==> a0[i] == i {
      IotaOrders(K, a0, descending);
    }
  }

  /**
   * xss_argselect for int64 data: arrays of more than one element go
   * through argselect_ for position k over [0, arrsize - 1] with a budget of
   * 2 * (arrsize_t)log2(arrsize).
   */
  method XssArgselect(arr: array<int>, arg: array<int>, k: nat, arrsize: nat)
    requires arr != arg && arr.Length == arrsize && arg.Length == arrsize
    requires InRange(arr[..]) && IndexesIn(arg[..], arrsize)
    modifies arg
    ensures arrsize <= 1 ==> arg[..] == old(arg[..])
    ensures ArgSelects(arr[..], arg[..], old(arg[..]), k)
  {
    if arrsize > 1 {
      ghost var A0 := arg[..];
      assert arg[0..arrsize] == arg[..];
      Argselect(arr, arg, k, 0, arrsize - 1, 2 * Log2Floor(arrsize));
      assert arg[0..arrsize] == arg[..];
      ArgSelectFinished(arr[..], A0, arg[..], k);
    }
  }

  /**
   * x86simdsortStatic::argsort returning a vector: the indexes 0 .. size - 1
   * from std::iota, argsorted.
   */
  method ArgsortIndices(arr: array<int>, arrsize: nat, descending: bool) returns (indices: array<int>)
    requires arr.Length == arrsize && InRange(arr[..])
    ensures fresh(indices) && indices.Length == arrsize
    ensures multiset(indices[..]) == multiset(seq(arrsize, i => i)) && IndexesIn(indices[..], arrsize)
    ensures OrderedBy(descending, Keys(indices[..], KeyOf(arr[..])))
  {
    indices := new int[arrsize](i => i);
    ghost var A0 := indices[..];
    assert A0 == seq(arrsize, i => i);
    assert Gather(arr[..], A0) == arr[..];
    XssArgsort(arr, indices, arrsize, descending);
  }

  /**
   * x86simdsortStatic::argselect returning a vector: the indexes 0 .. size - 1
   * from std::iota, argselected at k.
   */
  method ArgselectIndices(arr: array<int>, k: nat, arrsize: nat) returns (indices: array<int>)
    requires arr.Length == arrsize && InRange(arr[..])
    ensures fresh(indices) && indices.Length == arrsize
    ensures multiset(indices[..]) == multiset(seq(arrsize, i => i)) && IndexesIn(indices[..], arrsize)
    ensures SelectedBy(false, Keys(indices[..], KeyOf(arr[..])), k)
  {
    indices := new int[arrsize](i => i);
    ghost var A0 := indices[..];
    assert A0 == seq(arrsize, i => i);
    assert Gather(arr[..], A0) == arr[..];
    XssArgselect(arr, indices, k, arrsize);
  }
}
