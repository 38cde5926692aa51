/**
 * The key-value quicksort of xss-common-keyvaluesort.hpp: kvsort_ and
 * kvselect_, and the entry points xss_qsort_kv, xss_select_kv and
 * xss_partial_sort_kv. The source keeps the keys and the values in two
 * arrays that every step permutes alike; here they are one array of
 * (key, value) pairs, compared by key. Keys are int64.
 */
module KeyValueSort {
  import opened Simd
  import opened Sorting
  import opened KeyedPartition
  import opened KvNetworks
  import opened KvSortN
  import opened KeyedSort
  import opened KeyedHeap
  import opened Pivot
  import opened CommonQsort
  import opened Comparators

  /** kvsort_n<128>: ranges of up to 128 pairs go to the network base case. */
  const KV_NETWORK_MAX: nat := 128

  /** The key a pair is compared by. */
  function PairKey<V>(p: Pair<V>): int
  {
    p.0
  }

  lemma {:induction false} PairKeys<V>(s: seq<Pair<V>>)
    ensures Keys(s, PairKey) == KeysOf(s)
  {
  }

  /** The network sort of a range, as kvsort_n promises it, is a keyed sort of the range. */
  lemma {:induction false} NetworkSortsKeyed<V>(a: seq<Pair<V>>, a0: seq<Pair<V>>, lo: int, hi: int)
    requires 0 <= lo <= hi <= |a| == |a0| && a[..lo] == a0[..lo] && a[hi..] == a0[hi..]
    requires KvSorted(a0[lo..hi], a[lo..hi])
    ensures KeyedSortedWithin(a, a0, PairKey, lo, hi)
  {
    PairKeys(a0[lo..hi]);
    PairKeys(a[lo..hi]);
    SortSeqSorted(KeysOf(a0[lo..hi]));
    SortSeqMultiset(KeysOf(a0[lo..hi]));
  }

  /** The parts of a partition of int64 keys hold int64 keys, as KeysOf sees them. */
  lemma {:induction false} PairPartsInRange<V>(A1: seq<Pair<V>>, A0: seq<Pair<V>>, left: int, p: int, hi: int,
                                               pivot: int)
    requires Partitioned(A1, A0, PairKey, left, hi, p, pivot, true) && InRange(KeysOf(A0[left..hi]))
    ensures InRange(KeysOf(A1[left..p])) && InRange(KeysOf(A1[p..hi]))
  {
    PairKeys(A0[left..hi]);
    PairKeys(A1[left..p]);
    PairKeys(A1[p..hi]);
    KeyedPartsInRange(A1, A0, PairKey, left, p, hi, pivot, true);
  }

  /** A rearrangement of pairs with int64 keys has int64 keys. */
  lemma {:induction false} PairsInRangeMultiset<V>(s: seq<Pair<V>>, t: seq<Pair<V>>)
    requires multiset(s) == multiset(t) && InRange(KeysOf(t))
    ensures InRange(KeysOf(s))
  {
    PairKeys(s);
    PairKeys(t);
    assert KeysAtMost(t, PairKey, TYPE_MAX) && KeysAtLeast(t, PairKey, TYPE_MIN);
    BoundsMultiset(s, t, PairKey, TYPE_MAX);
    BoundsMultiset(s, t, PairKey, TYPE_MIN);
  }

  /** Two neighbouring ranges of int64 keys make one. */
  lemma {:induction false} JoinInRange<V>(A2: seq<Pair<V>>, A3: seq<Pair<V>>, left: int, p: int, hi: int)
    requires Frame(A3, A2, p, hi) && 0 <= left <= p
    requires InRange(KeysOf(A2[left..p])) && InRange(KeysOf(A3[p..hi]))
    ensures InRange(KeysOf(A3[left..hi]))
  {
    assert A3[left..p] == A2[left..p] by {
      assert A3[..p][left..] == A3[left..p] && A2[..p][left..] == A2[left..p];
    }
    forall i | 0 <= i < hi - left ensures TYPE_MIN <= KeysOf(A3[left..hi])[i] <= TYPE_MAX {
      assert KeysOf(A3[left..hi])[i] == A3[left..hi][i].0;
      if i < p - left {
        assert A3[left..hi][i] == A2[left..p][i] && KeysOf(A2[left..p])[i] == A2[left..p][i].0;
      } else {
        var j := i - (p - left);
        assert A3[left..hi][i] == A3[p..hi][j] && KeysOf(A3[p..hi])[j] == A3[p..hi][j].0;
      }
    }
  }

  /** The keys array get_pivot_blocks reads. */
  method KeysArray<V>(arr: array<Pair<V>>) returns (keys: array<int>)
    ensures fresh(keys) && keys[..] == KeysOf(arr[..])
  {
    keys := new int[arr.Length](i requires 0 <= i < arr.Length reads arr => arr[i].0);
  }

  /**
   * The pivot and the partition of kvsort_ and kvselect_: get_pivot_blocks
   * on the keys of [left, right], then kvpartition_unrolled over
   * [left, right + 1) with smallest and biggest starting at type_max and
   * type_min.
   */
  method PivotPartition<V(==)>(arr: array<Pair<V>>, left: nat, right: nat)
    returns (pivot: int, p: int, smallest: int, biggest: int)
    requires left <= right < arr.Length && InRange(KeysOf(arr[left..right + 1]))
    modifies arr
    ensures Partitioned(arr[..], old(arr[..]), PairKey, left, right + 1, p, pivot, true)
    ensures Extremes(arr[left..right + 1], PairKey, TYPE_MAX, TYPE_MIN, smallest, biggest)
    ensures InRange(KeysOf(arr[left..p])) && InRange(KeysOf(arr[p..right + 1]))
  {
    var keys := KeysArray(arr);
    pivot := GetPivotBlocks(keys, left, right);
    p, smallest, biggest := KeyedPartition.Partition(arr, PairKey, left, right + 1, pivot, true, TYPE_MAX, TYPE_MIN);
    PairPartsInRange(arr[..], old(arr[..]), left, p, right + 1, pivot);
  }

  /** The base case of kvsort_ and kvselect_: kvsort_n<128> on keys + left and indexes + left. */
  method KvNetwork<V(!new)>(arr: array<Pair<V>>, left: nat, hi: nat, vmax: V)
    requires left <= hi <= arr.Length && hi - left <= KV_NETWORK_MAX && InRange(KeysOf(arr[left..hi]))
    modifies arr
    ensures KeyedSortedWithin(arr[..], old(arr[..]), PairKey, left, hi)
    ensures InRange(KeysOf(arr[left..hi]))
  {
    KvsortN(arr, left, hi - left, KV_NETWORK_MAX, 4, vmax);
    NetworkSortsKeyed(arr[..], old(arr[..]), left, hi);
    SortSeqMultiset(KeysOf(old(arr[left..hi])));
    InRangeMultiset(KeysOf(old(arr[left..hi])), KeysOf(arr[left..hi]));
  }

  /**
   * kvsort_(left, right, max_iters): with the budget spent the range is
   * heap-sorted; ranges of at most 128 pairs go to kvsort_n<128>; otherwise
   * the range is partitioned around the pivot of get_pivot_blocks, equal
   * keys staying on the left in the scalar prologue, and each part is
   * sorted unless the pivot is its smallest (left part) or largest (right
   * part) key, when that part holds nothing but the pivot. Pairs move
   * together, so each value stays with its key.
   */
  method Kvsort<V(==, !new)>(arr: array<Pair<V>>, left: nat, right: int, maxIters: int, vmax: V)
    requires left <= right + 1 <= arr.Length && InRange(KeysOf(arr[left..right + 1]))
    modifies arr
    ensures KeyedSortedWithin(arr[..], old(arr[..]), PairKey, left, right + 1)
    ensures InRange(KeysOf(arr[left..right + 1]))
    decreases maxIters
  {
    var hi := right + 1;
    if maxIters <= 0 {
      HeapSort(arr, PairKey, left, hi - left);
      PairsInRangeMultiset(arr[left..hi], old(arr[left..hi]));
      return;
    }
    if hi - left <= KV_NETWORK_MAX {
      KvNetwork(arr, left, hi, vmax);
      return;
    }
    ghost var A0 := arr[..];
    var pivot, p, smallest, biggest := PivotPartition(arr, left, right);
    ghost var A1 := arr[..];
    if pivot != smallest {
      Kvsort(arr, left, p - 1, maxIters - 1, vmax);
    } else {
      LowPartConstant(A1, A0, PairKey, left, p, hi, pivot, true, smallest, biggest);
      ConstantSorted(A1, PairKey, left, p, pivot);
    }
    ghost var A2 := arr[..];
    FrameKeeps(A2, A1, left, p, hi);
    if pivot != biggest {
      Kvsort(arr, p, right, maxIters - 1, vmax);
    } else {
      HighPartConstant(A1, A0, A2, PairKey, left, p, hi, pivot, true, smallest, biggest);
      ConstantSorted(A2, PairKey, p, hi, pivot);
    }
    SortJoin(A0, A1, A2, arr[..], PairKey, left, p, hi, pivot, true);
    JoinInRange(A2, arr[..], left, p, hi);
  }

  /**
   * kvselect_(pos, left, right, max_iters): as kvsort_, but after the
   * partition only the part holding pos is worked on, and not even that one
   * when the pivot is its smallest (left part) or largest (right part) key.
   */
  method Kvselect<V(==, !new)>(arr: array<Pair<V>>, pos: nat, left: nat, right: int, maxIters: int, vmax: V)
    requires left <= right + 1 <= arr.Length && InRange(KeysOf(arr[left..right + 1]))
    modifies arr
    ensures KeyedSelectedWithin(arr[..], old(arr[..]), PairKey, left, right + 1, pos)
    ensures InRange(KeysOf(arr[left..right + 1]))
    decreases maxIters
  {
    var hi := right + 1;
    if maxIters <= 0 {
      HeapSort(arr, PairKey, left, hi - left);
      SortedSelects(arr[..], old(arr[..]), PairKey, left, hi, pos);
      PairsInRangeMultiset(arr[left..hi], old(arr[left..hi]));
      return;
    }
    if hi - left <= KV_NETWORK_MAX {
      ghost var A := arr[..];
      KvNetwork(arr, left, hi, vmax);
      SortedSelects(arr[..], A, PairKey, left, hi, pos);
      return;
    }
    ghost var A0 := arr[..];
    var pivot, p, smallest, biggest := PivotPartition(arr, left, right);
    ghost var A1 := arr[..];
    if pivot != smallest && pos < p {
      Kvselect(arr, pos, left, p - 1, maxIters - 1, vmax);
      ghost var A2 := arr[..];
      SelectLower(A0, A1, A2, PairKey, left, p, hi, pivot, true, pos);
      FrameKeeps(A2, A1, left, p, hi);
      JoinInRange(A2, A2, left, p, hi);
    } else if pivot != biggest && pos >= p {
      Kvselect(arr, pos, p, right, maxIters - 1, vmax);
      ghost var A2 := arr[..];
      SelectUpper(A0, A1, A2, PairKey, left, p, hi, pivot, true, pos);
      JoinInRange(A1, A2, left, p, hi);
    } else {
      if pos < p {
        LowPartConstant(A1, A0, PairKey, left, p, hi, pivot, true, smallest, biggest);
      } else {
        HighPartConstant(A1, A0, A1, PairKey, left, p, hi, pivot, true, smallest, biggest);
      }
      SelectNoCall(A0, A1, PairKey, left, p, hi, pivot, true, pos);
      JoinInRange(A1, A1, left, p, hi);
    }
  }

  // ------------------------------------------------------------ entry points

  /**
   * The first n pairs of a are a rearrangement of a0's first n pairs with
   * their keys in the order of the given direction; the pairs from n on are
   * a0's.
   */
  ghost predicate KvSortedBy<V>(a: seq<Pair<V>>, a0: seq<Pair<V>>, n: int, descending: bool)
  {
    0 <= n <= |a| == |a0| && a[n..] == a0[n..]
    && multiset(a[..n]) == multiset(a0[..n]) && OrderedBy(descending, KeysOf(a[..n]))
  }

  /** As KvSortedBy, with only position k of the first n promised in its place. */
  ghost predicate KvSelectedBy<V>(a: seq<Pair<V>>, a0: seq<Pair<V>>, n: int, k: int, descending: bool)
  {
    0 <= n <= |a| == |a0| && a[n..] == a0[n..]
    && multiset(a[..n]) == multiset(a0[..n]) && SelectedBy(descending, KeysOf(a[..n]), k)
  }

  /**
   * As KvSortedBy, with the first k of the first n in order and none of
   * the rest belonging before any of them.
   */
  ghost predicate KvPartialSortedBy<V>(a: seq<Pair<V>>, a0: seq<Pair<V>>, n: int, k: int, descending: bool)
  {
    0 <= k <= n <= |a| == |a0| && a[n..] == a0[n..]
    && multiset(a[..n]) == multiset(a0[..n]) && OrderedBy(descending, KeysOf(a[..k]))
    && (forall i, j :: 0 <= i < k <= j < n ==> !StdSortComparator(descending, a[j].0, a[i].0))
  }

  /** A sorted range, reversed when descending, is in the order of that direction. */
  lemma {:induction false} SortFinished<V>(a0: seq<Pair<V>>, a1: seq<Pair<V>>, a2: seq<Pair<V>>, n: int,
                                           descending: bool)
    requires KeyedSortedWithin(a1, a0, PairKey, 0, n) && InRange(KeysOf(a1[0..n]))
    requires descending ==> Frame(a2, a1, 0, n) && a2[0..n] == Reversed(a1[0..n])
    requires !descending ==> a2 == a1
    ensures KvSortedBy(a2, a0, n, descending) && InRange(KeysOf(a2[..n]))
  {
    assert a0[0..n] == a0[..n] && a1[0..n] == a1[..n] && a2[0..n] == a2[..n];
    PairKeys(a0[..n]);
    PairKeys(a1[..n]);
    PairKeys(a2[..n]);
    if descending {
      ReversedKeys(a1[..n], PairKey);
      ReversedMultiset(a1[..n]);
      ReversedOrdered(KeysOf(a1[..n]));
    } else {
      SortedOrdered(KeysOf(a1[..n]));
    }
  }

  /** Keys of a range selected at pos, as SelectedBy sees them. */
  lemma {:induction false} KeySelectedBy<V>(a: seq<Pair<V>>, n: int, pos: int)
    requires 0 <= n <= |a| && KeySelectedAt(a, PairKey, 0, n, pos)
    ensures SelectedBy(false, KeysOf(a[..n]), pos)
  {
  }

  /** A selected range, reversed when descending, has position k in its place for that direction. */
  lemma {:induction false} SelectFinished<V>(a0: seq<Pair<V>>, a1: seq<Pair<V>>, a2: seq<Pair<V>>, n: int,
                                             k: int, pos: int, descending: bool)
    requires KeyedSelectedWithin(a1, a0, PairKey, 0, n, pos) && InRange(KeysOf(a1[0..n]))
    requires descending ==> Frame(a2, a1, 0, n) && a2[0..n] == Reversed(a1[0..n]) && (0 <= k < n ==> pos == n - 1 - k)
    requires !descending ==> a2 == a1 && pos == k
    ensures KvSelectedBy(a2, a0, n, k, descending) && InRange(KeysOf(a2[..n]))
  {
    assert a0[0..n] == a0[..n] && a1[0..n] == a1[..n] && a2[0..n] == a2[..n];
    PairKeys(a0[..n]);
    PairKeys(a1[..n]);
    PairKeys(a2[..n]);
    KeySelectedBy(a1, n, pos);
    if descending {
      ReversedKeys(a1[..n], PairKey);
      ReversedMultiset(a1[..n]);
      if 0 <= k < n {
        ReversedSelected(KeysOf(a1[..n]), k);
      }
    }
  }

  /** Ranges of at most one pair are in order either way. */
  lemma {:induction false} ShortFinished<V>(a: seq<Pair<V>>, n: int, k: int, descending: bool)
    requires 0 <= n <= 1 && n <= |a|
    ensures KvSortedBy(a, a, n, descending) && KvSelectedBy(a, a, n, k, descending)
  {
  }

  /**
   * xss_qsort_kv for int64 keys: arrays of more than one pair go through
   * kvsort_ over [0, arrsize - 1] with a budget of (int)(2 * log2(arrsize)),
   * then both arrays are reversed when descending.
   */
  method XssQsortKv<V(==, !new)>(arr: array<Pair<V>>, arrsize: nat, descending: bool, vmax: V)
    requires arrsize <= arr.Length && InRange(KeysOf(arr[..arrsize]))
    modifies arr
    ensures KvSortedBy(arr[..], old(arr[..]), arrsize, descending)
    ensures InRange(KeysOf(arr[..arrsize]))
  {
    if arrsize > 1 {
      ghost var A0 := arr[..];
      assert arr[0..arrsize] == arr[..arrsize];
      Kvsort(arr, 0, arrsize - 1, Log2Floor(arrsize * arrsize), vmax);
      ghost var A1 := arr[..];
      if descending {
        ReverseRange(arr, 0, arrsize);
      }
      SortFinished(A0, A1, arr[..], arrsize, descending);
    } else {
      ShortFinished(arr[..], arrsize, 0, descending);
    }
  }

  /**
   * xss_select_kv for int64 keys: when descending, k becomes
   * arrsize - 1 - k (in arrsize_t arithmetic); kvselect_ over
   * [0, arrsize - 1], then both arrays are reversed when descending.
   */
  method XssSelectKv<V(==, !new)>(arr: array<Pair<V>>, k: nat, arrsize: nat, descending: bool, vmax: V)
    requires arrsize <= arr.Length && k < ARRSIZE_MOD && arrsize < ARRSIZE_MOD && InRange(KeysOf(arr[..arrsize]))
    modifies arr
    ensures KvSelectedBy(arr[..], old(arr[..]), arrsize, k, descending)
    ensures InRange(KeysOf(arr[..arrsize]))
  {
    if arrsize > 1 {
      var pos := k;
      if descending {
        pos := Wrap(arrsize - 1 - k);
      }
      ghost var A0 := arr[..];
      assert arr[0..arrsize] == arr[..arrsize];
      Kvselect(arr, pos, 0, arrsize - 1, Log2Floor(arrsize * arrsize), vmax);
      ghost var A1 := arr[..];
      if descending {
        ReverseRange(arr, 0, arrsize);
      }
      SelectFinished(A0, A1, arr[..], arrsize, k, pos, descending);
    } else {
      ShortFinished(arr[..], arrsize, k, descending);
    }
  }

  /** A prefix of int64 keys holds int64 keys. */
  lemma {:induction false} PrefixInRange<V>(a: seq<Pair<V>>, m: int, n: int)
    requires 0 <= m <= n <= |a| && InRange(KeysOf(a[..n]))
    ensures InRange(KeysOf(a[..m]))
  {
    forall i | 0 <= i < m ensures TYPE_MIN <= KeysOf(a[..m])[i] <= TYPE_MAX {
      assert KeysOf(a[..m])[i] == a[i].0 == KeysOf(a[..n])[i];
    }
  }

  /** Keys that belong no later than c, through a rearrangement. */
  lemma {:induction false} NoLaterMultiset(s: seq<int>, t: seq<int>, descending: bool, c: int)
    requires multiset(s) == multiset(t)
    requires forall i :: 0 <= i < |t| ==> !StdSortComparator(descending, c, t[i])
    ensures forall i :: 0 <= i < |s| ==> !StdSortComparator(descending, c, s[i])
  {
    forall i | 0 <= i < |s| ensures !StdSortComparator(descending, c, s[i]) {
      assert s[i] in multiset(t);
    }
  }

  /** After the selection of k - 1 and the sort of the k - 1 pairs before it, the first k are in order. */
  lemma {:induction false} PartialFinished<V>(a0: seq<Pair<V>>, a1: seq<Pair<V>>, a2: seq<Pair<V>>, n: int,
                                              k: int, descending: bool)
    requires 0 < k <= n && KvSelectedBy(a1, a0, n, k - 1, descending) && KvSortedBy(a2, a1, k - 1, descending)
    ensures KvPartialSortedBy(a2, a0, n, k, descending)
  {
    var m := k - 1;
    assert a2[n..] == a1[n..] by {
      assert a2[m..][n - m..] == a2[n..] && a1[m..][n - m..] == a1[n..];
    }
    assert a2[m..] == a1[m..];
    assert a2[m] == a1[m] by {
      assert a2[m..][0] == a1[m..][0];
    }
    assert a2[m..n] == a1[m..n];
    var c := a1[m].0;
    assert forall i :: 0 <= i < m ==> !StdSortComparator(descending, c, KeysOf(a1[..m])[i]) by {
      forall i | 0 <= i < m ensures !StdSortComparator(descending, c, KeysOf(a1[..m])[i]) {
        assert KeysOf(a1[..n])[i] == KeysOf(a1[..m])[i] && KeysOf(a1[..n])[m] == c;
      }
    }
    PairsMultiset(a2[..m], a1[..m]);
    NoLaterMultiset(KeysOf(a2[..m]), KeysOf(a1[..m]), descending, c);
    forall i, j | 0 <= i < j < k ensures !StdSortComparator(descending, KeysOf(a2[..k])[j], KeysOf(a2[..k])[i]) {
      assert KeysOf(a2[..k])[i] == a2[i].0 == KeysOf(a2[..m])[i];
      if j < m {
        assert KeysOf(a2[..k])[j] == KeysOf(a2[..m])[j];
      }
    }
    forall i, j | 0 <= i < k <= j < n ensures !StdSortComparator(descending, a2[j].0, a2[i].0) {
      assert a2[j] == a1[j] by {
        assert a2[m..][j - m] == a1[m..][j - m];
      }
      assert KeysOf(a1[..n])[j] == a1[j].0 && KeysOf(a1[..n])[m] == c;
      if i < m {
        assert KeysOf(a2[..m])[i] == a2[i].0;
      }
    }
    SplitAt(a2, 0, m, n);
    SplitAt(a1, 0, m, n);
    assert a2[0..n] == a2[..n] && a2[0..m] == a2[..m];
    assert a1[0..n] == a1[..n] && a1[0..m] == a1[..m];
  }

  /**
   * xss_partial_sort_kv for int64 keys: nothing for k == 0; otherwise
   * xss_select_kv of k - 1 over the whole array, then xss_qsort_kv of the
   * k - 1 pairs before it.
   */
  method XssPartialSortKv<V(==, !new)>(arr: array<Pair<V>>, k: nat, arrsize: nat, descending: bool, vmax: V)
    requires k <= arrsize <= arr.Length && arrsize < ARRSIZE_MOD && InRange(KeysOf(arr[..arrsize]))
    modifies arr
    ensures KvPartialSortedBy(arr[..], old(arr[..]), arrsize, k, descending)
  {
    if k == 0 {
      return;
    }
    ghost var A0 := arr[..];
    XssSelectKv(arr, k - 1, arrsize, descending, vmax);
    ghost var A1 := arr[..];
    PrefixInRange(arr[..], k - 1, arrsize);
    XssQsortKv(arr, k - 1, descending, vmax);
    PartialFinished(A0, A1, arr[..], arrsize, k, descending);
  }
}
