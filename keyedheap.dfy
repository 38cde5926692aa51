/**
 * heapify and heap_sort of xss-common-keyvaluesort.hpp, the fallback of
 * kvsort_ and kvselect_ when the recursion budget is spent. The source
 * works on keys + left and indexes + left and swaps a key and its index
 * together; here the heap lives in the slots [lo, hi) of an array of
 * elements compared by `key`, slot lo being the root, so heap index i is
 * slot lo + i. heapify sifts an element down a max-heap; heap_sort builds
 * the heap bottom-up and then moves the root behind the shrinking heap.
 */
module KeyedHeap {
  import opened Simd
  import opened KeyedPartition
  import opened KeyedSort

  /** The slot of the parent of slot c, (i - 1) / 2 in heap indexes. */
  function Parent(lo: int, c: int): int
  {
    lo + (c - lo - 1) / 2
  }

  /** The slot of the first child of slot x, 2 * i + 1 in heap indexes. */
  function Child(lo: int, x: int): int
  {
    2 * x - lo + 1
  }

  /** The children of x are the two slots from Child(lo, x) on. */
  lemma ParentChild(lo: int, x: int, c: int)
    requires lo <= x && lo < c
    ensures Parent(lo, c) == x <==> Child(lo, x) <= c <= Child(lo, x) + 1
    ensures lo <= Parent(lo, c) < c
  {
  }

  /**
   * Every parent from slot g on in the heap [lo, hi) has a key at least
   * that of each of its children.
   */
  ghost predicate HeapFrom<E>(a: seq<E>, key: E -> int, lo: int, hi: int, g: int)
  {
    0 <= lo <= hi <= |a|
    && forall c :: lo < c < hi && g <= Parent(lo, c) ==> key(a[c]) <= key(a[Parent(lo, c)])
  }

  /**
   * heapify sifting down from g, now at slot x: every edge from g on holds
   * except those from x to its children, and x's parent (when x is below g)
   * has a key at least those of x's children.
   */
  ghost predicate Sifting<E>(a: seq<E>, key: E -> int, lo: int, hi: int, g: int, x: int)
  {
    0 <= lo <= g <= x < hi <= |a|
    && (forall c :: lo < c < hi && g <= Parent(lo, c) && Parent(lo, c) != x ==> key(a[c]) <= key(a[Parent(lo, c)]))
    && (g < x ==> lo < x && g <= Parent(lo, x)
                  && forall c :: lo < c < hi && Parent(lo, c) == x ==> key(a[c]) <= key(a[Parent(lo, x)]))
  }

  lemma {:induction false} SiftStart<E>(a: seq<E>, key: E -> int, lo: int, hi: int, g: int)
    requires lo <= g < hi && HeapFrom(a, key, lo, hi, g + 1)
    ensures Sifting(a, key, lo, hi, g, g)
  {
  }

  /** x has no child in the heap: the sift is done. */
  lemma {:induction false} SiftLeaf<E>(a: seq<E>, key: E -> int, lo: int, hi: int, g: int, x: int)
    requires Sifting(a, key, lo, hi, g, x) && Child(lo, x) >= hi
    ensures HeapFrom(a, key, lo, hi, g)
  {
    forall c | lo < c < hi && g <= Parent(lo, c) ensures key(a[c]) <= key(a[Parent(lo, c)]) {
      ParentChild(lo, x, c);
    }
  }

  /** The larger child j of x has a smaller key than x: the sift is done. */
  lemma {:induction false} SiftSettled<E>(a: seq<E>, key: E -> int, lo: int, hi: int, g: int, x: int, j: int)
    requires Sifting(a, key, lo, hi, g, x) && 0 <= j < |a|
    requires forall c :: lo < c < hi && Parent(lo, c) == x ==> key(a[c]) <= key(a[j])
    requires key(a[j]) < key(a[x])
    ensures HeapFrom(a, key, lo, hi, g)
  {
  }

  /** Exchanging x with its larger child j, no smaller than x, moves the sift down to j. */
  lemma {:induction false} SiftStep<E>(a: seq<E>, key: E -> int, lo: int, hi: int, g: int, x: int, j: int)
    requires Sifting(a, key, lo, hi, g, x) && Child(lo, x) <= j <= Child(lo, x) + 1 && j < hi
    requires forall c :: lo < c < hi && Parent(lo, c) == x ==> key(a[c]) <= key(a[j])
    requires key(a[x]) <= key(a[j])
    ensures Sifting(a[x := a[j]][j := a[x]], key, lo, hi, g, j)
  {
    var b := a[x := a[j]][j := a[x]];
    ParentChild(lo, x, j);
    forall c | lo < c < hi && g <= Parent(lo, c) && Parent(lo, c) != j
      ensures key(b[c]) <= key(b[Parent(lo, c)])
    {
      var P := Parent(lo, c);
      ParentChild(lo, x, c);
      if c == x {
        assert b[c] == a[j] && b[P] == a[P];
      } else if c == j {
        assert b[c] == a[x] && b[P] == a[j];
      } else if P == x {
        assert b[c] == a[c] && b[P] == a[j];
      } else {
        ParentChild(lo, j, c);
        assert b[c] == a[c] && b[P] == a[P];
      }
    }
    forall c | lo < c < hi && Parent(lo, c) == j ensures key(b[c]) <= key(b[Parent(lo, j)]) {
      ParentChild(lo, j, c);
      assert b[c] == a[c] && b[x] == a[j];
    }
  }

  /**
   * heapify(keys + lo, indexes + lo, x0 - lo, hi - lo): the element at x0
   * sinks until no child has a larger key. With every parent below x0
   * already in order, afterwards every parent from x0 on is; only [lo, hi)
   * is rearranged.
   */
  method Heapify<E>(arr: array<E>, key: E -> int, lo: int, hi: int, x0: int)
    requires 0 <= lo <= x0 < hi <= arr.Length && HeapFrom(arr[..], key, lo, hi, x0 + 1)
    modifies arr
    ensures HeapFrom(arr[..], key, lo, hi, x0)
    ensures multiset(arr[lo..hi]) == multiset(old(arr[lo..hi]))
    ensures Frame(arr[..], old(arr[..]), lo, hi)
  {
    var x := x0;
    SiftStart(arr[..], key, lo, hi, x0);
    while true
      invariant Sifting(arr[..], key, lo, hi, x0, x)
      invariant multiset(arr[lo..hi]) == multiset(old(arr[lo..hi]))
      invariant Frame(arr[..], old(arr[..]), lo, hi)
      decreases hi - x
    {
      var j := Child(lo, x);
      if j >= hi {
        SiftLeaf(arr[..], key, lo, hi, x0, x);
        break;
      }
      var k := j + 1;
      if k < hi && key(arr[j]) < key(arr[k]) {
        j := k;
      }
      assert forall c :: lo < c < hi && Parent(lo, c) == x ==> key(arr[c]) <= key(arr[j]) by {
        forall c | lo < c < hi && Parent(lo, c) == x ensures key(arr[c]) <= key(arr[j]) {
          ParentChild(lo, x, c);
        }
      }
      if key(arr[j]) < key(arr[x]) {
        SiftSettled(arr[..], key, lo, hi, x0, x, j);
        break;
      }
      ghost var A := arr[..];
      arr[x], arr[j] := arr[j], arr[x];
      assert arr[..] == A[x := A[j]][j := A[x]];
      SiftStep(A, key, lo, hi, x0, x, j);
      SwapMultiset(A, lo, hi, x, j);
      SwapFrame(A, lo, hi, x, j);
      x := j;
    }
  }

  lemma {:induction false} SwapFrame<E>(a: seq<E>, lo: int, hi: int, i: int, j: int)
    requires 0 <= lo <= i <= j < hi <= |a|
    ensures Frame(a[i := a[j]][j := a[i]], a, lo, hi)
  {
  }

  // ------------------------------------------------------------ heap_sort

  /** Slots from lo + size / 2 on have no children: the heap condition holds from there. */
  lemma {:induction false} HeapLeaves<E>(a: seq<E>, key: E -> int, lo: int, size: int)
    requires 0 <= lo && lo + size <= |a| && 0 <= size
    ensures HeapFrom(a, key, lo, lo + size, lo + size / 2)
  {
    forall c | lo < c < lo + size ensures Parent(lo, c) < lo + size / 2 {
    }
  }

  /** The root of a heap has the largest key. */
  lemma {:induction false} RootMax<E>(a: seq<E>, key: E -> int, lo: int, hi: int, c: int)
    requires HeapFrom(a, key, lo, hi, lo) && lo <= c < hi
    ensures key(a[c]) <= key(a[lo])
    decreases c
  {
    if c > lo {
      ParentChild(lo, Parent(lo, c), c);
      RootMax(a, key, lo, hi, Parent(lo, c));
    }
  }

  /**
   * The sorting phase of heap_sort with the heap in [lo, m): the slots from
   * m on are sorted by key, and no key in the heap exceeds the key at m.
   */
  ghost predicate SortPhase<E>(a: seq<E>, a0: seq<E>, key: E -> int, lo: int, m: int, hi: int)
  {
    lo < m <= hi && Frame(a, a0, lo, hi) && multiset(a[lo..hi]) == multiset(a0[lo..hi])
    && HeapFrom(a, key, lo, m, lo)
    && (forall p, q :: m <= p < q < hi ==> key(a[p]) <= key(a[q]))
    && (m < hi ==> forall p :: lo <= p < m ==> key(a[p]) <= key(a[m]))
  }

  /**
   * Just after the root was exchanged with the last heap slot t: the heap
   * [lo, t) is in order below its root, the slots from t on are sorted, and
   * no key before t exceeds the key at t.
   */
  ghost predicate Extracted<E>(a: seq<E>, a0: seq<E>, key: E -> int, lo: int, t: int, hi: int)
  {
    lo < t < hi && Frame(a, a0, lo, hi) && multiset(a[lo..hi]) == multiset(a0[lo..hi])
    && HeapFrom(a, key, lo, t, lo + 1)
    && (forall p, q :: t <= p < q < hi ==> key(a[p]) <= key(a[q]))
    && (forall p :: lo <= p < t ==> key(a[p]) <= key(a[t]))
  }

  lemma {:induction false} SortPhaseStart<E>(a: seq<E>, key: E -> int, lo: int, hi: int)
    requires lo < hi && HeapFrom(a, key, lo, hi, lo)
    ensures SortPhase(a, a, key, lo, hi, hi)
  {
  }

  /** Exchanging the root with the last heap slot. */
  lemma {:induction false} SwapRoot<E>(a: seq<E>, a0: seq<E>, key: E -> int, lo: int, t: int, hi: int)
    requires SortPhase(a, a0, key, lo, t + 1, hi) && lo < t
    ensures Extracted(a[lo := a[t]][t := a[lo]], a0, key, lo, t, hi)
  {
    var m := t + 1;
    var b := a[lo := a[t]][t := a[lo]];
    forall c | lo <= c < m ensures key(a[c]) <= key(a[lo]) {
      RootMax(a, key, lo, m, c);
    }
    forall c | lo < c < t && lo + 1 <= Parent(lo, c) ensures key(b[c]) <= key(b[Parent(lo, c)]) {
      ParentChild(lo, Parent(lo, c), c);
    }
    forall p, q | t <= p < q < hi ensures key(b[p]) <= key(b[q]) {
      if p == t && m < hi {
        assert key(a[lo]) <= key(a[m]);
        if q > m { assert key(a[m]) <= key(a[q]); }
      }
    }
    SwapMultiset(a, lo, hi, lo, t);
    SwapFrame(a, lo, hi, lo, t);
  }

  /**
   * Rearranging [lo, t) inside a rearrangement of [lo, hi) is a
   * rearrangement of [lo, hi), and leaves the slots from t on alone.
   */
  lemma {:induction false} FrameInner<E>(c: seq<E>, b: seq<E>, a0: seq<E>, lo: int, t: int, hi: int)
    requires Frame(c, b, lo, t) && Frame(b, a0, lo, hi) && t <= hi
    requires multiset(c[lo..t]) == multiset(b[lo..t]) && multiset(b[lo..hi]) == multiset(a0[lo..hi])
    ensures Frame(c, a0, lo, hi) && multiset(c[lo..hi]) == multiset(a0[lo..hi])
    ensures forall p :: t <= p < |c| ==> c[p] == b[p]
  {
    forall p | t <= p < |c| ensures c[p] == b[p] {
      assert c[t..][p - t] == b[t..][p - t];
    }
    SplitAt(c, lo, t, hi);
    SplitAt(b, lo, t, hi);
    assert c[t..hi] == b[t..hi];
    assert c[hi..] == b[hi..] by {
      assert c[t..][hi - t..] == c[hi..] && b[t..][hi - t..] == b[hi..];
    }
  }

  /** A rearrangement of keys at most x has keys at most x, slot by slot. */
  lemma {:induction false} RangeAtMost<E>(c: seq<E>, b: seq<E>, key: E -> int, lo: int, t: int)
    requires 0 <= lo <= t < |b| == |c| && multiset(c[lo..t]) == multiset(b[lo..t])
    requires forall p :: lo <= p < t ==> key(b[p]) <= key(b[t])
    ensures forall p :: lo <= p < t ==> key(c[p]) <= key(b[t])
  {
    assert KeysAtMost(b[lo..t], key, key(b[t])) by {
      forall i | 0 <= i < t - lo ensures key(b[lo..t][i]) <= key(b[t]) {
        assert b[lo..t][i] == b[lo + i];
      }
    }
    BoundsMultiset(c[lo..t], b[lo..t], key, key(b[t]));
    forall p | lo <= p < t ensures key(c[p]) <= key(b[t]) {
      assert c[lo..t][p - lo] == c[p];
    }
  }

  /** heapify of the root over [lo, t) restores the sorting phase with the heap one slot shorter. */
  lemma {:induction false} Restored<E>(b: seq<E>, c: seq<E>, a0: seq<E>, key: E -> int, lo: int, t: int, hi: int)
    requires Extracted(b, a0, key, lo, t, hi)
    requires HeapFrom(c, key, lo, t, lo) && multiset(c[lo..t]) == multiset(b[lo..t]) && Frame(c, b, lo, t)
    ensures SortPhase(c, a0, key, lo, t, hi)
  {
    FrameInner(c, b, a0, lo, t, hi);
    RangeAtMost(c, b, key, lo, t);
  }

  /** With one slot left in the heap, the whole range is sorted. */
  lemma {:induction false} SortPhaseDone<E>(a: seq<E>, a0: seq<E>, key: E -> int, lo: int, hi: int)
    requires SortPhase(a, a0, key, lo, lo + 1, hi)
    ensures Sorted(Keys(a[lo..hi], key))
  {
    var t := Keys(a[lo..hi], key);
    forall i, j | 0 <= i < j < |t| ensures t[i] <= t[j] {
      assert t[i] == key(a[lo + i]) && t[j] == key(a[lo + j]);
      if i == 0 && j > 1 {
        assert key(a[lo]) <= key(a[lo + 1]);
      }
    }
  }

  /** Ranges of at most one element are sorted. */
  lemma {:induction false} ShortSorted<E>(a: seq<E>, key: E -> int, lo: int, size: int)
    requires 0 <= lo && 0 <= size <= 1 && lo + size <= |a|
    ensures Sorted(Keys(a[lo..lo + size], key))
  {
  }

  /**
   * The first loop of heap_sort: heapify from slot size / 2 - 1 down to the
   * root makes [lo, hi) a max-heap.
   */
  method BuildHeap<E>(arr: array<E>, key: E -> int, lo: int, hi: int)
    requires 0 <= lo < hi <= arr.Length
    modifies arr
    ensures HeapFrom(arr[..], key, lo, hi, lo)
    ensures multiset(arr[lo..hi]) == multiset(old(arr[lo..hi])) && Frame(arr[..], old(arr[..]), lo, hi)
  {
    ghost var a0 := arr[..];
    var i := (hi - lo) / 2 - 1;
    HeapLeaves(arr[..], key, lo, hi - lo);
    if i < 0 {
      return;
    }
    while true
      invariant 0 <= i < (hi - lo) / 2
      invariant HeapFrom(arr[..], key, lo, hi, lo + i + 1)
      invariant multiset(arr[lo..hi]) == multiset(a0[lo..hi]) && Frame(arr[..], a0, lo, hi)
      decreases i
    {
      Heapify(arr, key, lo, hi, lo + i);
      if i == 0 {
        break;
      }
      i := i - 1;
    }
  }

  /**
   * One round of the second loop of heap_sort: the root is exchanged with
   * the last heap slot t = m - 1 and sifted down in the heap [lo, t).
   */
  method SortStep<E>(arr: array<E>, key: E -> int, lo: int, m: int, hi: int, ghost a1: seq<E>)
    requires lo + 1 < m && SortPhase(arr[..], a1, key, lo, m, hi)
    modifies arr
    ensures SortPhase(arr[..], a1, key, lo, m - 1, hi)
  {
    var t := m - 1;
    ghost var A := arr[..];
    ghost var B := A[lo := A[t]][t := A[lo]];
    SwapRoot(A, a1, key, lo, t, hi);
    arr[lo], arr[t] := arr[t], arr[lo];
    assert arr[..] == B;
    Heapify(arr, key, lo, t, lo);
    ghost var C := arr[..];
    Restored(B, C, a1, key, lo, t, hi);
  }

  /**
   * The second loop of heap_sort: hi - lo - 1 times the root of the heap is
   * exchanged with the last heap slot and sifted down in the heap one slot
   * shorter, which leaves [lo, hi) sorted by key.
   */
  method SortHeap<E>(arr: array<E>, key: E -> int, lo: int, hi: int)
    requires 0 <= lo < hi <= arr.Length && HeapFrom(arr[..], key, lo, hi, lo)
    modifies arr
    ensures Sorted(Keys(arr[lo..hi], key))
    ensures multiset(arr[lo..hi]) == multiset(old(arr[lo..hi])) && Frame(arr[..], old(arr[..]), lo, hi)
  {
    SortPhaseStart(arr[..], key, lo, hi);
    ghost var a1 := arr[..];
    // m is one past the last heap slot: lo + i + 1 for the source's i
    var m := hi;
    while m > lo + 1
      invariant SortPhase(arr[..], a1, key, lo, m, hi)
      decreases m
    {
      SortStep(arr, key, lo, m, hi, a1);
      m := m - 1;
    }
    SortPhaseDone(arr[..], a1, key, lo, hi);
  }

  /**
   * heap_sort(keys + lo, indexes + lo, size): ranges of at most one element
   * are left alone; otherwise the range is made a max-heap and then sorted
   * from the back. The range ends up a rearrangement of itself with
   * ascending keys.
   */
  method HeapSort<E>(arr: array<E>, key: E -> int, lo: int, size: int)
    requires 0 <= lo && 0 <= size && lo + size <= arr.Length
    modifies arr
    ensures Frame(arr[..], old(arr[..]), lo, lo + size)
    ensures multiset(arr[lo..lo + size]) == multiset(old(arr[lo..lo + size]))
    ensures Sorted(Keys(arr[lo..lo + size], key))
  {
    if size <= 1 {
      ShortSorted(arr[..], key, lo, size);
      return;
    }
    BuildHeap(arr, key, lo, lo + size);
    SortHeap(arr, key, lo, lo + size);
  }
}
