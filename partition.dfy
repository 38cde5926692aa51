/**
 * The vectorised partition of xss-common-qsort.h: partition_vec_avx512
 * compress-stores the lanes below the pivot to the left store point and
 * the others to the right store point, and partition_avx512 streams the
 * range through it, keeping free space on both sides.
 */
module Partition {
  import opened Simd
  import opened Sorting

  /**
   * b is a after two stores: c1 at p1 and c2 at p2, with c1 ending before
   * p2 begins; lane by lane, so that it can be used without unfolding
   * sequence concatenations.
   */
  ghost predicate Stores(a: seq<int>, b: seq<int>, p1: int, c1: seq<int>, p2: int, c2: seq<int>)
  {
    0 <= p1 && p1 + |c1| <= p2 && p2 + |c2| <= |a| == |b|
    && forall k :: 0 <= k < |a| ==>
         b[k] == (if p1 <= k < p1 + |c1| then c1[k - p1] else if p2 <= k < p2 + |c2| then c2[k - p2] else a[k])
  }

  /** The array with c written from `at` on. */
  function Written(a: seq<int>, at: int, c: seq<int>): (r: seq<int>)
    requires 0 <= at && at + |c| <= |a|
    ensures |r| == |a|
  {
    a[..at] + c + a[at + |c|..]
  }

  /** Two stores, the first ending before the second begins. */
  lemma {:induction false} WrittenTwice(a: seq<int>, p1: int, c1: seq<int>, p2: int, c2: seq<int>)
    requires 0 <= p1 && p1 + |c1| <= p2 && p2 + |c2| <= |a|
    ensures Stores(a, Written(Written(a, p1, c1), p2, c2), p1, c1, p2, c2)
  {
  }

  /** vtype::mask_compressstoreu: the selected lanes, in lane order, from `at` on. */
  method CompressStore(arr: array<int>, at: int, v: Reg, m: Mask)
    requires |v| == |m| && 0 <= at && at + Popcount(m) <= arr.Length
    modifies arr
    ensures |Compress(v, m)| == Popcount(m)
    ensures arr[..] == Written(old(arr[..]), at, Compress(v, m))
  {
    var c := Compress(v, m);
    CompressLength(v, m);
    forall i | at <= i < at + |c| {
      arr[i] := c[i - at];
    }
    assert arr[..] == old(arr[..])[..at] + c + old(arr[..])[at + |c|..];
  }

  /**
   * partition_vec_avx512: the lanes of curr below the pivot go to l_store,
   * the others to the last amount_ge_pivot slots before r_store + numlanes;
   * the running minimum and maximum registers absorb curr.
   */
  method PartitionVec(arr: array<int>, lStore: int, rStore: int, curr: Reg, pivotVec: Reg, minIn: Reg, maxIn: Reg)
    returns (amountGe: int, minVec: Reg, maxVec: Reg)
    requires |curr| == |pivotVec| == |minIn| == |maxIn| == NUMLANES
    requires 0 <= lStore <= rStore && rStore + NUMLANES <= arr.Length
    modifies arr
    ensures amountGe == Popcount(Ge(curr, pivotVec)) <= NUMLANES
    ensures |Compress(curr, KNot(Ge(curr, pivotVec)))| == NUMLANES - amountGe
    ensures |Compress(curr, Ge(curr, pivotVec))| == amountGe
    ensures Stores(old(arr[..]), arr[..], lStore, Compress(curr, KNot(Ge(curr, pivotVec))),
                   rStore + NUMLANES - amountGe, Compress(curr, Ge(curr, pivotVec)))
    ensures minVec == VMin(curr, minIn) && maxVec == VMax(curr, maxIn)
  {
    var geMask := Ge(curr, pivotVec);
    amountGe := Popcount(geMask);
    PopcountBound(geMask);
    PopcountKNot(geMask);
    CompressLength(curr, geMask);
    CompressLength(curr, KNot(geMask));
    ghost var a0 := arr[..];
    ghost var c1, c2 := Compress(curr, KNot(geMask)), Compress(curr, geMask);
    var at := rStore + NUMLANES - amountGe;
    CompressStore(arr, lStore, curr, KNot(geMask));
    ghost var a1 := arr[..];
    CompressStore(arr, at, curr, geMask);
    ghost var a2 := arr[..];
    WrittenTwice(a0, lStore, c1, at, c2);
    assert a2 == Written(Written(a0, lStore, c1), at, c2);
    minVec := VMin(curr, minIn);
    maxVec := VMax(curr, maxIn);
  }

  // ---------------------------------------------------------------------
  // Compress-store facts

  /** The complement-mask store of a ge mask writes only lanes below the pivot. */
  lemma {:induction false} CompressBelow(v: Reg, pv: Reg, pivot: int)
    requires |v| == |pv| && pv == Set1(pivot, |v|)
    ensures forall i :: 0 <= i < |Compress(v, KNot(Ge(v, pv)))| ==> Compress(v, KNot(Ge(v, pv)))[i] < pivot
    ensures forall i :: 0 <= i < |Compress(v, Ge(v, pv))| ==> Compress(v, Ge(v, pv))[i] >= pivot
  {
    var m := Ge(v, pv);
    forall i | 0 <= i < |Compress(v, KNot(m))| ensures Compress(v, KNot(m))[i] < pivot {
      CompressElems(v, KNot(m), Compress(v, KNot(m))[i]);
    }
    forall i | 0 <= i < |Compress(v, m)| ensures Compress(v, m)[i] >= pivot {
      CompressElems(v, m, Compress(v, m)[i]);
    }
  }

  /** Every stored lane is bounded by the updated minimum and maximum registers. */
  lemma {:induction false} CompressBounded(v: Reg, m: Mask, mn: Reg, mx: Reg)
    requires |v| == |m| == |mn| == |mx| > 0
    ensures forall i :: 0 <= i < |Compress(v, m)| ==>
      ReduceMin(VMin(v, mn)) <= Compress(v, m)[i] <= ReduceMax(VMax(v, mx))
  {
    ReduceMinLanes(VMin(v, mn));
    ReduceMaxLanes(VMax(v, mx));
    forall i | 0 <= i < |Compress(v, m)|
      ensures ReduceMin(VMin(v, mn)) <= Compress(v, m)[i] <= ReduceMax(VMax(v, mx))
    {
      var x := Compress(v, m)[i];
      CompressElems(v, m, x);
      var j :| 0 <= j < |v| && m[j] && v[j] == x;
      assert VMin(v, mn)[j] <= x <= VMax(v, mx)[j];
    }
  }

  /** Folding a register into the running minimum and maximum only lowers / raises them. */
  lemma {:induction false} ReduceMonotone(v: Reg, mn: Reg, mx: Reg)
    requires |v| == |mn| == |mx| > 0
    ensures ReduceMin(VMin(v, mn)) <= ReduceMin(mn)
    ensures ReduceMax(mx) <= ReduceMax(VMax(v, mx))
  {
    ReduceMinLanes(VMin(v, mn));
    ReduceMinLanes(mn);
    ReduceMaxLanes(VMax(v, mx));
    ReduceMaxLanes(mx);
    var i :| 0 <= i < |mn| && mn[i] == ReduceMin(mn);
    var j :| 0 <= j < |mx| && mx[j] == ReduceMax(mx);
    assert VMin(v, mn)[i] <= mn[i];
    assert VMax(v, mx)[j] >= mx[j];
  }

  /** Each lane is the initial value or an element of src. */
  predicate LanesFrom(v: Reg, init: int, src: seq<int>)
  {
    forall j :: 0 <= j < |v| ==> v[j] == init || v[j] in src
  }

  lemma {:induction false} LanesFromFold(v: Reg, mn: Reg, mx: Reg, s0: int, b0: int, src: seq<int>)
    requires |v| == |mn| == |mx| && (forall j :: 0 <= j < |v| ==> v[j] in src)
    requires LanesFrom(mn, s0, src) && LanesFrom(mx, b0, src)
    ensures LanesFrom(VMin(v, mn), s0, src) && LanesFrom(VMax(v, mx), b0, src)
  {
  }

  lemma {:induction false} LanesFromSlice(a: seq<int>, lo: int, x: int, y: int, hi: int, v: Reg)
    requires 0 <= lo <= x <= y <= hi <= |a| && v == a[x..y]
    ensures forall j :: 0 <= j < |v| ==> v[j] in a[lo..hi]
  {
    forall j | 0 <= j < |v| ensures v[j] in a[lo..hi] {
      assert v[j] == a[lo..hi][x + j - lo];
    }
  }

  /** The reduction of a register whose lanes come from src or init. */
  lemma {:induction false} ReduceFrom(mn: Reg, mx: Reg, s0: int, b0: int, src: seq<int>)
    requires |mn| > 0 && |mx| > 0 && LanesFrom(mn, s0, src) && LanesFrom(mx, b0, src)
    ensures ReduceMin(mn) == s0 || ReduceMin(mn) in src
    ensures ReduceMax(mx) == b0 || ReduceMax(mx) in src
  {
    ReduceMinLanes(mn);
    ReduceMaxLanes(mx);
  }

  // ---------------------------------------------------------------------
  // The vector loop

  /**
   * The state of the vector phase: [lo, lStore) holds elements below the
   * pivot, [gStore, hi) elements at least the pivot, both bounded by the
   * reductions of the running minimum and maximum registers; `pending` are
   * the elements not yet stored; nothing outside [lo, hi) has changed.
   */
  ghost predicate VecState(a: seq<int>, a0: seq<int>, lo: int, hi: int, lStore: int, gStore: int,
                           pivot: int, mn: Reg, mx: Reg, pending: multiset<int>)
  {
    0 <= lo <= lStore <= gStore <= hi <= |a| == |a0| && |mn| > 0 && |mx| > 0
    && Same(a, a0, 0, lo) && Same(a, a0, hi, |a|)
    && (forall k :: lo <= k < lStore ==> a[k] < pivot && ReduceMin(mn) <= a[k] <= ReduceMax(mx))
    && (forall k :: gStore <= k < hi ==> a[k] >= pivot && ReduceMin(mn) <= a[k] <= ReduceMax(mx))
    && multiset(a[lo..lStore]) + multiset(a[gStore..hi]) + pending == multiset(a0[lo..hi])
  }

  /** a and b agree on [l, r). */
  ghost predicate Same(a: seq<int>, b: seq<int>, l: int, r: int)
  {
    0 <= l <= r <= |a| && r <= |b| && forall k :: l <= k < r ==> a[k] == b[k]
  }

  /** The two stores of one partition_vec call extend the stored ranges by c1 and c2. */
  lemma {:induction false} StoredSlices(A: seq<int>, B: seq<int>, lo: int, hi: int, lStore: int, gStore: int,
                                        c1: seq<int>, c2: seq<int>, ls: int, gs: int)
    requires 0 <= lo <= lStore && ls == lStore + |c1| && gs == gStore - |c2| && ls <= gs && gStore <= hi <= |A|
    requires Stores(A, B, lStore, c1, gs, c2)
    ensures B[lo..ls] == A[lo..lStore] + c1
    ensures B[gs..hi] == c2 + A[gStore..hi]
  {
    assert B[lo..ls] == A[lo..lStore] + c1;
    assert B[gs..hi] == c2 + A[gStore..hi];
  }

  /** Moving c1 and c2 from the pending elements onto the two stored ranges keeps the total. */
  lemma {:induction false} StoredMultiset(x1: seq<int>, x2: seq<int>, y1: seq<int>, y2: seq<int>,
                                          c1: seq<int>, c2: seq<int>, P: multiset<int>, P': multiset<int>,
                                          total: multiset<int>)
    requires y1 == x1 + c1 && y2 == c2 + x2
    requires multiset(x1) + multiset(x2) + P == total && P == P' + multiset(c1) + multiset(c2)
    ensures multiset(y1) + multiset(y2) + P' == total
  {
  }

  /** One partition_vec call keeps the state, with curr moved from pending into the stores. */
  lemma {:induction false} StepKeeps(A: seq<int>, B: seq<int>, a0: seq<int>, lo: int, hi: int, lStore: int, gStore: int,
                  pivot: int, mn: Reg, mx: Reg, mn': Reg, mx': Reg,
                  P: multiset<int>, P': multiset<int>, c1: seq<int>, c2: seq<int>, l: int, r: int,
                  ls: int, gs: int)
    requires VecState(A, a0, lo, hi, lStore, gStore, pivot, mn, mx, P)
    requires ls == lStore + |c1| && gs == gStore - |c2|
    requires ls <= l <= r <= gs
    requires Stores(A, B, lStore, c1, gs, c2)
    requires P == P' + multiset(c1) + multiset(c2)
    requires |mn'| > 0 && |mx'| > 0
    requires ReduceMin(mn') <= ReduceMin(mn) && ReduceMax(mx) <= ReduceMax(mx')
    requires forall i :: 0 <= i < |c1| ==> c1[i] < pivot && ReduceMin(mn') <= c1[i] <= ReduceMax(mx')
    requires forall i :: 0 <= i < |c2| ==> c2[i] >= pivot && ReduceMin(mn') <= c2[i] <= ReduceMax(mx')
    ensures VecState(B, a0, lo, hi, ls, gs, pivot, mn', mx', P')
    ensures Same(B, A, l, r)
  {
    StoredSlices(A, B, lo, hi, lStore, gStore, c1, c2, ls, gs);
    StoredMultiset(A[lo..lStore], A[gStore..hi], B[lo..ls], B[gs..hi], c1, c2, P, P', multiset(a0[lo..hi]));
    forall k | lo <= k < ls ensures B[k] < pivot && ReduceMin(mn') <= B[k] <= ReduceMax(mx') {
      if k >= lStore { assert B[k] == c1[k - lStore]; }
    }
    forall k | gs <= k < hi ensures B[k] >= pivot && ReduceMin(mn') <= B[k] <= ReduceMax(mx') {
      if k < gStore { assert B[k] == c2[k - gs]; }
    }
  }

  /** The two stores of one register partition it. */
  lemma {:induction false} StoredParts(curr: Reg, pv: Reg, pivot: int, mn: Reg, mx: Reg)
    requires |curr| == |pv| == |mn| == |mx| == NUMLANES && pv == Set1(pivot, NUMLANES)
    ensures multiset(curr) == multiset(Compress(curr, KNot(Ge(curr, pv)))) + multiset(Compress(curr, Ge(curr, pv)))
    ensures forall i :: 0 <= i < |Compress(curr, KNot(Ge(curr, pv)))| ==>
      Compress(curr, KNot(Ge(curr, pv)))[i] < pivot
      && ReduceMin(VMin(curr, mn)) <= Compress(curr, KNot(Ge(curr, pv)))[i] <= ReduceMax(VMax(curr, mx))
    ensures forall i :: 0 <= i < |Compress(curr, Ge(curr, pv))| ==>
      Compress(curr, Ge(curr, pv))[i] >= pivot
      && ReduceMin(VMin(curr, mn)) <= Compress(curr, Ge(curr, pv))[i] <= ReduceMax(VMax(curr, mx))
    ensures ReduceMin(VMin(curr, mn)) <= ReduceMin(mn) && ReduceMax(mx) <= ReduceMax(VMax(curr, mx))
  {
    CompressSplit(curr, Ge(curr, pv));
    CompressBelow(curr, pv, pivot);
    CompressBounded(curr, KNot(Ge(curr, pv)), mn, mx);
    CompressBounded(curr, Ge(curr, pv), mn, mx);
    ReduceMonotone(curr, mn, mx);
  }

  /** The registers set1(smallest) and set1(biggest) reduce to those values and take lanes from nowhere else. */
  lemma {:induction false} SetLanes(s0: int, b0: int, src: seq<int>)
    ensures ReduceMin(Set1(s0, NUMLANES)) == s0 && ReduceMax(Set1(b0, NUMLANES)) == b0
    ensures LanesFrom(Set1(s0, NUMLANES), s0, src) && LanesFrom(Set1(b0, NUMLANES), b0, src)
  {
    ReduceMinLanes(Set1(s0, NUMLANES));
    ReduceMaxLanes(Set1(b0, NUMLANES));
  }

  /** Before any store: both stores are empty and everything is pending. */
  lemma {:induction false} VecStateInit(a0: seq<int>, lo: int, hi: int, pivot: int, mn: Reg, mx: Reg)
    requires 0 <= lo <= hi <= |a0| && |mn| > 0 && |mx| > 0
    ensures VecState(a0, a0, lo, hi, lo, hi, pivot, mn, mx, multiset(a0[lo..hi]))
  {
    assert a0[lo..lo] == [] && a0[hi..hi] == [];
  }

  /** Loading one register from either end of the unread range [l0, r0). */
  lemma {:induction false} PendingSplit(a0: seq<int>, l0: int, r0: int, l1: int, r1: int, x: int)
    requires 0 <= l0 <= r0 <= |a0|
    requires (x == l0 && l1 == l0 + NUMLANES && r1 == r0) || (x == r0 - NUMLANES && l1 == l0 && r1 == x)
    requires l1 <= r1
    ensures multiset(a0[l0..r0]) == multiset(a0[l1..r1]) + multiset(a0[x..x + NUMLANES])
  {
    if x == l0 {
      SliceSplit(a0, l0, l1, r0);
    } else {
      SliceSplit(a0, l0, r1, r0);
    }
  }

  /**
   * The result of partitioning [lo, hi) around pivot: a permutation of the
   * range, elements below the pivot before p and the others from p on,
   * everything outside the range unchanged.
   */
  ghost predicate Partitioned(a: seq<int>, a0: seq<int>, lo: int, hi: int, p: int, pivot: int)
  {
    0 <= lo <= p <= hi <= |a| == |a0|
    && a[..lo] == a0[..lo] && a[hi..] == a0[hi..]
    && multiset(a[lo..hi]) == multiset(a0[lo..hi])
    && (forall k :: lo <= k < p ==> a[k] < pivot)
    && (forall k :: p <= k < hi ==> a[k] >= pivot)
  }

  /**
   * s and b are the smallest and largest of s0, b0 and the elements of seg:
   * they bound every element and are either the initial value or an element.
   */
  ghost predicate Extremes(seg: seq<int>, s0: int, b0: int, s: int, b: int)
  {
    s <= s0 && b0 <= b
    && (forall k :: 0 <= k < |seg| ==> s <= seg[k] <= b)
    && (s == s0 || s in seg) && (b == b0 || b in seg)
  }

  /** A finished vector phase is a partition with bounded elements. */
  lemma {:induction false} VecStateDone(a: seq<int>, a0: seq<int>, lo: int, hi: int, p: int, pivot: int,
                     s0: int, b0: int, mn: Reg, mx: Reg)
    requires |mn| > 0 && |mx| > 0
    requires VecState(a, a0, lo, hi, p, p, pivot, mn, mx, multiset{})
    requires LanesFrom(mn, s0, a0[lo..hi]) && LanesFrom(mx, b0, a0[lo..hi])
    requires ReduceMin(mn) <= s0 && b0 <= ReduceMax(mx)
    ensures Partitioned(a, a0, lo, hi, p, pivot)
    ensures Extremes(a[lo..hi], s0, b0, ReduceMin(mn), ReduceMax(mx))
  {
    assert a[..lo] == a0[..lo];
    assert a[hi..] == a0[hi..];
    SliceSplit(a, lo, p, hi);
    ReduceFrom(mn, mx, s0, b0, a0[lo..hi]);
    if ReduceMin(mn) != s0 {
      assert ReduceMin(mn) in multiset(a0[lo..hi]);
    }
    if ReduceMax(mx) != b0 {
      assert ReduceMax(mx) in multiset(a0[lo..hi]);
    }
  }

  /** Adding the elements of a register and then taking them out again as two parts. */
  lemma {:induction false} PendingParts(Pin: multiset<int>, P: multiset<int>, c: multiset<int>,
                                        c1: multiset<int>, c2: multiset<int>)
    requires Pin == P + c && c == c1 + c2
    ensures Pin == P + c1 + c2
  {
  }

  /** The state after the two stores of one register. */
  lemma {:induction false} RegisterStored(A: seq<int>, B: seq<int>, a0: seq<int>, lo: int, hi: int, lStore: int, gStore: int,
                       curr: Reg, pivot: int, pivotVec: Reg, minVec: Reg, maxVec: Reg,
                       Pin: multiset<int>, P: multiset<int>, l: int, r: int, amountGe: int, ls: int, gs: int)
    requires ls == lStore + NUMLANES - amountGe && gs == gStore - amountGe
    requires |curr| == |minVec| == |maxVec| == NUMLANES && pivotVec == Set1(pivot, NUMLANES)
    requires VecState(A, a0, lo, hi, lStore, gStore, pivot, minVec, maxVec, Pin)
    requires Pin == P + multiset(curr)
    requires gStore - lStore == NUMLANES || lStore + NUMLANES <= l <= r <= gStore - NUMLANES
    requires amountGe == Popcount(Ge(curr, pivotVec)) <= NUMLANES
    requires |Compress(curr, KNot(Ge(curr, pivotVec)))| == NUMLANES - amountGe
    requires |Compress(curr, Ge(curr, pivotVec))| == amountGe
    requires Stores(A, B, lStore, Compress(curr, KNot(Ge(curr, pivotVec))),
                    gStore - amountGe, Compress(curr, Ge(curr, pivotVec)))
    ensures VecState(B, a0, lo, hi, ls, gs, pivot,
                     VMin(curr, minVec), VMax(curr, maxVec), P)
    ensures lStore + NUMLANES <= l <= r <= gStore - NUMLANES ==> Same(B, A, l, r)
    ensures ReduceMin(VMin(curr, minVec)) <= ReduceMin(minVec) && ReduceMax(maxVec) <= ReduceMax(VMax(curr, maxVec))
  {
    StoredParts(curr, pivotVec, pivot, minVec, maxVec);
    var c1, c2 := Compress(curr, KNot(Ge(curr, pivotVec))), Compress(curr, Ge(curr, pivotVec));
    PendingParts(Pin, P, multiset(curr), multiset(c1), multiset(c2));
    var l', r' := l, r;
    if !(lStore + NUMLANES <= l <= r <= gStore - NUMLANES) {
      l', r' := ls, ls;
    }
    StepKeeps(A, B, a0, lo, hi, lStore, gStore, pivot, minVec, maxVec,
              VMin(curr, minVec), VMax(curr, maxVec), Pin, P, c1, c2, l', r',
              ls, gs);
  }

  /**
   * One partition_vec call of the vector phase, with r_store = gStore - numlanes:
   * curr leaves the pending elements Pin, P are left, both stores grow, and
   * the unread range [l, r) is not written.
   */
  method StoreRegister(arr: array<int>, ghost A: seq<int>, ghost a0: seq<int>, lo: int, hi: int, lStore: int, gStore: int,
                       curr: Reg, pivot: int, pivotVec: Reg, minVec: Reg, maxVec: Reg,
                       ghost Pin: multiset<int>, ghost P: multiset<int>, ghost l: int, ghost r: int)
    returns (amountGe: int, minVec': Reg, maxVec': Reg, ghost B: seq<int>, ghost ls: int, ghost gs: int)
    requires |curr| == |minVec| == |maxVec| == NUMLANES && pivotVec == Set1(pivot, NUMLANES)
    requires A == arr[..]
    requires Pin == P + multiset(curr)
    requires VecState(A, a0, lo, hi, lStore, gStore, pivot, minVec, maxVec, Pin)
    requires gStore - lStore == NUMLANES || lStore + NUMLANES <= l <= r <= gStore - NUMLANES
    modifies arr
    ensures 0 <= amountGe <= NUMLANES
    ensures minVec' == VMin(curr, minVec) && maxVec' == VMax(curr, maxVec)
    ensures B == arr[..] && ls == lStore + NUMLANES - amountGe && gs == gStore - amountGe
    ensures VecState(B, a0, lo, hi, ls, gs, pivot, minVec', maxVec', P)
    ensures lStore + NUMLANES <= l <= r <= gStore - NUMLANES ==> Same(B, A, l, r)
    ensures ReduceMin(minVec') <= ReduceMin(minVec) && ReduceMax(maxVec) <= ReduceMax(maxVec')
  {
    amountGe, minVec', maxVec' := PartitionVec(arr, lStore, gStore - NUMLANES, curr, pivotVec, minVec, maxVec);
    B := arr[..];
    ls, gs := lStore + NUMLANES - amountGe, gStore - amountGe;
    RegisterStored(A, B, a0, lo, hi, lStore, gStore, curr, pivot, pivotVec, minVec, maxVec, Pin, P, l, r, amountGe, ls, gs);
  }

  /** The same state, with its store points and pending elements written differently. */
  lemma {:induction false} VecStateRename(a: seq<int>, a0: seq<int>, lo: int, hi: int, ls: int, gs: int,
                                          pivot: int, mn: Reg, mx: Reg, P: multiset<int>,
                                          ls': int, gs': int, P': multiset<int>)
    requires VecState(a, a0, lo, hi, ls, gs, pivot, mn, mx, P)
    requires ls == ls' && gs == gs' && P == P'
    ensures VecState(a, a0, lo, hi, ls', gs', pivot, mn, mx, P')
  {
  }

  /**
   * The invariant of the vector loop of partition_avx512, with gStore =
   * l_store + unpartitioned + numlanes: [left, right) is still unread, `held` are the elements of the two held-back registers,
   * the store points leave 2 * numlanes free slots between them and the
   * read range, and min_vec / max_vec hold the running extremes.
   */
  ghost predicate LoopInv(a: seq<int>, a0: seq<int>, lo: int, hi: int, left: int, right: int, lStore: int,
                          gStore: int, unpartitioned: int, pivot: int, mn: Reg, mx: Reg, held: multiset<int>,
                          s0: int, b0: int)
  {
    0 <= lo && lo + NUMLANES <= left <= right <= hi - NUMLANES && hi <= |a| == |a0|
    && (right - left) % NUMLANES == 0
    && unpartitioned == right - left + NUMLANES
    && gStore == lStore + unpartitioned + NUMLANES
    && lStore <= left && right <= gStore
    && |mn| == |mx| == NUMLANES
    && Same(a, a0, left, right)
    && VecState(a, a0, lo, hi, lStore, gStore, pivot, mn, mx, multiset(a0[left..right]) + held)
    && LanesFrom(mn, s0, a0[lo..hi]) && LanesFrom(mx, b0, a0[lo..hi])
    && ReduceMin(mn) <= s0 && b0 <= ReduceMax(mx)
  }

  /**
   * Where the loop reads its next register: from the right end when the
   * right side has less free space, from the left end otherwise.
   */
  predicate NextRead(left: int, right: int, lStore: int, gStore: int, left': int, right': int, x: int)
  {
    if gStore - right < left - lStore then right' == right - NUMLANES && x == right' && left' == left
    else x == left && left' == left + NUMLANES && right' == right
  }

  /**
   * Reading the next register: it is read from the unread range, which
   * shrinks by it and stays between the store points with numlanes free
   * slots on each side, and its lanes come from the range.
   */
  lemma {:induction false} LoopLoad(A: seq<int>, a0: seq<int>, lo: int, hi: int, left: int, right: int,
                                    lStore: int, gStore: int, mn: Reg, mx: Reg, s0: int, b0: int,
                                    left': int, right': int, x: int, curr: Reg, held: multiset<int>)
    requires 0 <= lo && lo + NUMLANES <= left <= right <= hi - NUMLANES && hi <= |A| == |a0|
    requires (right - left) % NUMLANES == 0 && right - left != 0
    requires lStore <= left && right <= gStore && gStore - lStore == right - left + 2 * NUMLANES
    requires NextRead(left, right, lStore, gStore, left', right', x)
    requires Same(A, a0, left, right) && curr == A[x..x + NUMLANES]
    requires |mn| == |mx| == NUMLANES && LanesFrom(mn, s0, a0[lo..hi]) && LanesFrom(mx, b0, a0[lo..hi])
    ensures |curr| == NUMLANES
    ensures lStore + NUMLANES <= left' <= right' <= gStore - NUMLANES
    ensures Same(A, a0, left', right')
    ensures multiset(a0[left..right]) + held == (multiset(a0[left'..right']) + held) + multiset(curr)
    ensures LanesFrom(VMin(curr, mn), s0, a0[lo..hi]) && LanesFrom(VMax(curr, mx), b0, a0[lo..hi])
  {
    LoadRegister(A, a0, lo, hi, left, right, left', right', x, curr);
    LanesFromFold(curr, mn, mx, s0, b0, a0[lo..hi]);
    PendingMove(multiset(a0[left..right]), multiset(a0[left'..right']), multiset(curr), held);
  }

  /** After the stores of the register read by NextRead, the invariant holds again. */
  lemma {:induction false} LoopAdvance(B: seq<int>, a0: seq<int>, lo: int, hi: int, left: int, right: int,
                                       lStore: int, gStore: int, unpartitioned: int, pivot: int, held: multiset<int>,
                                       s0: int, b0: int, left': int, right': int, x: int,
                                       amountGe: int, mn': Reg, mx': Reg, ls: int, gs: int,
                                       lStore': int, unpartitioned': int)
    requires 0 <= lo && lo + NUMLANES <= left <= right <= hi - NUMLANES && hi <= |B| == |a0|
    requires (right - left) % NUMLANES == 0 && right - left != 0 && unpartitioned == right - left + NUMLANES
    requires lStore <= left && right <= gStore && gStore == lStore + unpartitioned + NUMLANES
    requires NextRead(left, right, lStore, gStore, left', right', x) && 0 <= amountGe <= NUMLANES
    requires ls == lStore + NUMLANES - amountGe && gs == gStore - amountGe
    requires lStore' == ls && unpartitioned' == unpartitioned - NUMLANES
    requires Same(B, a0, left', right')
    requires VecState(B, a0, lo, hi, ls, gs, pivot, mn', mx', multiset(a0[left'..right']) + held)
    requires |mn'| == |mx'| == NUMLANES
    requires LanesFrom(mn', s0, a0[lo..hi]) && LanesFrom(mx', b0, a0[lo..hi])
    requires ReduceMin(mn') <= s0 && b0 <= ReduceMax(mx')
    ensures LoopInv(B, a0, lo, hi, left', right', lStore', gs, unpartitioned', pivot, mn', mx', held, s0, b0)
    ensures right' - left' == right - left - NUMLANES
  {
    BlockStep(left, right, left', right');
    VecStateRename(B, a0, lo, hi, ls, gs, pivot, mn', mx', multiset(a0[left'..right']) + held,
                   lStore', gs, multiset(a0[left'..right']) + held);
  }

  /** Agreement on [l, r) carries over from a to b when b agrees with a there. */
  lemma {:induction false} SameTrans(b: seq<int>, a: seq<int>, a0: seq<int>, l: int, r: int)
    requires Same(b, a, l, r) && Same(a, a0, l, r)
    ensures Same(b, a0, l, r)
  {
  }

  /** Reading one register at x from either end of the unread range [l0, r0) of a. */
  lemma {:induction false} LoadRegister(a: seq<int>, a0: seq<int>, lo: int, hi: int, l0: int, r0: int,
                                        l1: int, r1: int, x: int, curr: Reg)
    requires 0 <= lo <= l0 <= r0 <= hi <= |a| == |a0| && Same(a, a0, l0, r0)
    requires (x == l0 && l1 == l0 + NUMLANES && r1 == r0) || (x == r0 - NUMLANES && l1 == l0 && r1 == x)
    requires l1 <= r1 && curr == a[x..x + NUMLANES]
    ensures curr == a0[x..x + NUMLANES] && Same(a, a0, l1, r1)
    ensures multiset(a0[l0..r0]) == multiset(a0[l1..r1]) + multiset(curr)
    ensures forall j :: 0 <= j < |curr| ==> curr[j] in a0[lo..hi]
  {
    assert curr == a0[x..x + NUMLANES];
    PendingSplit(a0, l0, r0, l1, r1, x);
    LanesFromSlice(a0, lo, x, x + NUMLANES, hi, curr);
  }

  /** Moving a register out of the unread elements moves it out of the pending ones. */
  lemma {:induction false} PendingMove(m0: multiset<int>, m1: multiset<int>, c: multiset<int>, held: multiset<int>)
    requires m0 == m1 + c
    ensures m0 + held == (m1 + held) + c
  {
  }

  /** The unread range and the two held registers, grouped as the loop invariant groups them. */
  lemma {:induction false} PendingRegroup(m: multiset<int>, u: multiset<int>, vl: multiset<int>, vr: multiset<int>)
    requires m == u + vl + vr
    ensures m == u + (vl + vr)
  {
  }

  /** Removing one register from a multiple of numlanes leaves a multiple of numlanes. */
  lemma {:induction false} BlockStep(l0: int, r0: int, l1: int, r1: int)
    requires (r0 - l0) % NUMLANES == 0 && r1 - l1 == r0 - l0 - NUMLANES
    ensures (r1 - l1) % NUMLANES == 0
  {
  }

  /**
   * One iteration of the vector loop of partition_avx512: a register is
   * loaded from the side with less free space and partitioned into the
   * two store points.
   */
  method VecStep(arr: array<int>, ghost a0: seq<int>, lo: int, hi: int, left: int, right: int, lStore: int,
                 ghost gStore: int, unpartitioned: int, pivot: int, pivotVec: Reg, minVec: Reg, maxVec: Reg,
                 ghost held: multiset<int>, ghost s0: int, ghost b0: int)
    returns (left': int, right': int, lStore': int, ghost gStore': int, unpartitioned': int,
             minVec': Reg, maxVec': Reg)
    requires pivotVec == Set1(pivot, NUMLANES) && right - left != 0
    requires LoopInv(arr[..], a0, lo, hi, left, right, lStore, gStore, unpartitioned, pivot, minVec, maxVec,
                     held, s0, b0)
    modifies arr
    ensures right' - left' == right - left - NUMLANES
    ensures LoopInv(arr[..], a0, lo, hi, left', right', lStore', gStore', unpartitioned', pivot, minVec', maxVec',
                    held, s0, b0)
  {
    ghost var A := arr[..];
    var storeEnd := lStore + unpartitioned + NUMLANES;
    VecStateRename(A, a0, lo, hi, lStore, gStore, pivot, minVec, maxVec, multiset(a0[left..right]) + held,
                   lStore, storeEnd, multiset(a0[left..right]) + held);
    var curr;
    ghost var x;
    left', right' := left, right;
    // load from the side with less free space
    if storeEnd - right < left - lStore {
      right' := right - NUMLANES;
      x := right';
      curr := arr[right'..right' + NUMLANES];
    } else {
      x := left;
      curr := arr[left..left + NUMLANES];
      left' := left + NUMLANES;
    }
    LoopLoad(A, a0, lo, hi, left, right, lStore, storeEnd, minVec, maxVec, s0, b0, left', right', x, curr, held);
    var amountGe;
    ghost var B, ls;
    amountGe, minVec', maxVec', B, ls, gStore' := StoreRegister(arr, A, a0, lo, hi, lStore, storeEnd, curr, pivot,
                                                                pivotVec, minVec, maxVec, multiset(a0[left..right]) + held,
                                                                multiset(a0[left'..right']) + held, left', right');
    lStore' := lStore + NUMLANES - amountGe;
    unpartitioned' := unpartitioned - NUMLANES;
    SameTrans(B, A, a0, left', right');
    LoopAdvance(B, a0, lo, hi, left, right, lStore, storeEnd, unpartitioned, pivot, held, s0, b0,
                left', right', x, amountGe, minVec', maxVec', ls, gStore', lStore', unpartitioned');
  }

  /** Nothing unread: the pending elements are exactly the two held registers. */
  lemma {:induction false} HeldOnly(m: multiset<int>, vl: multiset<int>, vr: multiset<int>)
    requires m == multiset{}
    ensures m + (vl + vr) == vr + vl
    ensures vr == multiset{} + vr
  {
  }

  /**
   * The end of partition_avx512's vector phase: once nothing is unread,
   * the held-back vec_left and then vec_right are partitioned into the
   * 2 * numlanes free slots, which completes the partition.
   */
  method StoreHeld(arr: array<int>, ghost a0: seq<int>, lo: int, hi: int, left: int, right: int, lStore: int,
                   ghost gStore: int, unpartitioned: int, pivot: int, pivotVec: Reg, minVec: Reg, maxVec: Reg,
                   vecLeft: Reg, vecRight: Reg, ghost s0: int, ghost b0: int)
    returns (p: int, smallest': int, biggest': int)
    requires pivotVec == Set1(pivot, NUMLANES) && right - left == 0
    requires LoopInv(arr[..], a0, lo, hi, left, right, lStore, gStore, unpartitioned, pivot, minVec, maxVec,
                     multiset(vecLeft) + multiset(vecRight), s0, b0)
    requires vecLeft == a0[lo..lo + NUMLANES] && vecRight == a0[hi - NUMLANES..hi]
    modifies arr
    ensures Partitioned(arr[..], a0, lo, hi, p, pivot)
    ensures Extremes(arr[lo..hi], s0, b0, smallest', biggest')
  {
    ghost var A := arr[..];
    var storeEnd := lStore + unpartitioned + NUMLANES;
    ghost var Pin := multiset(a0[left..right]) + (multiset(vecLeft) + multiset(vecRight));
    VecStateRename(A, a0, lo, hi, lStore, gStore, pivot, minVec, maxVec, Pin, lStore, storeEnd, Pin);
    assert a0[left..right] == [];
    HeldOnly(multiset(a0[left..right]), multiset(vecLeft), multiset(vecRight));
    LanesFromSlice(a0, lo, lo, lo + NUMLANES, hi, vecLeft);
    LanesFromFold(vecLeft, minVec, maxVec, s0, b0, a0[lo..hi]);
    var amountGe, minVec1, maxVec1;
    ghost var B, ls, gs;
    ghost var mid := lStore + NUMLANES;
    amountGe, minVec1, maxVec1, B, ls, gs := StoreRegister(arr, A, a0, lo, hi, lStore, storeEnd, vecLeft, pivot, pivotVec,
                                                           minVec, maxVec, Pin, multiset(vecRight), mid, mid);
    var lStore1 := lStore + (NUMLANES - amountGe);
    var unpartitioned1 := unpartitioned - NUMLANES;
    var storeEnd1 := lStore1 + unpartitioned1 + NUMLANES;
    VecStateRename(B, a0, lo, hi, ls, gs, pivot, minVec1, maxVec1, multiset(vecRight),
                   lStore1, storeEnd1, multiset(vecRight));
    LanesFromSlice(a0, lo, hi - NUMLANES, hi, hi, vecRight);
    LanesFromFold(vecRight, minVec1, maxVec1, s0, b0, a0[lo..hi]);
    var minVec2, maxVec2;
    ghost var B2, ls2, gs2;
    amountGe, minVec2, maxVec2, B2, ls2, gs2 := StoreRegister(arr, B, a0, lo, hi, lStore1, storeEnd1, vecRight, pivot,
                                                              pivotVec, minVec1, maxVec1, multiset(vecRight), multiset{},
                                                              lStore1, lStore1);
    p := lStore1 + (NUMLANES - amountGe);
    VecStateRename(B2, a0, lo, hi, ls2, gs2, pivot, minVec2, maxVec2, multiset{}, p, p, multiset{});
    VecStateDone(B2, a0, lo, hi, p, pivot, s0, b0, minVec2, maxVec2);
    smallest', biggest' := ReduceMin(minVec2), ReduceMax(maxVec2);
  }

  /** The vector phase on exactly one register: one partition_vec call does it all. */
  method PartitionOne(arr: array<int>, ghost a0: seq<int>, lo: int, hi: int, pivot: int, pivotVec: Reg,
                      minVec: Reg, maxVec: Reg, ghost s0: int, ghost b0: int)
    returns (p: int, smallest': int, biggest': int)
    requires pivotVec == Set1(pivot, NUMLANES) && 0 <= lo && hi - lo == NUMLANES && hi <= arr.Length
    requires arr[..] == a0 && |minVec| == |maxVec| == NUMLANES
    requires VecState(a0, a0, lo, hi, lo, hi, pivot, minVec, maxVec, multiset(a0[lo..hi]))
    requires LanesFrom(minVec, s0, a0[lo..hi]) && LanesFrom(maxVec, b0, a0[lo..hi])
    requires ReduceMin(minVec) <= s0 && b0 <= ReduceMax(maxVec)
    modifies arr
    ensures Partitioned(arr[..], a0, lo, hi, p, pivot)
    ensures Extremes(arr[lo..hi], s0, b0, smallest', biggest')
  {
    var vec := arr[lo..lo + NUMLANES];
    var unpartitioned := hi - lo - NUMLANES;
    var lStore := lo;
    assert a0[lo..hi] == vec;
    HeldOnly(multiset{}, multiset{}, multiset(vec));
    var amountGe, minVec1, maxVec1;
    ghost var B, ls, gs;
    amountGe, minVec1, maxVec1, B, ls, gs := StoreRegister(arr, a0, a0, lo, hi, lo, hi, vec, pivot, pivotVec,
                                                           minVec, maxVec, multiset(a0[lo..hi]), multiset{}, lo, lo);
    LanesFromSlice(a0, lo, lo, hi, hi, vec);
    LanesFromFold(vec, minVec, maxVec, s0, b0, a0[lo..hi]);
    p := lStore + (NUMLANES - amountGe);
    VecStateRename(B, a0, lo, hi, ls, gs, pivot, minVec1, maxVec1, multiset{}, p, p, multiset{});
    VecStateDone(B, a0, lo, hi, p, pivot, s0, b0, minVec1, maxVec1);
    smallest', biggest' := ReduceMin(minVec1), ReduceMax(maxVec1);
  }

  /** The loop invariant before the first iteration, with the first and last register held back. */
  lemma {:induction false} LoopStart(a0: seq<int>, lo: int, hi: int, left: int, right: int, lStore: int,
                                     unpartitioned: int, pivot: int, mn: Reg, mx: Reg, s0: int, b0: int,
                                     vecLeft: Reg, vecRight: Reg)
    requires 0 <= lo && lo + 2 * NUMLANES <= hi <= |a0| && (hi - lo) % NUMLANES == 0 && |mn| == |mx| == NUMLANES
    requires left == lo + NUMLANES && right == hi - NUMLANES && lStore == lo && unpartitioned == hi - lo - NUMLANES
    requires vecLeft == a0[lo..lo + NUMLANES] && vecRight == a0[hi - NUMLANES..hi]
    requires VecState(a0, a0, lo, hi, lo, hi, pivot, mn, mx, multiset(a0[lo..hi]))
    requires LanesFrom(mn, s0, a0[lo..hi]) && LanesFrom(mx, b0, a0[lo..hi])
    requires ReduceMin(mn) <= s0 && b0 <= ReduceMax(mx)
    ensures LoopInv(a0, a0, lo, hi, left, right, lStore, hi, unpartitioned, pivot, mn, mx,
                    multiset(vecLeft) + multiset(vecRight), s0, b0)
  {
    HeldBack(a0, lo, hi);
    PendingRegroup(multiset(a0[lo..hi]), multiset(a0[left..right]), multiset(vecLeft), multiset(vecRight));
    VecStateRename(a0, a0, lo, hi, lo, hi, pivot, mn, mx, multiset(a0[lo..hi]),
                   lStore, hi, multiset(a0[left..right]) + (multiset(vecLeft) + multiset(vecRight)));
  }

  /**
   * The vector phase of partition_avx512 on a range whose length is a
   * positive multiple of numlanes: the first and last register are held
   * back, the rest is streamed through partition_vec from whichever side
   * has less free space, and the two held registers are partitioned last.
   */
  method PartitionVectors(arr: array<int>, lo: int, hi: int, pivot: int, smallest: int, biggest: int)
    returns (p: int, smallest': int, biggest': int)
    requires 0 <= lo && lo + NUMLANES <= hi <= arr.Length && (hi - lo) % NUMLANES == 0
    modifies arr
    ensures Partitioned(arr[..], old(arr[..]), lo, hi, p, pivot)
    ensures Extremes(arr[lo..hi], smallest, biggest, smallest', biggest')
  {
    ghost var a0 := arr[..];
    var pivotVec := Set1(pivot, NUMLANES);
    var minVec := Set1(smallest, NUMLANES);
    var maxVec := Set1(biggest, NUMLANES);
    SetLanes(smallest, biggest, a0[lo..hi]);
    VecStateInit(a0, lo, hi, pivot, minVec, maxVec);
    if hi - lo == NUMLANES {
      p, smallest', biggest' := PartitionOne(arr, a0, lo, hi, pivot, pivotVec, minVec, maxVec, smallest, biggest);
      return;
    }
    // first and last numlanes values are partitioned at the end
    var vecLeft := arr[lo..lo + NUMLANES];
    var vecRight := arr[hi - NUMLANES..hi];
    var unpartitioned := hi - lo - NUMLANES;
    var lStore := lo;
    var left, right := lo + NUMLANES, hi - NUMLANES;
    ghost var gStore := hi;
    LoopStart(a0, lo, hi, left, right, lStore, unpartitioned, pivot, minVec, maxVec, smallest, biggest,
              vecLeft, vecRight);
    while right - left != 0
      invariant LoopInv(arr[..], a0, lo, hi, left, right, lStore, gStore, unpartitioned, pivot, minVec, maxVec,
                        multiset(vecLeft) + multiset(vecRight), smallest, biggest)
      decreases right - left
    {
      left, right, lStore, gStore, unpartitioned, minVec, maxVec :=
        VecStep(arr, a0, lo, hi, left, right, lStore, gStore, unpartitioned, pivot, pivotVec, minVec, maxVec,
                multiset(vecLeft) + multiset(vecRight), smallest, biggest);
    }
    p, smallest', biggest' := StoreHeld(arr, a0, lo, hi, left, right, lStore, gStore, unpartitioned, pivot, pivotVec,
                                        minVec, maxVec, vecLeft, vecRight, smallest, biggest);
  }

  /** The held-back first and last registers and the range between them make up [lo, hi). */
  lemma {:induction false} HeldBack(a0: seq<int>, lo: int, hi: int)
    requires 0 <= lo && lo + 2 * NUMLANES <= hi <= |a0|
    ensures multiset(a0[lo..hi]) == multiset(a0[lo + NUMLANES..hi - NUMLANES])
      + multiset(a0[lo..lo + NUMLANES]) + multiset(a0[hi - NUMLANES..hi])
  {
    SliceSplit(a0, lo, lo + NUMLANES, hi);
    SliceSplit(a0, lo + NUMLANES, hi - NUMLANES, hi);
  }

  // ---------------------------------------------------------------------
  // partition_avx512: the scalar prologue, then the vector phase

  /**
   * The scalar prologue after some steps: [lo, l) holds elements below the
   * pivot and [r, hi) the others, the range is a permutation of the input,
   * and s, b bound the elements examined so far and are each either the
   * initial value or an element of the range.
   */
  ghost predicate ScalarInv(a: seq<int>, a0: seq<int>, lo: int, hi: int, l: int, r: int, pivot: int,
                            s0: int, b0: int, s: int, b: int)
  {
    0 <= lo <= l <= r <= hi <= |a| == |a0|
    && Same(a, a0, 0, lo) && Same(a, a0, hi, |a|)
    && multiset(a[lo..hi]) == multiset(a0[lo..hi])
    && (forall k :: lo <= k < l ==> a[k] < pivot)
    && (forall k :: r <= k < hi ==> a[k] >= pivot)
    && s <= s0 && b0 <= b
    && (forall k :: lo <= k < l ==> s <= a[k] <= b)
    && (forall k :: r <= k < hi ==> s <= a[k] <= b)
    && (s == s0 || s in multiset(a[lo..hi])) && (b == b0 || b in multiset(a[lo..hi]))
  }

  /** Exchanging two elements of a range keeps its elements. */
  lemma {:induction false} SwapMultiset(a: seq<int>, lo: int, hi: int, i: int, j: int)
    requires 0 <= lo <= i <= j < hi <= |a|
    ensures multiset(a[i := a[j]][j := a[i]][lo..hi]) == multiset(a[lo..hi])
  {
    var s := a[lo..hi];
    var x, y := i - lo, j - lo;
    assert a[i := a[j]][j := a[i]][lo..hi] == s[x := s[y]][y := s[x]];
    SwapWhole(s, x, y);
  }

  /** Exchanging two elements keeps the elements. */
  lemma {:induction false} SwapWhole(s: seq<int>, x: int, y: int)
    requires 0 <= x <= y < |s|
    ensures multiset(s[x := s[y]][y := s[x]]) == multiset(s)
  {
    var t := s[x := s[y]];
    assert multiset(t) == multiset(s) - multiset{s[x]} + multiset{s[y]};
    assert t[y] == s[y];
    assert multiset(t[y := s[x]]) == multiset(t) - multiset{s[y]} + multiset{s[x]};
  }

  /** arr[l] is recorded in the running minimum and maximum and is an element of the range. */
  lemma {:induction false} ScalarSeen(A: seq<int>, a0: seq<int>, lo: int, hi: int, l: int, r: int, pivot: int,
                                      s0: int, b0: int, s: int, b: int, s': int, b': int)
    requires ScalarInv(A, a0, lo, hi, l, r, pivot, s0, b0, s, b) && l < r
    requires s' == Min(s, A[l]) && b' == Max(b, A[l])
    ensures s' <= s0 && b0 <= b' && s' <= A[l] <= b'
    ensures (s' == s0 || s' in multiset(A[lo..hi])) && (b' == b0 || b' in multiset(A[lo..hi]))
  {
    assert A[l] in multiset(A[lo..hi]) by {
      assert A[lo..hi][l - lo] == A[l];
    }
  }

  /** A prologue step on an element below the pivot: it joins the left part. */
  lemma {:induction false} ScalarKeep(A: seq<int>, a0: seq<int>, lo: int, hi: int, l: int, r: int, pivot: int,
                                      s0: int, b0: int, s: int, b: int, s': int, b': int)
    requires ScalarInv(A, a0, lo, hi, l, r, pivot, s0, b0, s, b) && l < r && A[l] < pivot
    requires s' == Min(s, A[l]) && b' == Max(b, A[l])
    ensures ScalarInv(A, a0, lo, hi, l + 1, r, pivot, s0, b0, s', b')
  {
    ScalarSeen(A, a0, lo, hi, l, r, pivot, s0, b0, s, b, s', b');
  }

  /** A prologue step on an element at least the pivot: it is exchanged with the last unexamined one. */
  lemma {:induction false} ScalarSwap(A: seq<int>, B: seq<int>, a0: seq<int>, lo: int, hi: int, l: int, r: int,
                                      r': int, pivot: int, s0: int, b0: int, s: int, b: int, s': int, b': int)
    requires ScalarInv(A, a0, lo, hi, l, r, pivot, s0, b0, s, b) && l < r && !(A[l] < pivot)
    requires s' == Min(s, A[l]) && b' == Max(b, A[l])
    requires r' == r - 1 && B == A[l := A[r']][r' := A[l]]
    ensures ScalarInv(B, a0, lo, hi, l, r', pivot, s0, b0, s', b')
  {
    ScalarSeen(A, a0, lo, hi, l, r, pivot, s0, b0, s, b, s', b');
    SwapMultiset(A, lo, hi, l, r');
    assert B[r'] == A[l];
    forall k | lo <= k < l ensures B[k] == A[k] { }
    forall k | r <= k < hi ensures B[k] == A[k] { }
  }

  /** The number of prologue steps leaves a whole number of registers. */
  lemma {:induction false} PrologueLength(n: int, i: int, m: int)
    requires n >= 0 && i == n % NUMLANES && m == n - i
    ensures m >= 0 && m % NUMLANES == 0
  {
    var q := n / NUMLANES;
    assert n == NUMLANES * q + i;
  }

  /** A prologue that consumed the whole range is a finished partition. */
  lemma {:induction false} ScalarDone(a: seq<int>, a0: seq<int>, lo: int, hi: int, p: int, pivot: int,
                                      s0: int, b0: int, s: int, b: int)
    requires ScalarInv(a, a0, lo, hi, p, p, pivot, s0, b0, s, b)
    ensures Partitioned(a, a0, lo, hi, p, pivot)
    ensures Extremes(a[lo..hi], s0, b0, s, b)
  {
    assert a[..lo] == a0[..lo];
    assert a[hi..] == a0[hi..];
    forall k | 0 <= k < hi - lo ensures s <= a[lo..hi][k] <= b {
      assert a[lo..hi][k] == a[lo + k];
    }
  }

  /** A partition of [l, r) leaves everything outside it in place. */
  lemma {:induction false} PartitionedFrame(b: seq<int>, a: seq<int>, l: int, r: int, p: int, pivot: int)
    requires Partitioned(b, a, l, r, p, pivot)
    ensures Same(b, a, 0, l) && Same(b, a, r, |b|)
  {
    forall k | 0 <= k < l ensures b[k] == a[k] {
      assert b[k] == b[..l][k] && a[k] == a[..l][k];
    }
    forall k | r <= k < |b| ensures b[k] == a[k] {
      assert b[k] == b[r..][k - r] && a[k] == a[r..][k - r];
    }
  }

  /** Agreement on a range carries over through an intermediate sequence. */
  lemma {:induction false} SameChain(c: seq<int>, b: seq<int>, a: seq<int>, l: int, r: int)
    requires Same(c, b, l, r) && Same(b, a, l, r)
    ensures Same(c, a, l, r)
  {
  }

  /** The sequence-level form of agreement on a prefix, a suffix and a middle range. */
  lemma {:induction false} SameSlices(b: seq<int>, a: seq<int>, lo: int, hi: int)
    requires |a| == |b| && Same(b, a, 0, lo) && Same(b, a, hi, |b|) && lo <= hi
    ensures b[..lo] == a[..lo] && b[hi..] == a[hi..]
  {
  }

  /** The prologue followed by the vector phase on what it left is a partition of the whole range. */
  lemma {:induction false} PrologueThenVectors(A: seq<int>, B: seq<int>, a0: seq<int>, lo: int, hi: int,
                                               l: int, r: int, p: int, pivot: int, s0: int, b0: int,
                                               s: int, b: int, s': int, b': int)
    requires ScalarInv(A, a0, lo, hi, l, r, pivot, s0, b0, s, b)
    requires Partitioned(B, A, l, r, p, pivot) && Extremes(B[l..r], s, b, s', b')
    ensures Partitioned(B, a0, lo, hi, p, pivot)
    ensures Extremes(B[lo..hi], s0, b0, s', b')
  {
    PartitionedFrame(B, A, l, r, p, pivot);
    assert Same(B, A, 0, lo) && Same(B, A, lo, l) && Same(B, A, r, hi) && Same(B, A, hi, |B|);
    SameChain(B, A, a0, 0, lo);
    SameChain(B, A, a0, hi, |B|);
    SameSlices(B, a0, lo, hi);
    assert B[lo..l] == A[lo..l];
    assert B[r..hi] == A[r..hi];
    PrologueMultiset(A, B, lo, l, r, hi);
    PrologueExtremes(A, B, a0, lo, hi, l, r, s0, b0, s, b, s', b');
  }

  /** Elements of the three parts: kept on the left, permuted in the middle, kept on the right. */
  lemma {:induction false} PrologueMultiset(A: seq<int>, B: seq<int>, lo: int, l: int, r: int, hi: int)
    requires 0 <= lo <= l <= r <= hi <= |A| == |B|
    requires B[lo..l] == A[lo..l] && B[r..hi] == A[r..hi] && multiset(B[l..r]) == multiset(A[l..r])
    ensures multiset(B[lo..hi]) == multiset(A[lo..hi])
  {
    SliceSplit(A, lo, l, hi);
    SliceSplit(A, l, r, hi);
    SliceSplit(B, lo, l, hi);
    SliceSplit(B, l, r, hi);
  }

  /** The bounds found by the prologue and by the vector phase together bound the whole range. */
  lemma {:induction false} PrologueExtremes(A: seq<int>, B: seq<int>, a0: seq<int>, lo: int, hi: int,
                                            l: int, r: int, s0: int, b0: int, s: int, b: int, s': int, b': int)
    requires 0 <= lo <= l <= r <= hi <= |A| == |B|
    requires s <= s0 && b0 <= b && (s == s0 || s in multiset(A[lo..hi])) && (b == b0 || b in multiset(A[lo..hi]))
    requires forall k :: lo <= k < l ==> s <= A[k] <= b
    requires forall k :: r <= k < hi ==> s <= A[k] <= b
    requires Same(B, A, lo, l) && Same(B, A, r, hi) && multiset(B[lo..hi]) == multiset(A[lo..hi])
    requires Extremes(B[l..r], s, b, s', b')
    ensures Extremes(B[lo..hi], s0, b0, s', b')
  {
    forall k | 0 <= k < hi - lo ensures s' <= B[lo..hi][k] <= b' {
      var j := lo + k;
      assert B[lo..hi][k] == B[j];
      if l <= j < r {
        assert B[j] == B[l..r][j - l];
      }
    }
    assert B[lo..hi] == B[lo..l] + B[l..r] + B[r..hi];
    if s' != s0 && s' != s {
      assert s' in B[l..r];
    }
    if b' != b0 && b' != b {
      assert b' in B[l..r];
    }
  }

  /**
   * One step of the prologue of partition_avx512: arr[left] is folded into
   * the running minimum and maximum; if it is below the pivot left moves
   * past it, otherwise it is exchanged with arr[--right].
   */
  method PrologueStep(arr: array<int>, ghost a0: seq<int>, lo: int, hi: int, l: int, r: int, pivot: int,
                      ghost s0: int, ghost b0: int, s: int, b: int)
    returns (l': int, r': int, s': int, b': int)
    requires ScalarInv(arr[..], a0, lo, hi, l, r, pivot, s0, b0, s, b) && l < r
    modifies arr
    ensures ScalarInv(arr[..], a0, lo, hi, l', r', pivot, s0, b0, s', b') && r' - l' == r - l - 1
  {
    ghost var A := arr[..];
    var x := arr[l];
    s' := Min(s, x);
    b' := Max(b, x);
    l', r' := l, r;
    if !(x < pivot) {
      r' := r - 1;
      arr[l], arr[r'] := arr[r'], arr[l];
      assert arr[..] == A[l := A[r']][r' := A[l]];
      ScalarSwap(A, arr[..], a0, lo, hi, l, r, r', pivot, s0, b0, s, b, s', b');
    } else {
      l' := l + 1;
      ScalarKeep(A, a0, lo, hi, l, r, pivot, s0, b0, s, b, s', b');
    }
  }

  /**
   * partition_avx512: the range [left, right) is shortened to a multiple of
   * numlanes by the scalar prologue (each step folds arr[left] into the
   * running minimum and maximum and either keeps it or swaps it with the
   * last element), and the rest goes through the vector phase. The result
   * is the index of the first element at least the pivot.
   */
  method PartitionAvx512(arr: array<int>, left: int, right: int, pivot: int, smallest: int, biggest: int)
    returns (p: int, smallest': int, biggest': int)
    requires 0 <= left <= right <= arr.Length
    modifies arr
    ensures Partitioned(arr[..], old(arr[..]), left, right, p, pivot)
    ensures Extremes(arr[left..right], smallest, biggest, smallest', biggest')
  {
    ghost var a0 := arr[..];
    var l, r := left, right;
    smallest', biggest' := smallest, biggest;
    var i := (r - l) % NUMLANES;
    ghost var m := (right - left) - i;
    while i > 0
      invariant ScalarInv(arr[..], a0, left, right, l, r, pivot, smallest, biggest, smallest', biggest')
      invariant 0 <= i && r - l == m + i
      decreases i
    {
      l, r, smallest', biggest' := PrologueStep(arr, a0, left, right, l, r, pivot, smallest, biggest,
                                                smallest', biggest');
      i := i - 1;
    }
    PrologueLength(right - left, (right - left) % NUMLANES, m);
    if l == r {
      ScalarDone(arr[..], a0, left, right, l, pivot, smallest, biggest, smallest', biggest');
      p := l;
      return;
    }
    ghost var A := arr[..];
    var s1, b1 := smallest', biggest';
    p, smallest', biggest' := PartitionVectors(arr, l, r, pivot, s1, b1);
    PrologueThenVectors(A, arr[..], a0, left, right, l, r, p, pivot, smallest, biggest, s1, b1, smallest', biggest');
  }
}
