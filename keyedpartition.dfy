/**
 * The partition shared by the key-value sort and the argsort: kvpartition
 * of xss-common-keyvaluesort.hpp and argpartition of xss-common-argsort.h.
 * Both move whole elements (a key with its value, or an index into the
 * data array) while comparing only a key register: the keys loaded from
 * the keys array, or the data gathered through the index register. Apart
 * from the scalar prologue they are the structure of partition_avx512:
 * the first and last registers are held back, the rest is streamed from
 * whichever side has less free space through a ge-mask compress-store to
 * both store points, and the held registers are stored last.
 *
 * An element is of any type E with `key` giving the key it is compared by.
 * The prologue differs: kvpartition keeps keys equal to the pivot on the
 * left (`keepEqual`), argpartition moves them right.
 */
module KeyedPartition {
  import opened Simd
  import opened Sorting

  /** The key register of a register of elements. */
  function Keys<E>(v: seq<E>, key: E -> int): (r: Reg)
    ensures |r| == |v| && forall i :: 0 <= i < |v| ==> r[i] == key(v[i])
  {
    seq(|v|, i requires 0 <= i < |v| => key(v[i]))
  }

  /** A key the prologue leaves on the left: below the pivot, or equal to it when keepEqual. */
  predicate Low(x: int, pivot: int, keepEqual: bool)
  {
    x < pivot || (keepEqual && x == pivot)
  }

  /**
   * b is a after two stores: c1 at p1 and c2 at p2, with c1 ending before
   * p2 begins; lane by lane.
   */
  ghost predicate Stores<E>(a: seq<E>, b: seq<E>, p1: int, c1: seq<E>, p2: int, c2: seq<E>)
  {
    0 <= p1 && p1 + |c1| <= p2 && p2 + |c2| <= |a| == |b|
    && forall k :: 0 <= k < |a| ==>
         b[k] == (if p1 <= k < p1 + |c1| then c1[k - p1] else if p2 <= k < p2 + |c2| then c2[k - p2] else a[k])
  }

  /** The array with c written from `at` on. */
  function Written<E>(a: seq<E>, at: int, c: seq<E>): (r: seq<E>)
    requires 0 <= at && at + |c| <= |a|
    ensures |r| == |a|
  {
    a[..at] + c + a[at + |c|..]
  }

  /** Two stores, the first ending before the second begins. */
  lemma {:induction false} WrittenTwice<E>(a: seq<E>, p1: int, c1: seq<E>, p2: int, c2: seq<E>)
    requires 0 <= p1 && p1 + |c1| <= p2 && p2 + |c2| <= |a|
    ensures Stores(a, Written(Written(a, p1, c1), p2, c2), p1, c1, p2, c2)
  {
  }

  /** mask_compressstoreu on the element array: the selected lanes, in lane order, from `at` on. */
  method CompressStore<E>(arr: array<E>, at: int, v: seq<E>, m: Mask)
    requires |v| == |m| && 0 <= at && at + Popcount(m) <= arr.Length
    modifies arr
    ensures |Compress(v, m)| == Popcount(m)
    ensures arr[..] == Written(old(arr[..]), at, Compress(v, m))
  {
    var c := Compress(v, m);
    CompressLength(v, m);
    forall i | at <= i < at + |c| {
      arr[i] := c[i - at];
    }
    assert arr[..] == old(arr[..])[..at] + c + old(arr[..])[at + |c|..];
  }

  /**
   * partition_vec: the ge mask of the key register against the pivot
   * selects the elements that go to the last amount_ge_pivot slots before
   * storeEnd (r_store + numlanes); the others go to l_store; the running
   * minimum and maximum key registers absorb the key register.
   */
  method PartitionVec<E>(arr: array<E>, key: E -> int, lStore: int, storeEnd: int, curr: seq<E>,
                         pivotVec: Reg, minIn: Reg, maxIn: Reg)
    returns (amountGe: int, minVec: Reg, maxVec: Reg)
    requires |curr| == |pivotVec| == |minIn| == |maxIn| == NUMLANES
    requires 0 <= lStore && lStore + NUMLANES <= storeEnd <= arr.Length
    modifies arr
    ensures amountGe == Popcount(Ge(Keys(curr, key), pivotVec)) <= NUMLANES
    ensures |Compress(curr, KNot(Ge(Keys(curr, key), pivotVec)))| == NUMLANES - amountGe
    ensures |Compress(curr, Ge(Keys(curr, key), pivotVec))| == amountGe
    ensures Stores(old(arr[..]), arr[..], lStore, Compress(curr, KNot(Ge(Keys(curr, key), pivotVec))),
                   storeEnd - amountGe, Compress(curr, Ge(Keys(curr, key), pivotVec)))
    ensures minVec == VMin(Keys(curr, key), minIn) && maxVec == VMax(Keys(curr, key), maxIn)
  {
    var keysVec := Keys(curr, key);
    var geMask := Ge(keysVec, pivotVec);
    amountGe := Popcount(geMask);
    PopcountBound(geMask);
    PopcountKNot(geMask);
    CompressLength(curr, geMask);
    CompressLength(curr, KNot(geMask));
    ghost var a0 := arr[..];
    ghost var c1, c2 := Compress(curr, KNot(geMask)), Compress(curr, geMask);
    var at := storeEnd - amountGe;
    CompressStore(arr, lStore, curr, KNot(geMask));
    CompressStore(arr, at, curr, geMask);
    ghost var a2 := arr[..];
    WrittenTwice(a0, lStore, c1, at, c2);
    assert a2 == Written(Written(a0, lStore, c1), at, c2);
    minVec := VMin(keysVec, minIn);
    maxVec := VMax(keysVec, maxIn);
  }

  // ---------------------------------------------------------------------
  // Compress-store facts

  /** The complement-mask store of a ge mask writes only elements with keys below the pivot. */
  lemma {:induction false} CompressBelow<E>(v: seq<E>, key: E -> int, pv: Reg, pivot: int)
    requires |v| == |pv| && pv == Set1(pivot, |v|)
    ensures forall i :: 0 <= i < |Compress(v, KNot(Ge(Keys(v, key), pv)))| ==>
      key(Compress(v, KNot(Ge(Keys(v, key), pv)))[i]) < pivot
    ensures forall i :: 0 <= i < |Compress(v, Ge(Keys(v, key), pv))| ==>
      key(Compress(v, Ge(Keys(v, key), pv))[i]) >= pivot
  {
    var m := Ge(Keys(v, key), pv);
    forall i | 0 <= i < |Compress(v, KNot(m))| ensures key(Compress(v, KNot(m))[i]) < pivot {
      CompressElems(v, KNot(m), Compress(v, KNot(m))[i]);
    }
    forall i | 0 <= i < |Compress(v, m)| ensures key(Compress(v, m)[i]) >= pivot {
      CompressElems(v, m, Compress(v, m)[i]);
    }
  }

  /** Every stored element's key is bounded by the updated minimum and maximum registers. */
  lemma {:induction false} CompressBounded<E>(v: seq<E>, key: E -> int, m: Mask, mn: Reg, mx: Reg)
    requires |v| == |m| == |mn| == |mx| > 0
    ensures forall i :: 0 <= i < |Compress(v, m)| ==>
      ReduceMin(VMin(Keys(v, key), mn)) <= key(Compress(v, m)[i]) <= ReduceMax(VMax(Keys(v, key), mx))
  {
    var kv := Keys(v, key);
    ReduceMinLanes(VMin(kv, mn));
    ReduceMaxLanes(VMax(kv, mx));
    forall i | 0 <= i < |Compress(v, m)|
      ensures ReduceMin(VMin(kv, mn)) <= key(Compress(v, m)[i]) <= ReduceMax(VMax(kv, mx))
    {
      var x := Compress(v, m)[i];
      CompressElems(v, m, x);
      var j :| 0 <= j < |v| && m[j] && v[j] == x;
      assert VMin(kv, mn)[j] <= kv[j] <= VMax(kv, mx)[j];
    }
  }

  /** Folding a register into the running minimum and maximum only lowers / raises them. */
  lemma {:induction false} ReduceMonotone(v: Reg, mn: Reg, mx: Reg)
    requires |v| == |mn| == |mx| > 0
    ensures ReduceMin(VMin(v, mn)) <= ReduceMin(mn)
    ensures ReduceMax(mx) <= ReduceMax(VMax(v, mx))
  {
    ReduceMinLanes(VMin(v, mn));
    ReduceMinLanes(mn);
    ReduceMaxLanes(VMax(v, mx));
    ReduceMaxLanes(mx);
    var i :| 0 <= i < |mn| && mn[i] == ReduceMin(mn);
    var j :| 0 <= j < |mx| && mx[j] == ReduceMax(mx);
    assert VMin(v, mn)[i] <= mn[i];
    assert VMax(v, mx)[j] >= mx[j];
  }

  /** Each lane is the initial value or a key from src. */
  predicate LanesFrom(v: Reg, init: int, src: seq<int>)
  {
    forall j :: 0 <= j < |v| ==> v[j] == init || v[j] in src
  }

  lemma {:induction false} LanesFromFold(v: Reg, mn: Reg, mx: Reg, s0: int, b0: int, src: seq<int>)
    requires |v| == |mn| == |mx| && (forall j :: 0 <= j < |v| ==> v[j] in src)
    requires LanesFrom(mn, s0, src) && LanesFrom(mx, b0, src)
    ensures LanesFrom(VMin(v, mn), s0, src) && LanesFrom(VMax(v, mx), b0, src)
  {
  }

  /** The keys of a register read from a[x..y] are keys of a[lo..hi]. */
  lemma {:induction false} LanesFromSlice<E>(a: seq<E>, key: E -> int, lo: int, x: int, y: int, hi: int, v: seq<E>)
    requires 0 <= lo <= x <= y <= hi <= |a| && v == a[x..y]
    ensures forall j :: 0 <= j < |v| ==> Keys(v, key)[j] in Keys(a[lo..hi], key)
  {
    forall j | 0 <= j < |v| ensures Keys(v, key)[j] in Keys(a[lo..hi], key) {
      assert Keys(v, key)[j] == Keys(a[lo..hi], key)[x + j - lo];
    }
  }

  /** The reduction of a register whose lanes come from src or init. */
  lemma {:induction false} ReduceFrom(mn: Reg, mx: Reg, s0: int, b0: int, src: seq<int>)
    requires |mn| > 0 && |mx| > 0 && LanesFrom(mn, s0, src) && LanesFrom(mx, b0, src)
    ensures ReduceMin(mn) == s0 || ReduceMin(mn) in src
    ensures ReduceMax(mx) == b0 || ReduceMax(mx) in src
  {
    ReduceMinLanes(mn);
    ReduceMaxLanes(mx);
  }

  /** A key of s is a key of any rearrangement of s. */
  lemma {:induction false} KeyIn<E>(s: seq<E>, t: seq<E>, key: E -> int, x: int)
    requires multiset(s) == multiset(t) && x in Keys(s, key)
    ensures x in Keys(t, key)
  {
    var i :| 0 <= i < |s| && Keys(s, key)[i] == x;
    assert s[i] in multiset(t);
    var j :| 0 <= j < |t| && t[j] == s[i];
    assert Keys(t, key)[j] == x;
  }

  /** A key of a sub-range is a key of the range. */
  lemma {:induction false} KeyInSub<E>(a: seq<E>, key: E -> int, lo: int, l: int, r: int, hi: int, x: int)
    requires 0 <= lo <= l <= r <= hi <= |a| && x in Keys(a[l..r], key)
    ensures x in Keys(a[lo..hi], key)
  {
    var i :| 0 <= i < r - l && Keys(a[l..r], key)[i] == x;
    assert Keys(a[lo..hi], key)[l - lo + i] == x;
  }

  // ---------------------------------------------------------------------
  // The vector loop

  /**
   * The state of the vector phase: [lo, lStore) holds elements with keys
   * below the pivot, [gStore, hi) elements with keys at least the pivot,
   * all bounded by the reductions of the running minimum and maximum
   * registers; `pending` are the elements not yet stored; nothing outside
   * [lo, hi) has changed.
   */
  ghost predicate VecState<E>(a: seq<E>, a0: seq<E>, key: E -> int, lo: int, hi: int, lStore: int, gStore: int,
                              pivot: int, mn: Reg, mx: Reg, pending: multiset<E>)
  {
    0 <= lo <= lStore <= gStore <= hi <= |a| == |a0| && |mn| > 0 && |mx| > 0
    && Same(a, a0, 0, lo) && Same(a, a0, hi, |a|)
    && (forall k :: lo <= k < lStore ==> key(a[k]) < pivot && ReduceMin(mn) <= key(a[k]) <= ReduceMax(mx))
    && (forall k :: gStore <= k < hi ==> key(a[k]) >= pivot && ReduceMin(mn) <= key(a[k]) <= ReduceMax(mx))
    && multiset(a[lo..lStore]) + multiset(a[gStore..hi]) + pending == multiset(a0[lo..hi])
  }

  /** a and b agree on [l, r). */
  ghost predicate Same<E>(a: seq<E>, b: seq<E>, l: int, r: int)
  {
    0 <= l <= r <= |a| && r <= |b| && forall k :: l <= k < r ==> a[k] == b[k]
  }

  /** The two stores of one partition_vec call extend the stored ranges by c1 and c2. */
  lemma {:induction false} StoredSlices<E>(A: seq<E>, B: seq<E>, lo: int, hi: int, lStore: int, gStore: int,
                                           c1: seq<E>, c2: seq<E>, ls: int, gs: int)
    requires 0 <= lo <= lStore && ls == lStore + |c1| && gs == gStore - |c2| && ls <= gs && gStore <= hi <= |A|
    requires Stores(A, B, lStore, c1, gs, c2)
    ensures B[lo..ls] == A[lo..lStore] + c1
    ensures B[gs..hi] == c2 + A[gStore..hi]
  {
    assert B[lo..ls] == A[lo..lStore] + c1;
    assert B[gs..hi] == c2 + A[gStore..hi];
  }

  /** Moving c1 and c2 from the pending elements onto the two stored ranges keeps the total. */
  lemma {:induction false} StoredMultiset<E>(x1: seq<E>, x2: seq<E>, y1: seq<E>, y2: seq<E>,
                                             c1: seq<E>, c2: seq<E>, P: multiset<E>, P': multiset<E>,
                                             total: multiset<E>)
    requires y1 == x1 + c1 && y2 == c2 + x2
    requires multiset(x1) + multiset(x2) + P == total && P == P' + multiset(c1) + multiset(c2)
    ensures multiset(y1) + multiset(y2) + P' == total
  {
  }

  /** One partition_vec call keeps the state, with curr moved from pending into the stores. */
  lemma {:induction false} StepKeeps<E>(A: seq<E>, B: seq<E>, a0: seq<E>, key: E -> int, lo: int, hi: int,
                                        lStore: int, gStore: int, pivot: int, mn: Reg, mx: Reg, mn': Reg, mx': Reg,
                                        P: multiset<E>, P': multiset<E>, c1: seq<E>, c2: seq<E>, l: int, r: int,
                                        ls: int, gs: int)
    requires VecState(A, a0, key, lo, hi, lStore, gStore, pivot, mn, mx, P)
    requires ls == lStore + |c1| && gs == gStore - |c2|
    requires ls <= l <= r <= gs
    requires Stores(A, B, lStore, c1, gs, c2)
    requires P == P' + multiset(c1) + multiset(c2)
    requires |mn'| > 0 && |mx'| > 0
    requires ReduceMin(mn') <= ReduceMin(mn) && ReduceMax(mx) <= ReduceMax(mx')
    requires forall i :: 0 <= i < |c1| ==> key(c1[i]) < pivot && ReduceMin(mn') <= key(c1[i]) <= ReduceMax(mx')
    requires forall i :: 0 <= i < |c2| ==> key(c2[i]) >= pivot && ReduceMin(mn') <= key(c2[i]) <= ReduceMax(mx')
    ensures VecState(B, a0, key, lo, hi, ls, gs, pivot, mn', mx', P')
    ensures Same(B, A, l, r)
  {
    StoredSlices(A, B, lo, hi, lStore, gStore, c1, c2, ls, gs);
    StoredMultiset(A[lo..lStore], A[gStore..hi], B[lo..ls], B[gs..hi], c1, c2, P, P', multiset(a0[lo..hi]));
    forall k | lo <= k < ls ensures key(B[k]) < pivot && ReduceMin(mn') <= key(B[k]) <= ReduceMax(mx') {
      if k >= lStore { assert B[k] == c1[k - lStore]; }
    }
    forall k | gs <= k < hi ensures key(B[k]) >= pivot && ReduceMin(mn') <= key(B[k]) <= ReduceMax(mx') {
      if k < gStore { assert B[k] == c2[k - gs]; }
    }
  }

  /** The two stores of one register partition it. */
  lemma {:induction false} StoredParts<E>(curr: seq<E>, key: E -> int, pv: Reg, pivot: int, mn: Reg, mx: Reg)
    requires |curr| == |pv| == |mn| == |mx| == NUMLANES && pv == Set1(pivot, NUMLANES)
    ensures multiset(curr) == multiset(Compress(curr, KNot(Ge(Keys(curr, key), pv))))
                            + multiset(Compress(curr, Ge(Keys(curr, key), pv)))
    ensures forall i :: 0 <= i < |Compress(curr, KNot(Ge(Keys(curr, key), pv)))| ==>
      key(Compress(curr, KNot(Ge(Keys(curr, key), pv)))[i]) < pivot
      && ReduceMin(VMin(Keys(curr, key), mn)) <= key(Compress(curr, KNot(Ge(Keys(curr, key), pv)))[i])
      <= ReduceMax(VMax(Keys(curr, key), mx))
    ensures forall i :: 0 <= i < |Compress(curr, Ge(Keys(curr, key), pv))| ==>
      key(Compress(curr, Ge(Keys(curr, key), pv))[i]) >= pivot
      && ReduceMin(VMin(Keys(curr, key), mn)) <= key(Compress(curr, Ge(Keys(curr, key), pv))[i])
      <= ReduceMax(VMax(Keys(curr, key), mx))
    ensures ReduceMin(VMin(Keys(curr, key), mn)) <= ReduceMin(mn)
         && ReduceMax(mx) <= ReduceMax(VMax(Keys(curr, key), mx))
  {
    CompressSplit(curr, Ge(Keys(curr, key), pv));
    CompressBelow(curr, key, pv, pivot);
    CompressBounded(curr, key, KNot(Ge(Keys(curr, key), pv)), mn, mx);
    CompressBounded(curr, key, Ge(Keys(curr, key), pv), mn, mx);
    ReduceMonotone(Keys(curr, key), mn, mx);
  }

  /** The registers set1(smallest) and set1(biggest) reduce to those values and take lanes from nowhere else. */
  lemma {:induction false} SetLanes(s0: int, b0: int, src: seq<int>)
    ensures ReduceMin(Set1(s0, NUMLANES)) == s0 && ReduceMax(Set1(b0, NUMLANES)) == b0
    ensures LanesFrom(Set1(s0, NUMLANES), s0, src) && LanesFrom(Set1(b0, NUMLANES), b0, src)
  {
    ReduceMinLanes(Set1(s0, NUMLANES));
    ReduceMaxLanes(Set1(b0, NUMLANES));
  }

  /** Before any store: both stores are empty and everything is pending. */
  lemma {:induction false} VecStateInit<E>(a0: seq<E>, key: E -> int, lo: int, hi: int, pivot: int, mn: Reg, mx: Reg)
    requires 0 <= lo <= hi <= |a0| && |mn| > 0 && |mx| > 0
    ensures VecState(a0, a0, key, lo, hi, lo, hi, pivot, mn, mx, multiset(a0[lo..hi]))
  {
    assert a0[lo..lo] == [] && a0[hi..hi] == [];
  }

  /** Splitting a slice at any index splits its elements. */
  lemma {:induction false} Split<E>(s: seq<E>, i: int, j: int, k: int)
    requires 0 <= i <= j <= k <= |s|
    ensures multiset(s[i..k]) == multiset(s[i..j]) + multiset(s[j..k])
  {
    assert s[i..k] == s[i..j] + s[j..k];
  }

  /** Loading one register from either end of the unread range [l0, r0). */
  lemma {:induction false} PendingSplit<E>(a0: seq<E>, l0: int, r0: int, l1: int, r1: int, x: int)
    requires 0 <= l0 <= r0 <= |a0|
    requires (x == l0 && l1 == l0 + NUMLANES && r1 == r0) || (x == r0 - NUMLANES && l1 == l0 && r1 == x)
    requires l1 <= r1
    ensures multiset(a0[l0..r0]) == multiset(a0[l1..r1]) + multiset(a0[x..x + NUMLANES])
  {
    if x == l0 {
      Split(a0, l0, l1, r0);
    } else {
      Split(a0, l0, r1, r0);
    }
  }

  /**
   * The result of partitioning [lo, hi) around pivot: a permutation of the
   * range, keys before p below the pivot (or equal to it when keepEqual),
   * keys from p on at least the pivot, everything outside the range unchanged.
   */
  ghost predicate Partitioned<E>(a: seq<E>, a0: seq<E>, key: E -> int, lo: int, hi: int, p: int, pivot: int,
                                 keepEqual: bool)
  {
    0 <= lo <= p <= hi <= |a| == |a0|
    && a[..lo] == a0[..lo] && a[hi..] == a0[hi..]
    && multiset(a[lo..hi]) == multiset(a0[lo..hi])
    && (forall k :: lo <= k < p ==> Low(key(a[k]), pivot, keepEqual))
    && (forall k :: p <= k < hi ==> key(a[k]) >= pivot)
  }

  /**
   * s and b are the smallest and largest of s0, b0 and the keys of seg:
   * they bound every key and are either the initial value or a key.
   */
  ghost predicate Extremes<E>(seg: seq<E>, key: E -> int, s0: int, b0: int, s: int, b: int)
  {
    s <= s0 && b0 <= b
    && (forall k :: 0 <= k < |seg| ==> s <= key(seg[k]) <= b)
    && (s == s0 || s in Keys(seg, key)) && (b == b0 || b in Keys(seg, key))
  }

  /** A finished vector phase is a partition with bounded keys. */
  lemma {:induction false} VecStateDone<E>(a: seq<E>, a0: seq<E>, key: E -> int, lo: int, hi: int, p: int,
                                           pivot: int, keepEqual: bool, s0: int, b0: int, mn: Reg, mx: Reg)
    requires |mn| > 0 && |mx| > 0
    requires VecState(a, a0, key, lo, hi, p, p, pivot, mn, mx, multiset{})
    requires LanesFrom(mn, s0, Keys(a0[lo..hi], key)) && LanesFrom(mx, b0, Keys(a0[lo..hi], key))
    requires ReduceMin(mn) <= s0 && b0 <= ReduceMax(mx)
    ensures Partitioned(a, a0, key, lo, hi, p, pivot, keepEqual)
    ensures Extremes(a[lo..hi], key, s0, b0, ReduceMin(mn), ReduceMax(mx))
  {
    assert a[..lo] == a0[..lo];
    assert a[hi..] == a0[hi..];
    Split(a, lo, p, hi);
    ReduceFrom(mn, mx, s0, b0, Keys(a0[lo..hi], key));
    if ReduceMin(mn) != s0 {
      KeyIn(a0[lo..hi], a[lo..hi], key, ReduceMin(mn));
    }
    if ReduceMax(mx) != b0 {
      KeyIn(a0[lo..hi], a[lo..hi], key, ReduceMax(mx));
    }
    forall k | 0 <= k < hi - lo ensures ReduceMin(mn) <= key(a[lo..hi][k]) <= ReduceMax(mx) {
      assert a[lo..hi][k] == a[lo + k];
    }
  }

  /** Adding the elements of a register and then taking them out again as two parts. */
  lemma {:induction false} PendingParts<E>(Pin: multiset<E>, P: multiset<E>, c: multiset<E>,
                                           c1: multiset<E>, c2: multiset<E>)
    requires Pin == P + c && c == c1 + c2
    ensures Pin == P + c1 + c2
  {
  }

  /** The state after the two stores of one register. */
  lemma {:induction false} RegisterStored<E>(A: seq<E>, B: seq<E>, a0: seq<E>, key: E -> int, lo: int, hi: int,
                                             lStore: int, gStore: int, curr: seq<E>, pivot: int, pivotVec: Reg,
                                             minVec: Reg, maxVec: Reg, Pin: multiset<E>, P: multiset<E>,
                                             l: int, r: int, amountGe: int, ls: int, gs: int)
    requires ls == lStore + NUMLANES - amountGe && gs == gStore - amountGe
    requires |curr| == |minVec| == |maxVec| == NUMLANES && pivotVec == Set1(pivot, NUMLANES)
    requires VecState(A, a0, key, lo, hi, lStore, gStore, pivot, minVec, maxVec, Pin)
    requires Pin == P + multiset(curr)
    requires gStore - lStore == NUMLANES || lStore + NUMLANES <= l <= r <= gStore - NUMLANES
    requires amountGe == Popcount(Ge(Keys(curr, key), pivotVec)) <= NUMLANES
    requires |Compress(curr, KNot(Ge(Keys(curr, key), pivotVec)))| == NUMLANES - amountGe
    requires |Compress(curr, Ge(Keys(curr, key), pivotVec))| == amountGe
    requires Stores(A, B, lStore, Compress(curr, KNot(Ge(Keys(curr, key), pivotVec))),
                    gStore - amountGe, Compress(curr, Ge(Keys(curr, key), pivotVec)))
    ensures VecState(B, a0, key, lo, hi, ls, gs, pivot,
                     VMin(Keys(curr, key), minVec), VMax(Keys(curr, key), maxVec), P)
    ensures lStore + NUMLANES <= l <= r <= gStore - NUMLANES ==> Same(B, A, l, r)
    ensures ReduceMin(VMin(Keys(curr, key), minVec)) <= ReduceMin(minVec)
         && ReduceMax(maxVec) <= ReduceMax(VMax(Keys(curr, key), maxVec))
  {
    StoredParts(curr, key, pivotVec, pivot, minVec, maxVec);
    var c1, c2 := Compress(curr, KNot(Ge(Keys(curr, key), pivotVec))), Compress(curr, Ge(Keys(curr, key), pivotVec));
    PendingParts(Pin, P, multiset(curr), multiset(c1), multiset(c2));
    var l', r' := l, r;
    if !(lStore + NUMLANES <= l <= r <= gStore - NUMLANES) {
      l', r' := ls, ls;
    }
    StepKeeps(A, B, a0, key, lo, hi, lStore, gStore, pivot, minVec, maxVec,
              VMin(Keys(curr, key), minVec), VMax(Keys(curr, key), maxVec), Pin, P, c1, c2, l', r',
              ls, gs);
  }

  /**
   * One partition_vec call of the vector phase, with r_store = gStore - numlanes:
   * curr leaves the pending elements Pin, P are left, both stores grow, and
   * the unread range [l, r) is not written.
   */
  method StoreRegister<E>(arr: array<E>, key: E -> int, ghost A: seq<E>, ghost a0: seq<E>, lo: int, hi: int,
                          lStore: int, gStore: int, curr: seq<E>, pivot: int, pivotVec: Reg, minVec: Reg,
                          maxVec: Reg, ghost Pin: multiset<E>, ghost P: multiset<E>, ghost l: int, ghost r: int)
    returns (amountGe: int, minVec': Reg, maxVec': Reg, ghost B: seq<E>, ghost ls: int, ghost gs: int)
    requires |curr| == |minVec| == |maxVec| == NUMLANES && pivotVec == Set1(pivot, NUMLANES)
    requires A == arr[..]
    requires Pin == P + multiset(curr)
    requires VecState(A, a0, key, lo, hi, lStore, gStore, pivot, minVec, maxVec, Pin)
    requires gStore - lStore == NUMLANES || lStore + NUMLANES <= l <= r <= gStore - NUMLANES
    modifies arr
    ensures 0 <= amountGe <= NUMLANES
    ensures minVec' == VMin(Keys(curr, key), minVec) && maxVec' == VMax(Keys(curr, key), maxVec)
    ensures B == arr[..] && ls == lStore + NUMLANES - amountGe && gs == gStore - amountGe
    ensures VecState(B, a0, key, lo, hi, ls, gs, pivot, minVec', maxVec', P)
    ensures lStore + NUMLANES <= l <= r <= gStore - NUMLANES ==> Same(B, A, l, r)
    ensures ReduceMin(minVec') <= ReduceMin(minVec) && ReduceMax(maxVec) <= ReduceMax(maxVec')
  {
    amountGe, minVec', maxVec' := PartitionVec(arr, key, lStore, gStore, curr, pivotVec, minVec, maxVec);
    B := arr[..];
    ls, gs := lStore + NUMLANES - amountGe, gStore - amountGe;
    RegisterStored(A, B, a0, key, lo, hi, lStore, gStore, curr, pivot, pivotVec, minVec, maxVec, Pin, P, l, r,
                   amountGe, ls, gs);
  }

  /** The same state, with its store points and pending elements written differently. */
  lemma {:induction false} VecStateRename<E>(a: seq<E>, a0: seq<E>, key: E -> int, lo: int, hi: int, ls: int,
                                             gs: int, pivot: int, mn: Reg, mx: Reg, P: multiset<E>,
                                             ls': int, gs': int, P': multiset<E>)
    requires VecState(a, a0, key, lo, hi, ls, gs, pivot, mn, mx, P)
    requires ls == ls' && gs == gs' && P == P'
    ensures VecState(a, a0, key, lo, hi, ls', gs', pivot, mn, mx, P')
  {
  }

  /**
   * The invariant of the vector loop, with gStore = l_store + unpartitioned
   * + numlanes: [left, right) is still unread, `held` are the elements of the
   * two held-back registers, the store points leave 2 * numlanes free slots
   * between them and the read range, and min_vec / max_vec hold the running
   * extremes of the keys.
   */
  ghost predicate LoopInv<E>(a: seq<E>, a0: seq<E>, key: E -> int, lo: int, hi: int, left: int, right: int,
                             lStore: int, gStore: int, unpartitioned: int, pivot: int, mn: Reg, mx: Reg,
                             held: multiset<E>, s0: int, b0: int)
  {
    0 <= lo && lo + NUMLANES <= left <= right <= hi - NUMLANES && hi <= |a| == |a0|
    && (right - left) % NUMLANES == 0
    && unpartitioned == right - left + NUMLANES
    && gStore == lStore + unpartitioned + NUMLANES
    && lStore <= left && right <= gStore
    && |mn| == |mx| == NUMLANES
    && Same(a, a0, left, right)
    && VecState(a, a0, key, lo, hi, lStore, gStore, pivot, mn, mx, multiset(a0[left..right]) + held)
    && LanesFrom(mn, s0, Keys(a0[lo..hi], key)) && LanesFrom(mx, b0, Keys(a0[lo..hi], key))
    && ReduceMin(mn) <= s0 && b0 <= ReduceMax(mx)
  }

  /**
   * Where the loop reads its next register: from the right end when the
   * right side has less free space, from the left end otherwise.
   */
  predicate NextRead(left: int, right: int, lStore: int, gStore: int, left': int, right': int, x: int)
  {
    if gStore - right < left - lStore then right' == right - NUMLANES && x == right' && left' == left
    else x == left && left' == left + NUMLANES && right' == right
  }

  /**
   * Reading the next register: it is read from the unread range, which
   * shrinks by it and stays between the store points with numlanes free
   * slots on each side, and its keys come from the range.
   */
  lemma {:induction false} LoopLoad<E>(A: seq<E>, a0: seq<E>, key: E -> int, lo: int, hi: int, left: int,
                                       right: int, lStore: int, gStore: int, mn: Reg, mx: Reg, s0: int, b0: int,
                                       left': int, right': int, x: int, curr: seq<E>, held: multiset<E>)
    requires 0 <= lo && lo + NUMLANES <= left <= right <= hi - NUMLANES && hi <= |A| == |a0|
    requires (right - left) % NUMLANES == 0 && right - left != 0
    requires lStore <= left && right <= gStore && gStore - lStore == right - left + 2 * NUMLANES
    requires NextRead(left, right, lStore, gStore, left', right', x)
    requires Same(A, a0, left, right) && curr == A[x..x + NUMLANES]
    requires |mn| == |mx| == NUMLANES
    requires LanesFrom(mn, s0, Keys(a0[lo..hi], key)) && LanesFrom(mx, b0, Keys(a0[lo..hi], key))
    ensures |curr| == NUMLANES
    ensures lStore + NUMLANES <= left' <= right' <= gStore - NUMLANES
    ensures Same(A, a0, left', right')
    ensures multiset(a0[left..right]) + held == (multiset(a0[left'..right']) + held) + multiset(curr)
    ensures LanesFrom(VMin(Keys(curr, key), mn), s0, Keys(a0[lo..hi], key))
         && LanesFrom(VMax(Keys(curr, key), mx), b0, Keys(a0[lo..hi], key))
  {
    LoadRegister(A, a0, key, lo, hi, left, right, left', right', x, curr);
    LanesFromFold(Keys(curr, key), mn, mx, s0, b0, Keys(a0[lo..hi], key));
    PendingMove(multiset(a0[left..right]), multiset(a0[left'..right']), multiset(curr), held);
  }

  /** After the stores of the register read by NextRead, the invariant holds again. */
  lemma {:induction false} LoopAdvance<E>(B: seq<E>, a0: seq<E>, key: E -> int, lo: int, hi: int, left: int,
                                          right: int, lStore: int, gStore: int, unpartitioned: int, pivot: int,
                                          held: multiset<E>, s0: int, b0: int, left': int, right': int, x: int,
                                          amountGe: int, mn': Reg, mx': Reg, ls: int, gs: int,
                                          lStore': int, unpartitioned': int)
    requires 0 <= lo && lo + NUMLANES <= left <= right <= hi - NUMLANES && hi <= |B| == |a0|
    requires (right - left) % NUMLANES == 0 && right - left != 0 && unpartitioned == right - left + NUMLANES
    requires lStore <= left && right <= gStore && gStore == lStore + unpartitioned + NUMLANES
    requires NextRead(left, right, lStore, gStore, left', right', x) && 0 <= amountGe <= NUMLANES
    requires ls == lStore + NUMLANES - amountGe && gs == gStore - amountGe
    requires lStore' == ls && unpartitioned' == unpartitioned - NUMLANES
    requires Same(B, a0, left', right')
    requires VecState(B, a0, key, lo, hi, ls, gs, pivot, mn', mx', multiset(a0[left'..right']) + held)
    requires |mn'| == |mx'| == NUMLANES
    requires LanesFrom(mn', s0, Keys(a0[lo..hi], key)) && LanesFrom(mx', b0, Keys(a0[lo..hi], key))
    requires ReduceMin(mn') <= s0 && b0 <= ReduceMax(mx')
    ensures LoopInv(B, a0, key, lo, hi, left', right', lStore', gs, unpartitioned', pivot, mn', mx', held, s0, b0)
    ensures right' - left' == right - left - NUMLANES
  {
    BlockStep(left, right, left', right');
    VecStateRename(B, a0, key, lo, hi, ls, gs, pivot, mn', mx', multiset(a0[left'..right']) + held,
                   lStore', gs, multiset(a0[left'..right']) + held);
  }

  /** Agreement on [l, r) carries over from a to b when b agrees with a there. */
  lemma {:induction false} SameTrans<E>(b: seq<E>, a: seq<E>, a0: seq<E>, l: int, r: int)
    requires Same(b, a, l, r) && Same(a, a0, l, r)
    ensures Same(b, a0, l, r)
  {
  }

  /** Reading one register at x from either end of the unread range [l0, r0) of a. */
  lemma {:induction false} LoadRegister<E>(a: seq<E>, a0: seq<E>, key: E -> int, lo: int, hi: int, l0: int, r0: int,
                                           l1: int, r1: int, x: int, curr: seq<E>)
    requires 0 <= lo <= l0 <= r0 <= hi <= |a| == |a0| && Same(a, a0, l0, r0)
    requires (x == l0 && l1 == l0 + NUMLANES && r1 == r0) || (x == r0 - NUMLANES && l1 == l0 && r1 == x)
    requires l1 <= r1 && curr == a[x..x + NUMLANES]
    ensures curr == a0[x..x + NUMLANES] && Same(a, a0, l1, r1)
    ensures multiset(a0[l0..r0]) == multiset(a0[l1..r1]) + multiset(curr)
    ensures forall j :: 0 <= j < |curr| ==> Keys(curr, key)[j] in Keys(a0[lo..hi], key)
  {
    assert curr == a0[x..x + NUMLANES];
    PendingSplit(a0, l0, r0, l1, r1, x);
    LanesFromSlice(a0, key, lo, x, x + NUMLANES, hi, curr);
  }

  /** Moving a register out of the unread elements moves it out of the pending ones. */
  lemma {:induction false} PendingMove<E>(m0: multiset<E>, m1: multiset<E>, c: multiset<E>, held: multiset<E>)
    requires m0 == m1 + c
    ensures m0 + held == (m1 + held) + c
  {
  }

  /** The unread range and the two held registers, grouped as the loop invariant groups them. */
  lemma {:induction false} PendingRegroup<E>(m: multiset<E>, u: multiset<E>, vl: multiset<E>, vr: multiset<E>)
    requires m == u + vl + vr
    ensures m == u + (vl + vr)
  {
  }

  /** Removing one register from a multiple of numlanes leaves a multiple of numlanes. */
  lemma {:induction false} BlockStep(l0: int, r0: int, l1: int, r1: int)
    requires (r0 - l0) % NUMLANES == 0 && r1 - l1 == r0 - l0 - NUMLANES
    ensures (r1 - l1) % NUMLANES == 0
  {
  }

  /**
   * One iteration of the vector loop: a register of elements (and its key
   * register) is loaded from the side with less free space and partitioned
   * into the two store points.
   */
  method VecStep<E>(arr: array<E>, key: E -> int, ghost a0: seq<E>, lo: int, hi: int, left: int, right: int,
                    lStore: int, ghost gStore: int, unpartitioned: int, pivot: int, pivotVec: Reg, minVec: Reg,
                    maxVec: Reg, ghost held: multiset<E>, ghost s0: int, ghost b0: int)
    returns (left': int, right': int, lStore': int, ghost gStore': int, unpartitioned': int,
             minVec': Reg, maxVec': Reg)
    requires pivotVec == Set1(pivot, NUMLANES) && right - left != 0
    requires LoopInv(arr[..], a0, key, lo, hi, left, right, lStore, gStore, unpartitioned, pivot, minVec, maxVec,
                     held, s0, b0)
    modifies arr
    ensures right' - left' == right - left - NUMLANES
    ensures LoopInv(arr[..], a0, key, lo, hi, left', right', lStore', gStore', unpartitioned', pivot, minVec',
                    maxVec', held, s0, b0)
  {
    ghost var A := arr[..];
    var storeEnd := lStore + unpartitioned + NUMLANES;
    VecStateRename(A, a0, key, lo, hi, lStore, gStore, pivot, minVec, maxVec, multiset(a0[left..right]) + held,
                   lStore, storeEnd, multiset(a0[left..right]) + held);
    var curr;
    ghost var x;
    left', right' := left, right;
    // load from the side with less free space
    if storeEnd - right < left - lStore {
      right' := right - NUMLANES;
      x := right';
      curr := arr[right'..right' + NUMLANES];
    } else {
      x := left;
      curr := arr[left..left + NUMLANES];
      left' := left + NUMLANES;
    }
    LoopLoad(A, a0, key, lo, hi, left, right, lStore, storeEnd, minVec, maxVec, s0, b0, left', right', x, curr, held);
    var amountGe;
    ghost var B, ls;
    amountGe, minVec', maxVec', B, ls, gStore' := StoreRegister(arr, key, A, a0, lo, hi, lStore, storeEnd, curr, pivot,
                                                                pivotVec, minVec, maxVec,
                                                                multiset(a0[left..right]) + held,
                                                                multiset(a0[left'..right']) + held, left', right');
    lStore' := lStore + NUMLANES - amountGe;
    unpartitioned' := unpartitioned - NUMLANES;
    SameTrans(B, A, a0, left', right');
    LoopAdvance(B, a0, key, lo, hi, left, right, lStore, storeEnd, unpartitioned, pivot, held, s0, b0,
                left', right', x, amountGe, minVec', maxVec', ls, gStore', lStore', unpartitioned');
  }

  /** Nothing unread: the pending elements are exactly the two held registers. */
  lemma {:induction false} HeldOnly<E>(m: multiset<E>, vl: multiset<E>, vr: multiset<E>)
    requires m == multiset{}
    ensures m + (vl + vr) == vr + vl
    ensures vr == multiset{} + vr
  {
  }

  /**
   * The end of the vector phase: once nothing is unread, the held-back
   * left register and then the right one are partitioned into the
   * 2 * numlanes free slots, which completes the partition.
   */
  method StoreHeld<E(==)>(arr: array<E>, key: E -> int, ghost a0: seq<E>, lo: int, hi: int, left: int, right: int,
                      lStore: int, ghost gStore: int, unpartitioned: int, pivot: int, ghost keepEqual: bool,
                      pivotVec: Reg, minVec: Reg, maxVec: Reg, vecLeft: seq<E>, vecRight: seq<E>,
                      ghost s0: int, ghost b0: int)
    returns (p: int, smallest': int, biggest': int)
    requires pivotVec == Set1(pivot, NUMLANES) && right - left == 0
    requires LoopInv(arr[..], a0, key, lo, hi, left, right, lStore, gStore, unpartitioned, pivot, minVec, maxVec,
                     multiset(vecLeft) + multiset(vecRight), s0, b0)
    requires vecLeft == a0[lo..lo + NUMLANES] && vecRight == a0[hi - NUMLANES..hi]
    modifies arr
    ensures Partitioned(arr[..], a0, key, lo, hi, p, pivot, keepEqual)
    ensures Extremes(arr[lo..hi], key, s0, b0, smallest', biggest')
  {
    ghost var A := arr[..];
    var storeEnd := lStore + unpartitioned + NUMLANES;
    ghost var Pin := multiset(a0[left..right]) + (multiset(vecLeft) + multiset(vecRight));
    VecStateRename(A, a0, key, lo, hi, lStore, gStore, pivot, minVec, maxVec, Pin, lStore, storeEnd, Pin);
    assert a0[left..right] == [];
    HeldOnly(multiset(a0[left..right]), multiset(vecLeft), multiset(vecRight));
    LanesFromSlice(a0, key, lo, lo, lo + NUMLANES, hi, vecLeft);
    LanesFromFold(Keys(vecLeft, key), minVec, maxVec, s0, b0, Keys(a0[lo..hi], key));
    var amountGe, minVec1, maxVec1;
    ghost var B, ls, gs;
    ghost var mid := lStore + NUMLANES;
    amountGe, minVec1, maxVec1, B, ls, gs := StoreRegister(arr, key, A, a0, lo, hi, lStore, storeEnd, vecLeft, pivot,
                                                           pivotVec, minVec, maxVec, Pin, multiset(vecRight),
                                                           mid, mid);
    var lStore1 := lStore + (NUMLANES - amountGe);
    var unpartitioned1 := unpartitioned - NUMLANES;
    var storeEnd1 := lStore1 + unpartitioned1 + NUMLANES;
    VecStateRename(B, a0, key, lo, hi, ls, gs, pivot, minVec1, maxVec1, multiset(vecRight),
                   lStore1, storeEnd1, multiset(vecRight));
    LanesFromSlice(a0, key, lo, hi - NUMLANES, hi, hi, vecRight);
    LanesFromFold(Keys(vecRight, key), minVec1, maxVec1, s0, b0, Keys(a0[lo..hi], key));
    var minVec2, maxVec2;
    ghost var B2, ls2, gs2;
    amountGe, minVec2, maxVec2, B2, ls2, gs2 := StoreRegister(arr, key, B, a0, lo, hi, lStore1, storeEnd1, vecRight,
                                                              pivot, pivotVec, minVec1, maxVec1, multiset(vecRight),
                                                              multiset{}, lStore1, lStore1);
    p := lStore1 + (NUMLANES - amountGe);
    VecStateRename(B2, a0, key, lo, hi, ls2, gs2, pivot, minVec2, maxVec2, multiset{}, p, p, multiset{});
    VecStateDone(B2, a0, key, lo, hi, p, pivot, keepEqual, s0, b0, minVec2, maxVec2);
    smallest', biggest' := ReduceMin(minVec2), ReduceMax(maxVec2);
  }

  /** The vector phase on exactly one register: one partition_vec call does it all. */
  method PartitionOne<E(==)>(arr: array<E>, key: E -> int, ghost a0: seq<E>, lo: int, hi: int, pivot: int,
                         ghost keepEqual: bool, pivotVec: Reg, minVec: Reg, maxVec: Reg, ghost s0: int, ghost b0: int)
    returns (p: int, smallest': int, biggest': int)
    requires pivotVec == Set1(pivot, NUMLANES) && 0 <= lo && hi - lo == NUMLANES && hi <= arr.Length
    requires arr[..] == a0 && |minVec| == |maxVec| == NUMLANES
    requires VecState(a0, a0, key, lo, hi, lo, hi, pivot, minVec, maxVec, multiset(a0[lo..hi]))
    requires LanesFrom(minVec, s0, Keys(a0[lo..hi], key)) && LanesFrom(maxVec, b0, Keys(a0[lo..hi], key))
    requires ReduceMin(minVec) <= s0 && b0 <= ReduceMax(maxVec)
    modifies arr
    ensures Partitioned(arr[..], a0, key, lo, hi, p, pivot, keepEqual)
    ensures Extremes(arr[lo..hi], key, s0, b0, smallest', biggest')
  {
    var vec := arr[lo..lo + NUMLANES];
    var lStore := lo;
    assert a0[lo..hi] == vec;
    HeldOnly(multiset{}, multiset{}, multiset(vec));
    var amountGe, minVec1, maxVec1;
    ghost var B, ls, gs;
    amountGe, minVec1, maxVec1, B, ls, gs := StoreRegister(arr, key, a0, a0, lo, hi, lo, hi, vec, pivot, pivotVec,
                                                           minVec, maxVec, multiset(a0[lo..hi]), multiset{}, lo, lo);
    LanesFromSlice(a0, key, lo, lo, hi, hi, vec);
    LanesFromFold(Keys(vec, key), minVec, maxVec, s0, b0, Keys(a0[lo..hi], key));
    p := lStore + (NUMLANES - amountGe);
    VecStateRename(B, a0, key, lo, hi, ls, gs, pivot, minVec1, maxVec1, multiset{}, p, p, multiset{});
    VecStateDone(B, a0, key, lo, hi, p, pivot, keepEqual, s0, b0, minVec1, maxVec1);
    smallest', biggest' := ReduceMin(minVec1), ReduceMax(maxVec1);
  }

  /** The loop invariant before the first iteration, with the first and last register held back. */
  lemma {:induction false} LoopStart<E>(a0: seq<E>, key: E -> int, lo: int, hi: int, left: int, right: int,
                                        lStore: int, unpartitioned: int, pivot: int, mn: Reg, mx: Reg,
                                        s0: int, b0: int, vecLeft: seq<E>, vecRight: seq<E>)
    requires 0 <= lo && lo + 2 * NUMLANES <= hi <= |a0| && (hi - lo) % NUMLANES == 0 && |mn| == |mx| == NUMLANES
    requires left == lo + NUMLANES && right == hi - NUMLANES && lStore == lo && unpartitioned == hi - lo - NUMLANES
    requires vecLeft == a0[lo..lo + NUMLANES] && vecRight == a0[hi - NUMLANES..hi]
    requires VecState(a0, a0, key, lo, hi, lo, hi, pivot, mn, mx, multiset(a0[lo..hi]))
    requires LanesFrom(mn, s0, Keys(a0[lo..hi], key)) && LanesFrom(mx, b0, Keys(a0[lo..hi], key))
    requires ReduceMin(mn) <= s0 && b0 <= ReduceMax(mx)
    ensures LoopInv(a0, a0, key, lo, hi, left, right, lStore, hi, unpartitioned, pivot, mn, mx,
                    multiset(vecLeft) + multiset(vecRight), s0, b0)
  {
    HeldBack(a0, lo, hi);
    PendingRegroup(multiset(a0[lo..hi]), multiset(a0[left..right]), multiset(vecLeft), multiset(vecRight));
    VecStateRename(a0, a0, key, lo, hi, lo, hi, pivot, mn, mx, multiset(a0[lo..hi]),
                   lStore, hi, multiset(a0[left..right]) + (multiset(vecLeft) + multiset(vecRight)));
  }

  /**
   * The vector phase on a range whose length is a positive multiple of
   * numlanes: the first and last register are held back, the rest is
   * streamed through partition_vec from whichever side has less free
   * space, and the two held registers are partitioned last.
   */
  method PartitionVectors<E(==)>(arr: array<E>, key: E -> int, lo: int, hi: int, pivot: int, ghost keepEqual: bool,
                             smallest: int, biggest: int)
    returns (p: int, smallest': int, biggest': int)
    requires 0 <= lo && lo + NUMLANES <= hi <= arr.Length && (hi - lo) % NUMLANES == 0
    modifies arr
    ensures Partitioned(arr[..], old(arr[..]), key, lo, hi, p, pivot, keepEqual)
    ensures Extremes(arr[lo..hi], key, smallest, biggest, smallest', biggest')
  {
    ghost var a0 := arr[..];
    var pivotVec := Set1(pivot, NUMLANES);
    var minVec := Set1(smallest, NUMLANES);
    var maxVec := Set1(biggest, NUMLANES);
    SetLanes(smallest, biggest, Keys(a0[lo..hi], key));
    VecStateInit(a0, key, lo, hi, pivot, minVec, maxVec);
    if hi - lo == NUMLANES {
      p, smallest', biggest' := PartitionOne(arr, key, a0, lo, hi, pivot, keepEqual, pivotVec, minVec, maxVec,
                                             smallest, biggest);
      return;
    }
    // first and last numlanes values are partitioned at the end
    var vecLeft := arr[lo..lo + NUMLANES];
    var vecRight := arr[hi - NUMLANES..hi];
    var unpartitioned := hi - lo - NUMLANES;
    var lStore := lo;
    var left, right := lo + NUMLANES, hi - NUMLANES;
    ghost var gStore := hi;
    LoopStart(a0, key, lo, hi, left, right, lStore, unpartitioned, pivot, minVec, maxVec, smallest, biggest,
              vecLeft, vecRight);
    while right - left != 0
      invariant LoopInv(arr[..], a0, key, lo, hi, left, right, lStore, gStore, unpartitioned, pivot, minVec, maxVec,
                        multiset(vecLeft) + multiset(vecRight), smallest, biggest)
      decreases right - left
    {
      left, right, lStore, gStore, unpartitioned, minVec, maxVec :=
        VecStep(arr, key, a0, lo, hi, left, right, lStore, gStore, unpartitioned, pivot, pivotVec, minVec, maxVec,
                multiset(vecLeft) + multiset(vecRight), smallest, biggest);
    }
    p, smallest', biggest' := StoreHeld(arr, key, a0, lo, hi, left, right, lStore, gStore, unpartitioned, pivot,
                                        keepEqual, pivotVec, minVec, maxVec, vecLeft, vecRight, smallest, biggest);
  }

  /** The held-back first and last registers and the range between them make up [lo, hi). */
  lemma {:induction false} HeldBack<E>(a0: seq<E>, lo: int, hi: int)
    requires 0 <= lo && lo + 2 * NUMLANES <= hi <= |a0|
    ensures multiset(a0[lo..hi]) == multiset(a0[lo + NUMLANES..hi - NUMLANES])
      + multiset(a0[lo..lo + NUMLANES]) + multiset(a0[hi - NUMLANES..hi])
  {
    Split(a0, lo, lo + NUMLANES, hi);
    Split(a0, lo + NUMLANES, hi - NUMLANES, hi);
  }

  // ---------------------------------------------------------------------
  // The scalar prologue, then the vector phase

  /**
   * The scalar prologue after some steps: [lo, l) holds elements whose keys
   * stay left, [r, hi) elements with keys at least the pivot, the range is
   * a permutation of the input, and s, b bound the keys examined so far and
   * are each either the initial value or a key of the input range.
   */
  ghost predicate ScalarInv<E>(a: seq<E>, a0: seq<E>, key: E -> int, lo: int, hi: int, l: int, r: int, pivot: int,
                               keepEqual: bool, s0: int, b0: int, s: int, b: int)
  {
    0 <= lo <= l <= r <= hi <= |a| == |a0|
    && Same(a, a0, 0, lo) && Same(a, a0, hi, |a|)
    && multiset(a[lo..hi]) == multiset(a0[lo..hi])
    && (forall k :: lo <= k < l ==> Low(key(a[k]), pivot, keepEqual))
    && (forall k :: r <= k < hi ==> key(a[k]) >= pivot)
    && s <= s0 && b0 <= b
    && (forall k :: lo <= k < l ==> s <= key(a[k]) <= b)
    && (forall k :: r <= k < hi ==> s <= key(a[k]) <= b)
    && (s == s0 || s in Keys(a0[lo..hi], key)) && (b == b0 || b in Keys(a0[lo..hi], key))
  }

  /** Exchanging two elements of a range keeps its elements. */
  lemma {:induction false} SwapMultiset<E>(a: seq<E>, lo: int, hi: int, i: int, j: int)
    requires 0 <= lo <= i <= j < hi <= |a|
    ensures multiset(a[i := a[j]][j := a[i]][lo..hi]) == multiset(a[lo..hi])
  {
    var s := a[lo..hi];
    var x, y := i - lo, j - lo;
    assert a[i := a[j]][j := a[i]][lo..hi] == s[x := s[y]][y := s[x]];
    SwapWhole(s, x, y);
  }

  /** Exchanging two elements keeps the elements. */
  lemma {:induction false} SwapWhole<E>(s: seq<E>, x: int, y: int)
    requires 0 <= x <= y < |s|
    ensures multiset(s[x := s[y]][y := s[x]]) == multiset(s)
  {
    var t := s[x := s[y]];
    assert multiset(t) == multiset(s) - multiset{s[x]} + multiset{s[y]};
    assert t[y] == s[y];
    assert multiset(t[y := s[x]]) == multiset(t) - multiset{s[y]} + multiset{s[x]};
  }

  /** The key of a[l] is recorded in the running minimum and maximum and is a key of the input range. */
  lemma {:induction false} ScalarSeen<E>(A: seq<E>, a0: seq<E>, key: E -> int, lo: int, hi: int, l: int, r: int,
                                         pivot: int, keepEqual: bool, s0: int, b0: int, s: int, b: int,
                                         s': int, b': int)
    requires ScalarInv(A, a0, key, lo, hi, l, r, pivot, keepEqual, s0, b0, s, b) && l < r
    requires s' == Min(s, key(A[l])) && b' == Max(b, key(A[l]))
    ensures s' <= s0 && b0 <= b' && s' <= key(A[l]) <= b'
    ensures (s' == s0 || s' in Keys(a0[lo..hi], key)) && (b' == b0 || b' in Keys(a0[lo..hi], key))
  {
    assert key(A[l]) in Keys(a0[lo..hi], key) by {
      assert Keys(A[lo..hi], key)[l - lo] == key(A[l]);
      KeyIn(A[lo..hi], a0[lo..hi], key, key(A[l]));
    }
  }

  /** A prologue step on an element that stays left: it joins the left part. */
  lemma {:induction false} ScalarKeep<E>(A: seq<E>, a0: seq<E>, key: E -> int, lo: int, hi: int, l: int, r: int,
                                         pivot: int, keepEqual: bool, s0: int, b0: int, s: int, b: int,
                                         s': int, b': int)
    requires ScalarInv(A, a0, key, lo, hi, l, r, pivot, keepEqual, s0, b0, s, b) && l < r
    requires Low(key(A[l]), pivot, keepEqual)
    requires s' == Min(s, key(A[l])) && b' == Max(b, key(A[l]))
    ensures ScalarInv(A, a0, key, lo, hi, l + 1, r, pivot, keepEqual, s0, b0, s', b')
  {
    ScalarSeen(A, a0, key, lo, hi, l, r, pivot, keepEqual, s0, b0, s, b, s', b');
  }

  /** A prologue step on an element that goes right: it is exchanged with the last unexamined one. */
  lemma {:induction false} ScalarSwap<E>(A: seq<E>, B: seq<E>, a0: seq<E>, key: E -> int, lo: int, hi: int, l: int,
                                         r: int, r': int, pivot: int, keepEqual: bool, s0: int, b0: int,
                                         s: int, b: int, s': int, b': int)
    requires ScalarInv(A, a0, key, lo, hi, l, r, pivot, keepEqual, s0, b0, s, b) && l < r
    requires !Low(key(A[l]), pivot, keepEqual)
    requires s' == Min(s, key(A[l])) && b' == Max(b, key(A[l]))
    requires r' == r - 1 && B == A[l := A[r']][r' := A[l]]
    ensures ScalarInv(B, a0, key, lo, hi, l, r', pivot, keepEqual, s0, b0, s', b')
  {
    ScalarSeen(A, a0, key, lo, hi, l, r, pivot, keepEqual, s0, b0, s, b, s', b');
    SwapMultiset(A, lo, hi, l, r');
    assert B[r'] == A[l];
    forall k | lo <= k < l ensures B[k] == A[k] { }
    forall k | r <= k < hi ensures B[k] == A[k] { }
  }

  /** The number of prologue steps leaves a whole number of registers. */
  lemma {:induction false} PrologueLength(n: int, i: int, m: int)
    requires n >= 0 && i == n % NUMLANES && m == n - i
    ensures m >= 0 && m % NUMLANES == 0
  {
    var q := n / NUMLANES;
    assert n == NUMLANES * q + i;
  }

  /** A prologue that consumed the whole range is a finished partition. */
  lemma {:induction false} ScalarDone<E>(a: seq<E>, a0: seq<E>, key: E -> int, lo: int, hi: int, p: int,
                                         pivot: int, keepEqual: bool, s0: int, b0: int, s: int, b: int)
    requires ScalarInv(a, a0, key, lo, hi, p, p, pivot, keepEqual, s0, b0, s, b)
    ensures Partitioned(a, a0, key, lo, hi, p, pivot, keepEqual)
    ensures Extremes(a[lo..hi], key, s0, b0, s, b)
  {
    assert a[..lo] == a0[..lo];
    assert a[hi..] == a0[hi..];
    forall k | 0 <= k < hi - lo ensures s <= key(a[lo..hi][k]) <= b {
      assert a[lo..hi][k] == a[lo + k];
    }
    if s != s0 {
      KeyIn(a0[lo..hi], a[lo..hi], key, s);
    }
    if b != b0 {
      KeyIn(a0[lo..hi], a[lo..hi], key, b);
    }
  }

  /** A partition of [l, r) leaves everything outside it in place. */
  lemma {:induction false} PartitionedFrame<E>(b: seq<E>, a: seq<E>, key: E -> int, l: int, r: int, p: int,
                                               pivot: int, keepEqual: bool)
    requires Partitioned(b, a, key, l, r, p, pivot, keepEqual)
    ensures Same(b, a, 0, l) && Same(b, a, r, |b|)
  {
    forall k | 0 <= k < l ensures b[k] == a[k] {
      assert b[k] == b[..l][k] && a[k] == a[..l][k];
    }
    forall k | r <= k < |b| ensures b[k] == a[k] {
      assert b[k] == b[r..][k - r] && a[k] == a[r..][k - r];
    }
  }

  /** Agreement on a range carries over through an intermediate sequence. */
  lemma {:induction false} SameChain<E>(c: seq<E>, b: seq<E>, a: seq<E>, l: int, r: int)
    requires Same(c, b, l, r) && Same(b, a, l, r)
    ensures Same(c, a, l, r)
  {
  }

  /** The sequence-level form of agreement on a prefix and a suffix. */
  lemma {:induction false} SameSlices<E>(b: seq<E>, a: seq<E>, lo: int, hi: int)
    requires |a| == |b| && Same(b, a, 0, lo) && Same(b, a, hi, |b|) && lo <= hi
    ensures b[..lo] == a[..lo] && b[hi..] == a[hi..]
  {
  }

  /** The prologue followed by the vector phase on what it left is a partition of the whole range. */
  lemma {:induction false} PrologueThenVectors<E>(A: seq<E>, B: seq<E>, a0: seq<E>, key: E -> int, lo: int, hi: int,
                                                  l: int, r: int, p: int, pivot: int, keepEqual: bool,
                                                  s0: int, b0: int, s: int, b: int, s': int, b': int)
    requires ScalarInv(A, a0, key, lo, hi, l, r, pivot, keepEqual, s0, b0, s, b)
    requires Partitioned(B, A, key, l, r, p, pivot, keepEqual) && Extremes(B[l..r], key, s, b, s', b')
    ensures Partitioned(B, a0, key, lo, hi, p, pivot, keepEqual)
    ensures Extremes(B[lo..hi], key, s0, b0, s', b')
  {
    PartitionedFrame(B, A, key, l, r, p, pivot, keepEqual);
    assert Same(B, A, 0, lo) && Same(B, A, lo, l) && Same(B, A, r, hi) && Same(B, A, hi, |B|);
    SameChain(B, A, a0, 0, lo);
    SameChain(B, A, a0, hi, |B|);
    SameSlices(B, a0, lo, hi);
    assert B[lo..l] == A[lo..l];
    assert B[r..hi] == A[r..hi];
    PrologueMultiset(A, B, lo, l, r, hi);
    PrologueExtremes(A, B, a0, key, lo, hi, l, r, s0, b0, s, b, s', b');
  }

  /** Elements of the three parts: kept on the left, permuted in the middle, kept on the right. */
  lemma {:induction false} PrologueMultiset<E>(A: seq<E>, B: seq<E>, lo: int, l: int, r: int, hi: int)
    requires 0 <= lo <= l <= r <= hi <= |A| == |B|
    requires B[lo..l] == A[lo..l] && B[r..hi] == A[r..hi] && multiset(B[l..r]) == multiset(A[l..r])
    ensures multiset(B[lo..hi]) == multiset(A[lo..hi])
  {
    Split(A, lo, l, hi);
    Split(A, l, r, hi);
    Split(B, lo, l, hi);
    Split(B, l, r, hi);
  }

  /** The bounds found by the prologue and by the vector phase together bound the whole range. */
  lemma {:induction false} PrologueExtremes<E>(A: seq<E>, B: seq<E>, a0: seq<E>, key: E -> int, lo: int, hi: int,
                                               l: int, r: int, s0: int, b0: int, s: int, b: int, s': int, b': int)
    requires 0 <= lo <= l <= r <= hi <= |A| == |B| == |a0|
    requires s <= s0 && b0 <= b && (s == s0 || s in Keys(a0[lo..hi], key)) && (b == b0 || b in Keys(a0[lo..hi], key))
    requires multiset(A[lo..hi]) == multiset(a0[lo..hi])
    requires forall k :: lo <= k < l ==> s <= key(A[k]) <= b
    requires forall k :: r <= k < hi ==> s <= key(A[k]) <= b
    requires Same(B, A, lo, l) && Same(B, A, r, hi) && multiset(B[lo..hi]) == multiset(A[lo..hi])
    requires Extremes(B[l..r], key, s, b, s', b')
    ensures Extremes(B[lo..hi], key, s0, b0, s', b')
  {
    forall k | 0 <= k < hi - lo ensures s' <= key(B[lo..hi][k]) <= b' {
      var j := lo + k;
      assert B[lo..hi][k] == B[j];
      if l <= j < r {
        assert B[j] == B[l..r][j - l];
      }
    }
    if s' != s0 {
      if s' == s {
        KeyIn(a0[lo..hi], B[lo..hi], key, s');
      } else {
        KeyInSub(B, key, lo, l, r, hi, s');
      }
    }
    if b' != b0 {
      if b' == b {
        KeyIn(a0[lo..hi], B[lo..hi], key, b');
      } else {
        KeyInSub(B, key, lo, l, r, hi, b');
      }
    }
  }

  /**
   * One step of the prologue: the key of arr[left] is folded into the
   * running minimum and maximum; if it stays left, left moves past it,
   * otherwise it is exchanged with arr[--right]. kvpartition sends a key
   * right when it is greater than the pivot, argpartition when it is not
   * less than the pivot.
   */
  method PrologueStep<E>(arr: array<E>, key: E -> int, ghost a0: seq<E>, lo: int, hi: int, l: int, r: int,
                         pivot: int, keepEqual: bool, ghost s0: int, ghost b0: int, s: int, b: int)
    returns (l': int, r': int, s': int, b': int)
    requires ScalarInv(arr[..], a0, key, lo, hi, l, r, pivot, keepEqual, s0, b0, s, b) && l < r
    modifies arr
    ensures ScalarInv(arr[..], a0, key, lo, hi, l', r', pivot, keepEqual, s0, b0, s', b') && r' - l' == r - l - 1
  {
    ghost var A := arr[..];
    var x := key(arr[l]);
    s' := Min(s, x);
    b' := Max(b, x);
    l', r' := l, r;
    if (if keepEqual then x > pivot else !(x < pivot)) {
      r' := r - 1;
      arr[l], arr[r'] := arr[r'], arr[l];
      assert arr[..] == A[l := A[r']][r' := A[l]];
      ScalarSwap(A, arr[..], a0, key, lo, hi, l, r, r', pivot, keepEqual, s0, b0, s, b, s', b');
    } else {
      l' := l + 1;
      ScalarKeep(A, a0, key, lo, hi, l, r, pivot, keepEqual, s0, b0, s, b, s', b');
    }
  }

  /**
   * kvpartition / argpartition: the range [left, right) is shortened to a
   * multiple of numlanes by the scalar prologue, and the rest goes through
   * the vector phase. The result is the index of the first element of the
   * right part; the keys before it stay left (below the pivot, or equal to
   * it when keepEqual), the keys from it on are at least the pivot.
   */
  method Partition<E(==)>(arr: array<E>, key: E -> int, left: int, right: int, pivot: int, keepEqual: bool,
                      smallest: int, biggest: int)
    returns (p: int, smallest': int, biggest': int)
    requires 0 <= left <= right <= arr.Length
    modifies arr
    ensures Partitioned(arr[..], old(arr[..]), key, left, right, p, pivot, keepEqual)
    ensures Extremes(arr[left..right], key, smallest, biggest, smallest', biggest')
  {
    ghost var a0 := arr[..];
    var l, r := left, right;
    smallest', biggest' := smallest, biggest;
    var i := (r - l) % NUMLANES;
    ghost var m := (right - left) - i;
    while i > 0
      invariant ScalarInv(arr[..], a0, key, left, right, l, r, pivot, keepEqual, smallest, biggest,
                          smallest', biggest')
      invariant 0 <= i && r - l == m + i
      decreases i
    {
      l, r, smallest', biggest' := PrologueStep(arr, key, a0, left, right, l, r, pivot, keepEqual, smallest,
                                                biggest, smallest', biggest');
      i := i - 1;
    }
    PrologueLength(right - left, (right - left) % NUMLANES, m);
    if l == r {
      ScalarDone(arr[..], a0, key, left, right, l, pivot, keepEqual, smallest, biggest, smallest', biggest');
      p := l;
      return;
    }
    ghost var A := arr[..];
    var s1, b1 := smallest', biggest';
    p, smallest', biggest' := PartitionVectors(arr, key, l, r, pivot, keepEqual, s1, b1);
    PrologueThenVectors(A, arr[..], a0, key, left, right, l, r, p, pivot, keepEqual, smallest, biggest, s1, b1,
                        smallest', biggest');
  }
}
