/**
 * The lookup tables avx2-emu-funcs.hpp builds to emulate AVX-512 mask
 * registers and compress-stores on AVX2, and the double compress-store
 * the AVX2 partition uses. An AVX2 mask register is a vector whose lanes
 * are all-ones (-1 as a signed lane) or zero; an integer mask has bit j
 * for lane j. Lane widths: the 32-bit tables have 8 lanes (4 for the
 * half-width variant), the 64-bit ones 4.
 */
module Avx2Emu {
  import opened Simd
  import Levels
  import Partition

  /** An all-ones lane: 0xFFFFFFFF in an int32_t, 0xFFFFFFFFFFFFFFFF in an int64_t. */
  const ALL_ONES: int := -1

  /** (i >> j) & 1 == 1: j halvings of i leave an odd number. */
  function Bit(i: nat, j: nat): bool
  {
    if j == 0 then i % 2 == 1 else Bit(i / 2, j - 1)
  }

  /** Lane j of the integer mask's lane view is bit j. */
  lemma {:induction false} BitsLane(i: nat, w: nat, j: nat)
    requires j < w
    ensures Bits(i, w)[j] == Bit(i, j)
    decreases j
  {
    if j > 0 {
      BitsLane(i / 2, w - 1, j - 1);
    }
  }

  // ---------------------------------------------------------------------
  // Mask tables: avx2_mask_helper_lut32 / lut64 / lut32_half

  /** Row i of a mask table with w lanes. */
  function MaskRow(i: nat, w: nat): (r: seq<int>)
    ensures |r| == w
  {
    seq(w, j requires 0 <= j < w => if Bit(i, j) then ALL_ONES else 0)
  }

  /**
   * The table builder: for every mask value i < 2^w, lane j of entry i is
   * all-ones when bit j of i is set and zero otherwise. The three mask
   * tables are this builder with w = 8 (lut32), and w = 4 (lut64 and
   * lut32_half, whose lanes differ only in width).
   */
  method BuildMaskLut(w: nat) returns (lut: seq<seq<int>>)
    ensures |lut| == Levels.Pow2(w)
    ensures forall i :: 0 <= i < |lut| ==> |lut[i]| == w
    ensures forall i, j :: 0 <= i < |lut| && 0 <= j < w ==> (lut[i][j] == ALL_ONES <==> Bit(i, j))
    ensures forall i, j :: 0 <= i < |lut| && 0 <= j < w ==> (lut[i][j] == 0 <==> !Bit(i, j))
  {
    var count := Levels.Pow2(w);
    var table := new seq<int>[count];
    var i := 0;
    while i < count
      invariant 0 <= i <= count
      invariant forall k :: 0 <= k < i ==> table[k] == MaskRow(k, w)
    {
      var entry := MaskEntry(i, w);
      table[i] := entry;
      i := i + 1;
    }
    lut := table[..];
  }

  /** The builder's inner loop: entry i, lane by lane. */
  method MaskEntry(i: nat, w: nat) returns (row: seq<int>)
    ensures row == MaskRow(i, w)
  {
    var entry := new int[w];
    var j := 0;
    while j < w
      invariant 0 <= j <= w
      invariant forall t :: 0 <= t < j ==> entry[t] == MaskRow(i, w)[t]
    {
      if Bit(i, j) {
        entry[j] := ALL_ONES;
      } else {
        entry[j] := 0;
      }
      j := j + 1;
    }
    row := entry[..];
  }

  /** _mm256_movemask_ps / _pd: bit j is the sign of lane j. */
  function MoveMask(e: seq<int>): (r: nat)
  {
    if |e| == 0 then 0 else (if e[0] < 0 then 1 else 0) + 2 * MoveMask(e[1..])
  }

  /** The lanes of a mask register, read as selection flags. */
  function Selected(e: seq<int>): (m: Mask)
    ensures |m| == |e|
  {
    seq(|e|, j requires 0 <= j < |e| => e[j] < 0)
  }

  /** A valid AVX2 mask register: every lane all-ones or zero. */
  predicate IsMaskReg(e: seq<int>)
  {
    forall j :: 0 <= j < |e| ==> e[j] == ALL_ONES || e[j] == 0
  }

  /** convert_avx2_mask_to_int(convert_int_to_avx2_mask(m)) == m for every m < 2^w. */
  lemma {:induction false} MaskRowRoundTrip(i: nat, w: nat)
    requires i < Levels.Pow2(w)
    ensures MoveMask(MaskRow(i, w)) == i
    decreases w
  {
    if w > 0 {
      var r := MaskRow(i, w);
      assert r[1..] == MaskRow(i / 2, w - 1);
      MaskRowRoundTrip(i / 2, w - 1);
    }
  }

  /** convert_int_to_avx2_mask(convert_avx2_mask_to_int(e)) == e for every valid mask register. */
  lemma {:induction false} MoveMaskRoundTrip(e: seq<int>)
    requires IsMaskReg(e)
    ensures MoveMask(e) < Levels.Pow2(|e|)
    ensures MaskRow(MoveMask(e), |e|) == e
    decreases |e|
  {
    if |e| > 0 {
      MoveMaskRoundTrip(e[1..]);
      var r := MaskRow(MoveMask(e), |e|);
      forall j | 0 <= j < |e| ensures r[j] == e[j] {
        if j > 0 {
          assert Bit(MoveMask(e), j) == Bit(MoveMask(e[1..]), j - 1);
          assert MaskRow(MoveMask(e[1..]), |e| - 1)[j - 1] == e[j];
        }
      }
    }
  }

  /** The lanes selected by the integer mask of a valid mask register are its all-ones lanes. */
  lemma {:induction false} MoveMaskBits(e: seq<int>)
    requires IsMaskReg(e)
    ensures Bits(MoveMask(e), |e|) == Selected(e)
  {
    MoveMaskRoundTrip(e);
    var M := MoveMask(e);
    forall j | 0 <= j < |e| ensures Bits(M, |e|)[j] == Selected(e)[j] {
      BitsLane(M, |e|, j);
      assert MaskRow(M, |e|)[j] == e[j];
      assert MaskRow(M, |e|)[j] == if Bit(M, j) then ALL_ONES else 0;
    }
  }

  // ---------------------------------------------------------------------
  // Compress-store tables: avx2_compressstore_lut32_gen / lut32_half_gen

  /** The lanes below j whose bit is clear, in increasing order. */
  function ClearLanes(i: nat, j: nat): (r: seq<int>)
    ensures |r| <= j
  {
    if j == 0 then [] else ClearLanes(i, j - 1) + (if Bit(i, j - 1) then [] else [j - 1])
  }

  /** The lanes below j whose bit is set, in increasing order. */
  function SetLanes(i: nat, j: nat): (r: seq<int>)
    ensures |r| <= j
  {
    if j == 0 then [] else SetLanes(i, j - 1) + (if Bit(i, j - 1) then [j - 1] else [])
  }

  /** Row i of the permutation table: clear-bit lanes first, then the set-bit lanes from the top down. */
  function PermRow(i: nat, w: nat): (r: seq<int>)
    ensures |r| == w
    ensures forall a :: 0 <= a < w ==> 0 <= r[a] < w
  {
    LanesCount(i, w);
    ClearLanesOrdered(i, w);
    SetLanesOrdered(i, w);
    ClearLanes(i, w) + Rev(SetLanes(i, w))
  }

  /** Row i of the left table: all-ones in the first w - popcount(i) lanes. */
  function LeftRow(i: nat, w: nat): (r: seq<int>)
    ensures |r| == w
  {
    seq(w, t requires 0 <= t < w => if t < w - Popcount(Bits(i, w)) then ALL_ONES else 0)
  }

  /** Every lane below j is either clear or set. */
  lemma {:induction false} LanesCount(i: nat, j: nat)
    ensures |ClearLanes(i, j)| + |SetLanes(i, j)| == j
    ensures |SetLanes(i, j)| == Popcount(Bits(i, j))
    ensures |ClearLanes(i, j)| == j - Popcount(Bits(i, j))
    decreases j
  {
    if j > 0 {
      LanesCount(i, j - 1);
      var m := Bits(i, j);
      PopcountSnoc(m, j - 1);
      assert m[..j] == m;
      assert m[..j - 1] == Bits(i, j - 1) by {
        forall t | 0 <= t < j - 1 ensures m[t] == Bits(i, j - 1)[t] {
          BitsLane(i, j, t);
          BitsLane(i, j - 1, t);
        }
      }
      BitsLane(i, j, j - 1);
    }
  }

  /** Popcount grows by the last lane. */
  lemma {:induction false} PopcountSnoc(m: Mask, n: nat)
    requires n < |m|
    ensures Popcount(m[..n + 1]) == Popcount(m[..n]) + (if m[n] then 1 else 0)
    decreases n
  {
    if n > 0 {
      PopcountSnoc(m[1..], n - 1);
      assert m[..n + 1][1..] == m[1..][..n];
      assert m[..n][1..] == m[1..][..n - 1];
    }
  }

  /** Membership and order of the clear-bit lanes. */
  lemma {:induction false} ClearLanesOrdered(i: nat, j: nat)
    ensures forall a :: 0 <= a < |ClearLanes(i, j)| ==> 0 <= ClearLanes(i, j)[a] < j && !Bit(i, ClearLanes(i, j)[a])
    ensures forall a, b :: 0 <= a < b < |ClearLanes(i, j)| ==> ClearLanes(i, j)[a] < ClearLanes(i, j)[b]
    decreases j
  {
    if j > 0 {
      ClearLanesOrdered(i, j - 1);
    }
  }

  /** Membership and order of the set-bit lanes. */
  lemma {:induction false} SetLanesOrdered(i: nat, j: nat)
    ensures forall a :: 0 <= a < |SetLanes(i, j)| ==> 0 <= SetLanes(i, j)[a] < j && Bit(i, SetLanes(i, j)[a])
    ensures forall a, b :: 0 <= a < b < |SetLanes(i, j)| ==> SetLanes(i, j)[a] < SetLanes(i, j)[b]
    decreases j
  {
    if j > 0 {
      SetLanesOrdered(i, j - 1);
    }
  }

  /**
   * A row lists the clear-bit lanes first, in increasing order, then the
   * set-bit lanes in decreasing order; the first w - popcount(i) entries
   * are exactly the clear-bit lanes.
   */
  lemma {:induction false} PermRowOrder(i: nat, w: nat)
    ensures Popcount(Bits(i, w)) <= w
    ensures forall a :: 0 <= a < w ==> (!Bit(i, PermRow(i, w)[a]) <==> a < w - Popcount(Bits(i, w)))
    ensures forall a, b :: 0 <= a < b < w - Popcount(Bits(i, w)) ==> PermRow(i, w)[a] < PermRow(i, w)[b]
    ensures forall a, b :: w - Popcount(Bits(i, w)) <= a < b < w ==> PermRow(i, w)[a] > PermRow(i, w)[b]
  {
    LanesCount(i, w);
    ClearLanesOrdered(i, w);
    SetLanesOrdered(i, w);
    var C, S := ClearLanes(i, w), SetLanes(i, w);
    var P := PermRow(i, w);
    forall a | |C| <= a < w ensures P[a] == S[w - 1 - a] {
      assert P[a] == Rev(S)[a - |C|];
    }
  }

  /**
   * Each row of the permutation table is a permutation of the lanes
   * 0 .. w - 1: w entries, each a lane, no lane twice.
   */
  lemma {:induction false} PermRowIsPermutation(i: nat, w: nat)
    ensures forall a, b :: 0 <= a < b < w ==> PermRow(i, w)[a] != PermRow(i, w)[b]
  {
    PermRowOrder(i, w);
  }

  /**
   * avx2_compressstore_lut32_gen (w = 8) and avx2_compressstore_lut32_half_gen
   * (w = 4): the permutation table and the left table.
   */
  method BuildCompressLut(w: nat) returns (permLut: seq<seq<int>>, leftLut: seq<seq<int>>)
    ensures |permLut| == |leftLut| == Levels.Pow2(w)
    ensures forall i :: 0 <= i < |permLut| ==> permLut[i] == PermRow(i, w) && leftLut[i] == LeftRow(i, w)
  {
    var count := Levels.Pow2(w);
    var perms := new seq<int>[count];
    var lefts := new seq<int>[count];
    var i := 0;
    while i < count
      invariant 0 <= i <= count
      invariant forall k :: 0 <= k < i ==> perms[k] == PermRow(k, w) && lefts[k] == LeftRow(k, w)
    {
      var p, l := CompressRow(i, w);
      perms[i], lefts[i] := p, l;
      i := i + 1;
    }
    permLut, leftLut := perms[..], lefts[..];
  }

  /** A left-table entry whose first n lanes are all-ones. */
  function LeftPrefix(n: int, w: nat): (r: seq<int>)
    ensures |r| == w
  {
    seq(w, t requires 0 <= t < w => if t < n then ALL_ONES else 0)
  }

  /**
   * The state of a row being built: the clear-bit lanes C found so far
   * fill indices[..left], the set-bit lanes S fill indices[right + 1..]
   * from the top down.
   */
  ghost predicate RowState(I: seq<int>, left: int, right: int, C: seq<int>, S: seq<int>)
  {
    left == |C| && right == |I| - 1 - |S| && left <= right + 1 &&
    I[..left] == C && I[right + 1..] == Rev(S)
  }

  /** A set bit goes to indices[right]. */
  lemma {:induction false} RowStateSet(I: seq<int>, left: int, right: int, C: seq<int>, S: seq<int>, x: int)
    requires RowState(I, left, right, C, S) && left <= right
    ensures RowState(I[right := x], left, right - 1, C, S + [x])
  {
    var I' := I[right := x];
    assert I'[..left] == I[..left];
    assert I'[right..] == [x] + I[right + 1..];
    assert Rev(S + [x]) == [x] + Rev(S);
  }

  /** A clear bit goes to indices[left]. */
  lemma {:induction false} RowStateClear(I: seq<int>, left: int, right: int, C: seq<int>, S: seq<int>, x: int)
    requires RowState(I, left, right, C, S) && left <= right
    ensures RowState(I[left := x], left + 1, right, C + [x], S)
  {
    var I' := I[left := x];
    assert I'[..left + 1] == I[..left] + [x];
    assert I'[right + 1..] == I[right + 1..];
  }

  /** A finished row is the clear lanes followed by the reversed set lanes. */
  lemma {:induction false} RowStateDone(I: seq<int>, left: int, right: int, C: seq<int>, S: seq<int>)
    requires RowState(I, left, right, C, S) && left == right + 1
    ensures I == C + Rev(S)
  {
    assert I == I[..left] + I[right + 1..];
  }

  /** The lanes below j + 1 are those below j and possibly lane j. */
  lemma LanesNext(i: nat, j: nat)
    ensures ClearLanes(i, j + 1) == ClearLanes(i, j) + (if Bit(i, j) then [] else [j])
    ensures SetLanes(i, j + 1) == SetLanes(i, j) + (if Bit(i, j) then [j] else [])
  {
  }

  /** One step of the builder's inner loop, on lane j. */
  lemma {:induction false} RowStep(I: seq<int>, left: int, right: int, i: nat, j: nat)
    requires j < |I| && RowState(I, left, right, ClearLanes(i, j), SetLanes(i, j))
    ensures Bit(i, j) ==> RowState(I[right := j], left, right - 1, ClearLanes(i, j + 1), SetLanes(i, j + 1))
    ensures !Bit(i, j) ==> RowState(I[left := j], left + 1, right, ClearLanes(i, j + 1), SetLanes(i, j + 1))
  {
    LanesCount(i, j);
    LanesNext(i, j);
    if Bit(i, j) {
      RowStateSet(I, left, right, ClearLanes(i, j), SetLanes(i, j), j);
    } else {
      RowStateClear(I, left, right, ClearLanes(i, j), SetLanes(i, j), j);
    }
  }

  /** The body of the builder's outer loop for one mask value i. */
  method CompressRow(i: nat, w: nat) returns (indices: seq<int>, leftEntry: seq<int>)
    ensures indices == PermRow(i, w) && leftEntry == LeftRow(i, w)
  {
    indices := seq(w, t => 0);
    leftEntry := LeftPrefix(0, w);
    var right := w - 1;
    var left := 0;
    var j := 0;
    while j < w
      invariant 0 <= j <= w && |indices| == w
      invariant RowState(indices, left, right, ClearLanes(i, j), SetLanes(i, j))
      invariant leftEntry == LeftPrefix(left, w)
    {
      RowStep(indices, left, right, i, j);
      if Bit(i, j) {
        indices := indices[right := j];
        right := right - 1;
      } else {
        indices := indices[left := j];
        leftEntry := leftEntry[left := ALL_ONES];
        left := left + 1;
      }
      j := j + 1;
    }
    LanesCount(i, w);
    RowStateDone(indices, left, right, ClearLanes(i, w), SetLanes(i, w));
  }

  // ---------------------------------------------------------------------
  // The 64-bit table: avx2_compressstore_lut64_gen

  /** Each 64-bit lane index j becomes the two 32-bit lane indices 2j and 2j + 1. */
  function Expand(s: seq<int>): (r: seq<int>)
    ensures |r| == 2 * |s|
  {
    seq(2 * |s|, t requires 0 <= t < 2 * |s| => 2 * s[t / 2] + t % 2)
  }

  lemma {:induction false} ExpandConcat(a: seq<int>, b: seq<int>)
    ensures Expand(a + b) == Expand(a) + Expand(b)
  {
    var L, R := Expand(a + b), Expand(a) + Expand(b);
    forall t | 0 <= t < |L| ensures L[t] == R[t] {
      if t >= 2 * |a| {
        assert (t - 2 * |a|) / 2 == t / 2 - |a|;
      }
    }
  }

  /** The state of a 64-bit row being built, in 32-bit index pairs. */
  ghost predicate Row64State(I: seq<int>, left: int, right: int, C: seq<int>, S: seq<int>)
  {
    |I| == 8 && left == 2 * |C| && right == 7 - 2 * |S| && left <= right + 1 &&
    I[..left] == Expand(C) && I[right + 1..] == Expand(Rev(S))
  }

  /** A set bit puts the pair 2j, 2j + 1 at indices[right - 1], indices[right]. */
  lemma {:induction false} Row64StateSet(I: seq<int>, left: int, right: int, C: seq<int>, S: seq<int>, j: int)
    requires Row64State(I, left, right, C, S) && left + 1 <= right
    ensures Row64State(I[right := 2 * j + 1][right - 1 := 2 * j], left, right - 2, C, S + [j])
  {
    var I' := I[right := 2 * j + 1][right - 1 := 2 * j];
    assert I'[..left] == I[..left];
    assert I'[right - 1..] == [2 * j, 2 * j + 1] + I[right + 1..];
    assert Rev(S + [j]) == [j] + Rev(S);
    ExpandConcat([j], Rev(S));
    assert Expand([j]) == [2 * j, 2 * j + 1];
  }

  /** A clear bit puts the pair 2j, 2j + 1 at indices[left], indices[left + 1]. */
  lemma {:induction false} Row64StateClear(I: seq<int>, left: int, right: int, C: seq<int>, S: seq<int>, j: int)
    requires Row64State(I, left, right, C, S) && left + 1 <= right
    ensures Row64State(I[left + 1 := 2 * j + 1][left := 2 * j], left + 2, right, C + [j], S)
  {
    var I' := I[left + 1 := 2 * j + 1][left := 2 * j];
    assert I'[..left + 2] == I[..left] + [2 * j, 2 * j + 1];
    assert I'[right + 1..] == I[right + 1..];
    ExpandConcat(C, [j]);
    assert Expand([j]) == [2 * j, 2 * j + 1];
  }

  /** A finished 64-bit row is the expanded clear lanes followed by the expanded reversed set lanes. */
  lemma {:induction false} Row64StateDone(I: seq<int>, left: int, right: int, C: seq<int>, S: seq<int>)
    requires Row64State(I, left, right, C, S) && left == right + 1
    ensures I == Expand(C + Rev(S))
  {
    assert I == I[..left] + I[right + 1..];
    ExpandConcat(C, Rev(S));
  }

  /**
   * The 64-bit builder: an 8-entry 32-bit permutation row and a 4-entry
   * left row for each 4-bit mask.
   */
  method BuildCompressLut64() returns (permLut: seq<seq<int>>, leftLut: seq<seq<int>>)
    ensures |permLut| == |leftLut| == 16
    ensures forall i :: 0 <= i < 16 ==> permLut[i] == Expand(PermRow(i, 4)) && leftLut[i] == LeftRow(i, 4)
  {
    var perms := new seq<int>[16];
    var lefts := new seq<int>[16];
    var i := 0;
    while i < 16
      invariant 0 <= i <= 16
      invariant forall k :: 0 <= k < i ==> perms[k] == Expand(PermRow(k, 4)) && lefts[k] == LeftRow(k, 4)
    {
      var p, l := CompressRow64(i);
      perms[i], lefts[i] := p, l;
      i := i + 1;
    }
    permLut, leftLut := perms[..], lefts[..];
  }

  /** One step of the 64-bit builder's inner loop, on lane j. */
  lemma {:induction false} Row64Step(I: seq<int>, left: int, right: int, i: nat, j: nat)
    requires j < 4 && Row64State(I, left, right, ClearLanes(i, j), SetLanes(i, j))
    ensures Bit(i, j) ==> Row64State(I[right := 2 * j + 1][right - 1 := 2 * j], left, right - 2, ClearLanes(i, j + 1), SetLanes(i, j + 1))
    ensures !Bit(i, j) ==> Row64State(I[left + 1 := 2 * j + 1][left := 2 * j], left + 2, right, ClearLanes(i, j + 1), SetLanes(i, j + 1))
  {
    LanesCount(i, j);
    LanesNext(i, j);
    if Bit(i, j) {
      Row64StateSet(I, left, right, ClearLanes(i, j), SetLanes(i, j), j);
    } else {
      Row64StateClear(I, left, right, ClearLanes(i, j), SetLanes(i, j), j);
    }
  }

  /** The body of the 64-bit builder's outer loop for one mask value i. */
  method CompressRow64(i: nat) returns (indices: seq<int>, leftEntry: seq<int>)
    ensures indices == Expand(PermRow(i, 4)) && leftEntry == LeftRow(i, 4)
  {
    indices := seq(8, t => 0);
    leftEntry := LeftPrefix(0, 4);
    var right := 7;
    var left := 0;
    var j := 0;
    while j < 4
      invariant 0 <= j <= 4
      invariant Row64State(indices, left, right, ClearLanes(i, j), SetLanes(i, j))
      invariant leftEntry == LeftPrefix(left / 2, 4)
    {
      Row64Step(indices, left, right, i, j);
      if Bit(i, j) {
        indices := indices[right := 2 * j + 1];
        indices := indices[right - 1 := 2 * j];
        right := right - 2;
      } else {
        indices := indices[left + 1 := 2 * j + 1];
        indices := indices[left := 2 * j];
        leftEntry := leftEntry[left / 2 := ALL_ONES];
        left := left + 2;
      }
      j := j + 1;
    }
    LanesCount(i, 4);
    Row64StateDone(indices, left, right, ClearLanes(i, 4), SetLanes(i, 4));
  }

  // ---------------------------------------------------------------------
  // What the tables compute

  /** permutexvar: lane t of the result is lane idx[t] of v. */
  function Permute<T>(v: seq<T>, idx: seq<int>): (r: seq<T>)
    requires forall t :: 0 <= t < |idx| ==> 0 <= idx[t] < |v|
    ensures |r| == |idx|
  {
    seq(|idx|, t requires 0 <= t < |idx| => v[idx[t]])
  }

  /** Compress over a growing prefix. */
  lemma {:induction false} CompressSnoc(v: Reg, m: Mask, n: nat)
    requires |v| == |m| && n < |v|
    ensures Compress(v[..n + 1], m[..n + 1]) == Compress(v[..n], m[..n]) + (if m[n] then [v[n]] else [])
    decreases n
  {
    if n > 0 {
      CompressSnoc(v[1..], m[1..], n - 1);
      assert v[..n + 1][1..] == v[1..][..n] && m[..n + 1][1..] == m[1..][..n];
      assert v[..n][1..] == v[1..][..n - 1] && m[..n][1..] == m[1..][..n - 1];
    }
  }

  /** permutexvar with an index list longer by one. */
  lemma {:induction false} PermuteSnoc(v: Reg, P: seq<int>, x: int)
    requires (forall t :: 0 <= t < |P| ==> 0 <= P[t] < |v|) && 0 <= x < |v|
    ensures Permute(v, P + [x]) == Permute(v, P) + [v[x]]
  {
  }

  /** Gathering the clear-bit lanes below j is the compress by the complement of the mask over the first j lanes. */
  lemma {:induction false} GatherClear(v: Reg, i: nat, j: nat)
    requires j <= |v|
    ensures ClearLanesIn(i, j, |v|)
    ensures Permute(v, ClearLanes(i, j)) == Compress(v[..j], KNot(Bits(i, |v|))[..j])
    decreases j
  {
    ClearLanesOrdered(i, j);
    if j > 0 {
      GatherClear(v, i, j - 1);
      LanesNext(i, j - 1);
      BitsLane(i, |v|, j - 1);
      CompressSnoc(v, KNot(Bits(i, |v|)), j - 1);
      if !Bit(i, j - 1) {
        PermuteSnoc(v, ClearLanes(i, j - 1), j - 1);
      }
    }
  }

  /** Gathering the set-bit lanes below j is the compress by the mask over the first j lanes. */
  lemma {:induction false} GatherSet(v: Reg, i: nat, j: nat)
    requires j <= |v|
    ensures SetLanesIn(i, j, |v|)
    ensures Permute(v, SetLanes(i, j)) == Compress(v[..j], Bits(i, |v|)[..j])
    decreases j
  {
    SetLanesOrdered(i, j);
    if j > 0 {
      GatherSet(v, i, j - 1);
      LanesNext(i, j - 1);
      BitsLane(i, |v|, j - 1);
      CompressSnoc(v, Bits(i, |v|), j - 1);
      if Bit(i, j - 1) {
        PermuteSnoc(v, SetLanes(i, j - 1), j - 1);
      }
    }
  }

  predicate ClearLanesIn(i: nat, j: nat, n: nat)
  {
    forall t :: 0 <= t < |ClearLanes(i, j)| ==> 0 <= ClearLanes(i, j)[t] < n
  }

  predicate SetLanesIn(i: nat, j: nat, n: nat)
  {
    forall t :: 0 <= t < |SetLanes(i, j)| ==> 0 <= SetLanes(i, j)[t] < n
  }

  /** Permuting by a concatenation of index lists, the second reversed. */
  lemma {:induction false} PermuteSplit(v: Reg, C: seq<int>, S: seq<int>)
    requires (forall t :: 0 <= t < |C| ==> 0 <= C[t] < |v|) && (forall t :: 0 <= t < |S| ==> 0 <= S[t] < |v|)
    ensures Permute(v, C + Rev(S)) == Permute(v, C) + Rev(Permute(v, S))
  {
    var L, R := Permute(v, C + Rev(S)), Permute(v, C) + Rev(Permute(v, S));
    forall t | 0 <= t < |L| ensures L[t] == R[t] {
      if t >= |C| {
        assert (C + Rev(S))[t] == S[|S| - 1 - (t - |C|)];
      }
    }
  }

  /**
   * Permuting a register by row i of the table puts the lanes whose mask
   * bit is clear first, in lane order (the AVX-512 compress of the
   * complement), and the lanes whose bit is set last, in reverse lane order.
   */
  lemma {:induction false} PermRowCompress(v: Reg, i: nat)
    ensures Permute(v, PermRow(i, |v|)) == Compress(v, KNot(Bits(i, |v|))) + Rev(Compress(v, Bits(i, |v|)))
  {
    var w := |v|;
    GatherClear(v, i, w);
    GatherSet(v, i, w);
    assert v[..w] == v && KNot(Bits(i, w))[..w] == KNot(Bits(i, w)) && Bits(i, w)[..w] == Bits(i, w);
    PermuteSplit(v, ClearLanes(i, w), SetLanes(i, w));
  }

  // ---------------------------------------------------------------------
  // 64-bit lanes moved as pairs of 32-bit halves

  /** One 32-bit half of a 64-bit lane value. */
  datatype Half32 = Half32(lane: int, high: bool)

  /** A 64-bit register seen as twice as many 32-bit lanes, low half first. */
  function Split(v: Reg): (h: seq<Half32>)
    ensures |h| == 2 * |v|
  {
    seq(2 * |v|, t requires 0 <= t < 2 * |v| => Half32(v[t / 2], t % 2 == 1))
  }

  /** Consecutive halves belong to one 64-bit lane, low half first. */
  predicate Joinable(h: seq<Half32>)
  {
    |h| % 2 == 0 && forall t :: 0 <= t < |h| / 2 ==> h[2 * t] == Half32(h[2 * t].lane, false) && h[2 * t + 1] == Half32(h[2 * t].lane, true)
  }

  /** The 64-bit register made of the halves h. */
  function Join(h: seq<Half32>): (v: Reg)
    requires Joinable(h)
    ensures |v| == |h| / 2
  {
    seq(|h| / 2, t requires 0 <= t < |h| / 2 => h[2 * t].lane)
  }

  /** Splitting and joining again gives the register back. */
  lemma {:induction false} JoinSplit(v: Reg)
    ensures Joinable(Split(v)) && Join(Split(v)) == v
  {
    var h := Split(v);
    forall t | 0 <= t < |v| ensures h[2 * t] == Half32(v[t], false) && h[2 * t + 1] == Half32(v[t], true) {
      DivPair(t);
    }
  }

  lemma DivPair(x: int)
    ensures (2 * x) / 2 == x && (2 * x) % 2 == 0 && (2 * x + 1) / 2 == x && (2 * x + 1) % 2 == 1
  {
  }

  /**
   * _mm256_permutevar8x32_epi32 by an expanded row moves whole 64-bit
   * lanes: permuting the halves by Expand(P) is permuting the 64-bit
   * lanes by P.
   */
  lemma {:induction false} ExpandPermute(v: Reg, P: seq<int>)
    requires forall t :: 0 <= t < |P| ==> 0 <= P[t] < |v|
    ensures forall t :: 0 <= t < 2 * |P| ==> 0 <= Expand(P)[t] < 2 * |v|
    ensures Joinable(Permute(Split(v), Expand(P)))
    ensures Join(Permute(Split(v), Expand(P))) == Permute(v, P)
  {
    ExpandRange(v, P);
    var h, w := Permute(Split(v), Expand(P)), Permute(v, P);
    assert Joinable(h) && Join(h) == w by {
      ExpandHalves(v, P);
      JoinPairs(h, w);
    }
  }

  /** Halves that pair up lane by lane join into those lanes. */
  lemma {:induction false} JoinPairs(h: seq<Half32>, w: seq<int>)
    requires |h| == 2 * |w|
    requires forall t :: 0 <= t < |w| ==> h[2 * t] == Half32(w[t], false) && h[2 * t + 1] == Half32(w[t], true)
    ensures Joinable(h) && Join(h) == w
  {
  }

  /** The halves an expanded row gathers, pair by pair. */
  lemma {:induction false} ExpandHalves(v: Reg, P: seq<int>)
    requires forall t :: 0 <= t < |P| ==> 0 <= P[t] < |v|
    ensures forall t :: 0 <= t < 2 * |P| ==> 0 <= Expand(P)[t] < 2 * |v|
    ensures forall t :: 0 <= t < |P| ==>
      Permute(Split(v), Expand(P))[2 * t] == Half32(v[P[t]], false) &&
      Permute(Split(v), Expand(P))[2 * t + 1] == Half32(v[P[t]], true)
  {
    var E := Expand(P);
    ExpandRange(v, P);
    var h := Permute(Split(v), E);
    forall t | 0 <= t < |P| ensures h[2 * t] == Half32(v[P[t]], false) && h[2 * t + 1] == Half32(v[P[t]], true) {
      var x := P[t];
      DivPair(t);
      DivPair(x);
      assert E[2 * t] == 2 * x && E[2 * t + 1] == 2 * x + 1;
      assert h[2 * t] == Split(v)[2 * x] && h[2 * t + 1] == Split(v)[2 * x + 1];
    }
  }

  lemma {:induction false} ExpandRange(v: Reg, P: seq<int>)
    requires forall t :: 0 <= t < |P| ==> 0 <= P[t] < |v|
    ensures forall t :: 0 <= t < 2 * |P| ==> 0 <= Expand(P)[t] < 2 * |v|
  {
    var E := Expand(P);
    forall t | 0 <= t < 2 * |P| ensures 0 <= E[t] < 2 * |v| {
      var q := t / 2;
      assert E[t] == 2 * P[q] + t % 2;
    }
  }

  // ---------------------------------------------------------------------
  // double_compressstore

  /**
   * The register as double_compressstore stores it: the lanes whose mask
   * lane is clear in order, then the selected lanes in reverse order.
   */
  function Stored(reg: Reg, k: seq<int>): (r: seq<int>)
    requires |k| == |reg|
    ensures |r| == |reg|
  {
    CompressLength(reg, KNot(Selected(k)));
    CompressLength(reg, Selected(k));
    PopcountKNot(Selected(k));
    Compress(reg, KNot(Selected(k))) + Rev(Compress(reg, Selected(k)))
  }

  /** The table row of the register's mask permutes it into its stored form. */
  lemma {:induction false} StoredIsTablePermute(reg: Reg, k: seq<int>)
    requires IsMaskReg(k) && |k| == |reg|
    ensures Stored(reg, k) == Permute(reg, PermRow(MoveMask(k), |reg|))
  {
    PermRowCompress(reg, MoveMask(k));
    MoveMaskBits(k);
  }

  /** The popcount of the integer mask counts the selected lanes. */
  lemma {:induction false} MoveMaskPopcount(k: seq<int>)
    requires IsMaskReg(k)
    ensures Popcount(Bits(MoveMask(k), |k|)) == Popcount(Selected(k))
  {
    MoveMaskBits(k);
  }

  /**
   * avx2_double_compressstore32 (8 lanes) and avx2_double_compressstore32_half
   * (4 lanes): the register permuted by the table row of its mask is stored
   * whole at the left and at the right address, and the number of selected
   * lanes is returned.
   */
  method DoubleCompressstore32(arr: array<int>, leftAt: nat, rightAt: nat, k: seq<int>, reg: Reg) returns (n: nat)
    requires IsMaskReg(k) && |k| == |reg| && leftAt + |reg| <= arr.Length && rightAt + |reg| <= arr.Length
    modifies arr
    ensures n == Popcount(Selected(k))
    ensures arr[..] == Partition.Written(Partition.Written(old(arr[..]), leftAt, Stored(reg, k)), rightAt, Stored(reg, k))
  {
    var shortMask := MoveMask(k);
    var perm := PermRow(shortMask, |reg|);
    var temp := Permute(reg, perm);
    StoredIsTablePermute(reg, k);
    StoreU(arr, leftAt, temp);
    StoreU(arr, rightAt, temp);
    MoveMaskPopcount(k);
    n := Popcount(Bits(shortMask, |k|));
  }

  /**
   * avx2_double_compressstore64 (4 lanes): the same, with the permutation
   * applied to the register's 32-bit halves by the expanded table row.
   */
  method DoubleCompressstore64(arr: array<int>, leftAt: nat, rightAt: nat, k: seq<int>, reg: Reg) returns (n: nat)
    requires IsMaskReg(k) && |k| == |reg| == 4 && leftAt + 4 <= arr.Length && rightAt + 4 <= arr.Length
    modifies arr
    ensures n == Popcount(Selected(k))
    ensures arr[..] == Partition.Written(Partition.Written(old(arr[..]), leftAt, Stored(reg, k)), rightAt, Stored(reg, k))
  {
    var shortMask := MoveMask(k);
    var perm := Expand(PermRow(shortMask, 4));
    ExpandPermute(reg, PermRow(shortMask, 4));
    var temp := Join(Permute(Split(reg), perm));
    StoredIsTablePermute(reg, k);
    StoreU(arr, leftAt, temp);
    StoreU(arr, rightAt, temp);
    MoveMaskPopcount(k);
    n := Popcount(Bits(shortMask, |k|));
  }

  /** storeu of a whole register. */
  method StoreU(arr: array<int>, at: nat, v: seq<int>)
    requires at + |v| <= arr.Length
    modifies arr
    ensures arr[..] == Partition.Written(old(arr[..]), at, v)
  {
    forall t | at <= t < at + |v| {
      arr[t] := v[t - at];
    }
    assert arr[..] == old(arr[..])[..at] + v + old(arr[..])[at + |v|..];
  }

  /**
   * What the stores mean for the partition: the first |reg| - n lanes
   * stored at the left address are the unselected lanes in order, and the
   * last n lanes stored at the right address are the selected lanes.
   */
  lemma {:induction false} DoubleCompressstoreSplit(reg: Reg, k: seq<int>)
    requires |k| == |reg|
    ensures Popcount(Selected(k)) <= |reg|
    ensures Stored(reg, k)[..|reg| - Popcount(Selected(k))] == Compress(reg, KNot(Selected(k)))
    ensures multiset(Stored(reg, k)[|reg| - Popcount(Selected(k))..]) == multiset(Compress(reg, Selected(k)))
  {
    CompressLength(reg, KNot(Selected(k)));
    CompressLength(reg, Selected(k));
    PopcountKNot(Selected(k));
    PopcountBound(Selected(k));
    var s := Stored(reg, k);
    var c := Compress(reg, KNot(Selected(k)));
    assert s[..|c|] == c;
    assert s[|c|..] == Rev(Compress(reg, Selected(k)));
    RevMultiset(Compress(reg, Selected(k)));
  }
}
