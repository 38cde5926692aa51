/**
 * The two compare-exchange primitives of xss-common-qsort.h: COEX on a pair
 * of registers and cmp_merge of a register with a permuted copy of itself,
 * and how cmp_merge with the swizzles reverse_n / swap_n and the alternating
 * mask constants is one flip or half-cleaner level of module Levels.
 */
module Exchange {
  import opened Simd
  import opened Levels

  /** COEX(a, b): a becomes the lane-wise minimum, b the lane-wise maximum. */
  function Coex(a: Reg, b: Reg): (r: (Reg, Reg))
    requires |a| == |b|
    ensures |r.0| == |r.1| == |a|
    ensures forall i :: 0 <= i < |a| ==> r.0[i] <= r.1[i]
    ensures forall i :: 0 <= i < |a| ==> r.0[i] == Min(a[i], b[i]) && r.1[i] == Max(a[i], b[i])
  {
    (VMin(a, b), VMax(a, b))
  }

  /** COEX only exchanges values between the two registers. */
  lemma CoexMultiset(a: Reg, b: Reg)
    requires |a| == |b|
    ensures multiset(Coex(a, b).0) + multiset(Coex(a, b).1) == multiset(a) + multiset(b)
  {
    MinMaxMultiset(a, b);
  }

  /** cmp_merge(in1, in2, mask): mask_mov of the minimum and the maximum by the mask. */
  function CmpMerge(in1: Reg, in2: Reg, mask: Mask): (r: Reg)
    requires |in1| == |in2| == |mask|
    ensures |r| == |in1|
  {
    MaskMov(VMin(in2, in1), mask, VMax(in2, in1))
  }

  /** cmp_merge takes the maximum where the mask bit is set and the minimum elsewhere. */
  lemma CmpMergeLanes(in1: Reg, in2: Reg, mask: Mask)
    requires |in1| == |in2| == |mask|
    ensures forall i :: 0 <= i < |in1| ==>
      CmpMerge(in1, in2, mask)[i] == (if mask[i] then Max(in1[i], in2[i]) else Min(in1[i], in2[i]))
  {
  }

  /**
   * The mask selecting the upper half of every B-lane block: the constants
   * 0xA, 0xAA, 0xAAAA, ... for B = 2, 0xC, 0xCC, ... for B = 4, 0xF0, 0xF0F0, ...
   * for B = 8, 0xFF00, 0xFF00FF00 for B = 16 and 0xFFFF0000 for B = 32, with
   * bit l of the constant giving lane l.
   */
  function UpperMask(n: nat, B: nat): (m: Mask)
    requires Multiple(n, B)
    ensures |m| == n
    decreases n
  {
    if n == 0 then [] else seq(B, i requires 0 <= i < B => i >= B / 2) + UpperMask(n - B, B)
  }

  /** The constant 0xAA of sort_reg_8lanes is the upper-half mask of blocks of 2 lanes. */
  lemma UpperMaskAA()
    ensures UpperMask(8, 2) == Bits(0xAA, 8)
  {
    var f, t := false, true;
    assert Bits(2, 2) == [f] + Bits(1, 1) == [f, t];
    assert Bits(0xA, 4) == [f, t] + Bits(2, 2);
    assert Bits(0xAA, 8) == [f, t, f, t] + Bits(0xA, 4);
    assert UpperMask(4, 2) == [f, t, f, t];
    assert UpperMask(8, 2) == [f, t] + [f, t] + UpperMask(4, 2);
  }

  /** The constant 0xCC of sort_reg_8lanes is the upper-half mask of blocks of 4 lanes. */
  lemma UpperMaskCC()
    ensures UpperMask(8, 4) == Bits(0xCC, 8)
  {
    var f, t := false, true;
    assert Bits(0xCC, 8) == [f, f, t, t, f, f, t, t];
    assert UpperMask(8, 4) == [f, f, t, t, f, f, t, t];
  }

  /** The constant 0xF0 of sort_reg_8lanes is the upper-half mask of one block of 8 lanes. */
  lemma UpperMaskF0()
    ensures UpperMask(8, 8) == Bits(0xF0, 8)
  {
    var f, t := false, true;
    assert Bits(0xF0, 8) == [f, f, f, f, t, t, t, t];
    assert UpperMask(8, 8) == [f, f, f, f, t, t, t, t];
  }

  /** cmp_merge distributes over registers cut at the same lane. */
  lemma CmpMergeConcat(a: Reg, b: Reg, c: Reg, d: Reg, m: Mask, n: Mask)
    requires |a| == |c| == |m| && |b| == |d| == |n|
    ensures CmpMerge(a + b, c + d, m + n) == CmpMerge(a, c, m) + CmpMerge(b, d, n)
  {
  }

  /** On one block, cmp_merge with the reversed block is the flip stage. */
  lemma CmpMergeFlipBlock(a: Reg)
    requires |a| % 2 == 0 && Multiple(|a|, |a|)
    ensures CmpMerge(a, Rev(a), UpperMask(|a|, |a|)) == FlipStage(a)
  {
    var L, R := CmpMerge(a, Rev(a), UpperMask(|a|, |a|)), FlipStage(a);
    forall i | 0 <= i < |a| ensures L[i] == R[i] {
      FlipStageLane(a, i);
      CmpMergeLane(a, Rev(a), i);
    }
  }

  /** On one block, cmp_merge with the half-swapped block is the half-cleaner stage. */
  lemma CmpMergeHalfBlock(a: Reg)
    requires |a| % 2 == 0 && Multiple(|a|, |a|)
    ensures CmpMerge(a, a[|a| / 2..] + a[..|a| / 2], UpperMask(|a|, |a|)) == HalfStage(a)
  {
    var sw := a[|a| / 2..] + a[..|a| / 2];
    var L, R := CmpMerge(a, sw, UpperMask(|a|, |a|)), HalfStage(a);
    forall i | 0 <= i < |a| ensures L[i] == R[i] {
      HalfStageLane(a, i);
      CmpMergeLane(a, sw, i);
      SwappedLane(a, i);
    }
  }

  /** Lane i of the block with its halves swapped. */
  lemma SwappedLane(a: Reg, i: nat)
    requires |a| % 2 == 0 && i < |a|
    ensures (a[|a| / 2..] + a[..|a| / 2])[i] == if i >= |a| / 2 then a[i - |a| / 2] else a[i + |a| / 2]
  {
  }

  /** Lane i of a one-block cmp_merge. */
  lemma CmpMergeLane(a: Reg, b: Reg, i: nat)
    requires |a| == |b| && Multiple(|a|, |a|) && i < |a|
    ensures CmpMerge(a, b, UpperMask(|a|, |a|))[i]
         == if i >= |a| / 2 then Max(a[i], b[i]) else Min(a[i], b[i])
  {
    UpperMaskBlock(|a|);
  }

  /** Lane i of the flip stage meets its mirror lane. */
  lemma FlipStageLane(a: Reg, i: nat)
    requires |a| % 2 == 0 && i < |a|
    ensures FlipStage(a)[i] == if i >= |a| / 2 then Max(a[i], Rev(a)[i]) else Min(a[i], Rev(a)[i])
  {
    var h := |a| / 2;
    var lo, hi := a[..h], a[h..];
    var mn, mx := VMin(lo, Rev(hi)), VMax(lo, Rev(hi));
    assert FlipStage(a) == mn + Rev(mx);
    if i >= h {
      assert Rev(mx)[i - h] == mx[|a| - 1 - i];
    }
  }

  /** Lane i of the half-cleaner stage meets the lane half a block away. */
  lemma HalfStageLane(a: Reg, i: nat)
    requires |a| % 2 == 0 && i < |a|
    ensures HalfStage(a)[i] == if i >= |a| / 2 then Max(a[i], a[i - |a| / 2]) else Min(a[i], a[i + |a| / 2])
  {
    var h := |a| / 2;
    assert HalfStage(a) == VMin(a[..h], a[h..]) + VMax(a[..h], a[h..]);
  }

  /** On a single block the mask holds the upper half. */
  lemma UpperMaskBlock(B: nat)
    requires Multiple(B, B)
    ensures forall i :: 0 <= i < B ==> UpperMask(B, B)[i] == (i >= B / 2)
  {
    assert UpperMask(B, B) == seq(B, i requires 0 <= i < B => i >= B / 2) + UpperMask(0, B);
  }

  /** cmp_merge with reverse_n<B> and the upper-half mask is a flip level with blocks B. */
  lemma {:induction false} CmpMergeFlip(v: Reg, B: nat)
    requires Multiple(|v|, B) && B % 2 == 0
    ensures CmpMerge(v, ReverseN(v, B), UpperMask(|v|, B)) == Level(FlipStage, v, B)
    decreases |v|
  {
    if |v| > 0 {
      var a, rest := v[..B], v[B..];
      BlockCons(v, B);
      MultipleSelf(B);
      if |rest| == 0 {
        assert v == a;
        CmpMergeFlipBlock(a);
      } else {
        calc {
          CmpMerge(v, ReverseN(v, B), UpperMask(|v|, B));
          CmpMerge(a + rest, Rev(a) + ReverseN(rest, B), UpperMask(B, B) + UpperMask(|rest|, B));
          { CmpMergeConcat(a, rest, Rev(a), ReverseN(rest, B), UpperMask(B, B), UpperMask(|rest|, B)); }
          CmpMerge(a, Rev(a), UpperMask(B, B)) + CmpMerge(rest, ReverseN(rest, B), UpperMask(|rest|, B));
          { CmpMergeFlipBlock(a); CmpMergeFlip(rest, B); }
          FlipStage(a) + Level(FlipStage, rest, B);
          { LevelCons(FlipStage, a, rest, B); }
          Level(FlipStage, v, B);
        }
      }
    }
  }

  /** cmp_merge with swap_n<B> and the upper-half mask is a half-cleaner level with blocks B. */
  lemma {:induction false} CmpMergeHalf(v: Reg, B: nat)
    requires Multiple(|v|, B) && B % 2 == 0
    ensures CmpMerge(v, SwapN(v, B), UpperMask(|v|, B)) == Level(HalfStage, v, B)
    decreases |v|
  {
    if |v| > 0 {
      var a, rest := v[..B], v[B..];
      BlockCons(v, B);
      MultipleSelf(B);
      var sw := a[B / 2..] + a[..B / 2];
      if |rest| == 0 {
        assert v == a;
        CmpMergeHalfBlock(a);
      } else {
        calc {
          CmpMerge(v, SwapN(v, B), UpperMask(|v|, B));
          CmpMerge(a + rest, sw + SwapN(rest, B), UpperMask(B, B) + UpperMask(|rest|, B));
          { CmpMergeConcat(a, rest, sw, SwapN(rest, B), UpperMask(B, B), UpperMask(|rest|, B)); }
          CmpMerge(a, sw, UpperMask(B, B)) + CmpMerge(rest, SwapN(rest, B), UpperMask(|rest|, B));
          { CmpMergeHalfBlock(a); CmpMergeHalf(rest, B); }
          HalfStage(a) + Level(HalfStage, rest, B);
          { LevelCons(HalfStage, a, rest, B); }
          Level(HalfStage, v, B);
        }
      }
    }
  }

  /** The first block of a swizzle or mask, and the rest after it. */
  lemma BlockCons<T>(v: seq<T>, B: nat)
    requires Multiple(|v|, B) && |v| > 0 && B % 2 == 0
    ensures v == v[..B] + v[B..] && Multiple(|v| - B, B)
    ensures ReverseN(v, B) == Rev(v[..B]) + ReverseN(v[B..], B)
    ensures SwapN(v, B) == (v[..B][B / 2..] + v[..B][..B / 2]) + SwapN(v[B..], B)
    ensures UpperMask(|v|, B) == UpperMask(B, B) + UpperMask(|v| - B, B)
  {
    assert |v| >= B && Multiple(|v| - B, B);
    assert v == v[..B] + v[B..];
    SwapNCons(v, B);
    UpperMaskCons(|v|, B);
  }

  lemma SwapNCons<T>(v: seq<T>, B: nat)
    requires Multiple(|v|, B) && |v| > 0 && B % 2 == 0 && |v| >= B
    ensures SwapN(v, B) == (v[..B][B / 2..] + v[..B][..B / 2]) + SwapN(v[B..], B)
  {
    assert v[..B][B / 2..] == v[B / 2..B];
    assert v[..B][..B / 2] == v[..B / 2];
  }

  lemma UpperMaskCons(n: nat, B: nat)
    requires Multiple(n, B) && n > 0
    ensures Multiple(n - B, B) && UpperMask(n, B) == UpperMask(B, B) + UpperMask(n - B, B)
  {
    assert UpperMask(B, B) == seq(B, i requires 0 <= i < B => i >= B / 2) + UpperMask(0, B);
  }
}
