/**
 * The single-register sorting networks of xss-reg-networks.hpp: chains of
 * cmp_merge of a register with its reverse_n<B> or swap_n<B> swizzle, under
 * the mask of the upper half of every B-lane block. Each chain is the
 * level-by-level bitonic sorter of module Levels, so it sorts and permutes.
 */
module RegNetworks {
  import opened Simd
  import opened Bitonic
  import opened Levels
  import opened Exchange

  /** The flip level reverse_n<B> + cmp_merge. */
  function FlipLanes(reg: Reg, B: nat): (r: Reg)
    requires Multiple(|reg|, B)
    ensures |r| == |reg|
  {
    CmpMerge(reg, ReverseN(reg, B), UpperMask(|reg|, B))
  }

  /** The half-cleaner level swap_n<B> + cmp_merge. */
  function HalfLanes(reg: Reg, B: nat): (r: Reg)
    requires Multiple(|reg|, B) && B % 2 == 0
    ensures |r| == |reg|
  {
    CmpMerge(reg, SwapN(reg, B), UpperMask(|reg|, B))
  }

  /** sort_reg_4lanes: masks 0xA, 0xC, 0xA. */
  function SortReg4Lanes(reg: Reg): (r: Reg)
    requires |reg| == 4
    ensures |r| == 4
  {
    var reg := FlipLanes(reg, 2);
    var reg := FlipLanes(reg, 4);
    HalfLanes(reg, 2)
  }

  /** sort_reg_8lanes: the 4-lane network, then reverse_n<8>/0xF0, swap_n<4>/0xCC, swap_n<2>/0xAA. */
  function SortReg8Lanes(reg: Reg): (r: Reg)
    requires |reg| == 8
    ensures |r| == 8
  {
    var reg := FlipLanes(reg, 2);
    var reg := FlipLanes(reg, 4);
    var reg := HalfLanes(reg, 2);
    var reg := FlipLanes(reg, 8);
    var reg := HalfLanes(reg, 4);
    HalfLanes(reg, 2)
  }

  /** sort_reg_16lanes: the 8-lane network, then the level with 16-lane blocks. */
  function SortReg16Lanes(reg: Reg): (r: Reg)
    requires |reg| == 16
    ensures |r| == 16
  {
    var reg := FlipLanes(reg, 2);
    var reg := FlipLanes(reg, 4);
    var reg := HalfLanes(reg, 2);
    var reg := FlipLanes(reg, 8);
    var reg := HalfLanes(reg, 4);
    var reg := HalfLanes(reg, 2);
    var reg := FlipLanes(reg, 16);
    var reg := HalfLanes(reg, 8);
    var reg := HalfLanes(reg, 4);
    HalfLanes(reg, 2)
  }

  /** sort_reg_32lanes: levels 1 to 5 of the bitonic sorter. */
  function SortReg32Lanes(reg: Reg): (r: Reg)
    requires |reg| == 32
    ensures |r| == 32
  {
    MultipleSelf(32);
    MultipleDown(|reg|, 5);
    var reg := FlipLanes(reg, 2);
    var reg := FlipLanes(reg, 4);
    var reg := HalfLanes(reg, 2);
    var reg := FlipLanes(reg, 8);
    var reg := HalfLanes(reg, 4);
    var reg := HalfLanes(reg, 2);
    var reg := FlipLanes(reg, 16);
    var reg := HalfLanes(reg, 8);
    var reg := HalfLanes(reg, 4);
    var reg := HalfLanes(reg, 2);
    var reg := FlipLanes(reg, 32);
    var reg := HalfLanes(reg, 16);
    var reg := HalfLanes(reg, 8);
    var reg := HalfLanes(reg, 4);
    HalfLanes(reg, 2)
  }

  /**
   * bitonic_merge_reg_4lanes, key part: the half cleaners swap_n<4>/0xC,
   * swap_n<2>/0xA.
   */
  function BitonicMergeReg4Lanes(reg: Reg): (r: Reg)
    requires |reg| == 4
    ensures |r| == 4
  {
    MultipleSelf(4);
    HalfLanes(HalfLanes(reg, 4), 2)
  }

  /**
   * vtype::bitonic_merge of the 8-lane register: the half cleaners swap_n<8>/0xF0,
   * swap_n<4>/0xCC, swap_n<2>/0xAA (the key part of bitonic_merge_reg_8lanes).
   */
  function BitonicMergeReg8Lanes(reg: Reg): (r: Reg)
    requires |reg| == 8
    ensures |r| == 8
  {
    var reg := HalfLanes(reg, 8);
    var reg := HalfLanes(reg, 4);
    HalfLanes(reg, 2)
  }

  // ---------------------------------------------------------------------
  // Each network is a level network

  lemma FlipLanesLevel(reg: Reg, B: nat)
    requires Multiple(|reg|, B) && B % 2 == 0
    ensures FlipLanes(reg, B) == Level(FlipStage, reg, B)
  {
    CmpMergeFlip(reg, B);
  }

  lemma HalfLanesLevel(reg: Reg, B: nat)
    requires Multiple(|reg|, B) && B % 2 == 0
    ensures HalfLanes(reg, B) == Level(HalfStage, reg, B)
  {
    CmpMergeHalf(reg, B);
  }

  /** Whole 2^k-blocks are whole blocks of every smaller power of two. */
  lemma MultipleDown(n: nat, k: nat)
    requires 1 <= k <= 5 && Multiple(n, Pow2(k))
    ensures Multiple(n, 2)
    ensures k >= 2 ==> Multiple(n, 4)
    ensures k >= 3 ==> Multiple(n, 8)
    ensures k >= 4 ==> Multiple(n, 16)
    ensures k >= 5 ==> Multiple(n, 32)
  {
    assert Pow2(1) == 2 && Pow2(2) == 4 && Pow2(3) == 8 && Pow2(4) == 16 && Pow2(5) == 32;
    if k == 5 { MultipleHalf(n, 32); }
    if k >= 4 { MultipleHalf(n, 16); }
    if k >= 3 { MultipleHalf(n, 8); }
    if k >= 2 { MultipleHalf(n, 4); }
  }

  /** swap_n<4>/0xCC, swap_n<2>/0xAA: the half-cleaner levels with blocks 4 and 2. */
  lemma HalfLanes2(reg: Reg, k: nat)
    requires k == 2 && Multiple(|reg|, 4)
    ensures Multiple(|reg|, 2)
    ensures HalfLanes(HalfLanes(reg, 4), 2) == CleanLevels(reg, k)
  {
    MultipleHalf(|reg|, 4);
    var h1 := HalfLanes(reg, 4);
    HalfLanesLevel(reg, 4);
    HalfLanesLevel(h1, 2);
    StagesKeepLength();
    assert Pow2(k) == 4 && Pow2(k - 1) == 2;
    assert CleanLevels(reg, k) == CleanLevels(Level(HalfStage, reg, 4), k - 1);
    assert CleanLevels(h1, k - 1) == CleanLevels(Level(HalfStage, h1, 2), k - 2);
  }

  /** swap_n<8>/0xF0 followed by the levels with blocks 4 and 2. */
  lemma HalfLanes3(reg: Reg, k: nat)
    requires k == 3 && Multiple(|reg|, 8)
    ensures Multiple(|reg|, 4) && Multiple(|reg|, 2)
    ensures HalfLanes(HalfLanes(HalfLanes(reg, 8), 4), 2) == CleanLevels(reg, k)
  {
    assert Pow2(3) == 8;
    MultipleDown(|reg|, 3);
    var h1 := HalfLanes(reg, 8);
    HalfLanesLevel(reg, 8);
    StagesKeepLength();
    assert |h1| == |reg|;
    HalfLanes2(h1, 2);
    assert Descend(HalfStage, reg, 3) == Descend(HalfStage, h1, 2);
  }

  lemma HalfLanes4(reg: Reg, k: nat)
    requires k == 4 && Multiple(|reg|, 16)
    ensures Multiple(|reg|, 8) && Multiple(|reg|, 4) && Multiple(|reg|, 2)
    ensures HalfLanes(HalfLanes(HalfLanes(HalfLanes(reg, 16), 8), 4), 2) == CleanLevels(reg, k)
  {
    assert Pow2(4) == 16;
    MultipleDown(|reg|, 4);
    var h1 := HalfLanes(reg, 16);
    HalfLanesLevel(reg, 16);
    StagesKeepLength();
    assert |h1| == |reg|;
    HalfLanes3(h1, 3);
    assert Descend(HalfStage, reg, 4) == Descend(HalfStage, h1, 3);
  }

  /** Sorting level k applied to the output of levels 1 .. k - 1. */
  lemma SortLevelsNext(reg: Reg, x: Reg, k: nat)
    requires 1 <= k && x == SortLevels(reg, k - 1)
    ensures SortLevels(reg, k) == MergeLevels(x, k)
  {
  }

  /** Level 1 of the sorter: reverse_n<2> under 0xAA... */
  lemma Merge1Lanes(reg: Reg)
    requires Multiple(|reg|, 2)
    ensures FlipLanes(reg, 2) == SortLevels(reg, 1)
  {
    FlipLanesLevel(reg, 2);
    SortLevelsNext(reg, reg, 1);
    MergeLevelsOne(reg);
  }

  /** The first merge level is a single flip level with blocks of two. */
  lemma MergeLevelsOne(s: seq<int>)
    ensures MergeLevels(s, 1) == Level(FlipStage, s, 2)
  {
    assert Pow2(1) == 2;
  }

  /** Level 2: reverse_n<4>/0xCC.., swap_n<2>/0xAA.. */
  lemma Merge2Lanes(reg: Reg, x: Reg, k: nat)
    requires k == 2 && Multiple(|reg|, 4) && x == SortLevels(reg, k - 1)
    ensures Multiple(|x|, 4) && Multiple(|x|, 2)
    ensures HalfLanes(FlipLanes(x, 4), 2) == SortLevels(reg, k)
  {
    MultipleHalf(|reg|, 4);
    var y := FlipLanes(x, 4);
    FlipLanesLevel(x, 4);
    HalfLanesLevel(y, 2);
    StagesKeepLength();
    assert Pow2(k) == 4 && Pow2(k - 1) == 2;
    SortLevelsNext(reg, x, k);
    assert MergeLevels(x, k) == CleanLevels(y, k - 1) == CleanLevels(Level(HalfStage, y, 2), 0);
  }

  /** Level 3: reverse_n<8>/0xF0.., then the half cleaners with blocks 4 and 2. */
  lemma Merge3Lanes(reg: Reg, x: Reg, k: nat)
    requires k == 3 && Multiple(|reg|, 8) && x == SortLevels(reg, k - 1)
    ensures Multiple(|x|, 8) && Multiple(|x|, 4) && Multiple(|x|, 2)
    ensures HalfLanes(HalfLanes(FlipLanes(x, 8), 4), 2) == SortLevels(reg, k)
  {
    MultipleDown(|reg|, 3);
    var y := FlipLanes(x, 8);
    FlipLanesLevel(x, 8);
    HalfLanes2(y, 2);
    StagesKeepLength();
    assert Pow2(k) == 8;
    SortLevelsNext(reg, x, k);
  }

  /** Level 4: reverse_n<16>/0xFF00.., then the half cleaners with blocks 8, 4 and 2. */
  lemma Merge4Lanes(reg: Reg, x: Reg, k: nat)
    requires k == 4 && Multiple(|reg|, 16) && x == SortLevels(reg, k - 1)
    ensures Multiple(|x|, 16) && Multiple(|x|, 8) && Multiple(|x|, 4) && Multiple(|x|, 2)
    ensures HalfLanes(HalfLanes(HalfLanes(FlipLanes(x, 16), 8), 4), 2) == SortLevels(reg, k)
  {
    MultipleDown(|reg|, 4);
    var y := FlipLanes(x, 16);
    FlipLanesLevel(x, 16);
    HalfLanes3(y, 3);
    StagesKeepLength();
    assert Pow2(k) == 16;
    SortLevelsNext(reg, x, k);
  }

  /** Level 5: reverse_n<32>/0xFFFF0000, then the half cleaners with blocks 16, ..., 2. */
  lemma Merge5Lanes(reg: Reg, x: Reg, k: nat)
    requires k == 5 && Multiple(|reg|, 32) && x == SortLevels(reg, k - 1)
    ensures Multiple(|x|, 32) && Multiple(|x|, 16) && Multiple(|x|, 8) && Multiple(|x|, 4) && Multiple(|x|, 2)
    ensures HalfLanes(HalfLanes(HalfLanes(HalfLanes(FlipLanes(x, 32), 16), 8), 4), 2) == SortLevels(reg, k)
  {
    MultipleDown(|reg|, 5);
    var y := FlipLanes(x, 32);
    FlipLanesLevel(x, 32);
    HalfLanes4(y, 4);
    StagesKeepLength();
    assert Pow2(k) == 32;
    SortLevelsNext(reg, x, k);
  }

  /** sort_reg_4lanes is the bitonic sorter on 4 lanes. */
  lemma SortReg4LanesLevels(reg: Reg)
    requires |reg| == 4
    ensures SortReg4Lanes(reg) == SortLevels(reg, 2)
  {
    MultipleSelf(4);
    MultipleDown(4, 2);
    Merge1Lanes(reg);
    Merge2Lanes(reg, FlipLanes(reg, 2), 2);
  }

  /** sort_reg_8lanes is the bitonic sorter on 8 lanes. */
  lemma SortReg8LanesLevels(reg: Reg)
    requires |reg| == 8
    ensures SortReg8Lanes(reg) == SortLevels(reg, 3)
  {
    MultipleSelf(8);
    MultipleDown(8, 3);
    var r1 := FlipLanes(reg, 2);
    Merge1Lanes(reg);
    var r2 := HalfLanes(FlipLanes(r1, 4), 2);
    Merge2Lanes(reg, r1, 2);
    Merge3Lanes(reg, r2, 3);
  }

  /** sort_reg_16lanes is the bitonic sorter on 16 lanes. */
  lemma SortReg16LanesLevels(reg: Reg)
    requires |reg| == 16
    ensures SortReg16Lanes(reg) == SortLevels(reg, 4)
  {
    MultipleSelf(16);
    MultipleDown(16, 4);
    var r1 := FlipLanes(reg, 2);
    Merge1Lanes(reg);
    var r2 := HalfLanes(FlipLanes(r1, 4), 2);
    Merge2Lanes(reg, r1, 2);
    var r3 := HalfLanes(HalfLanes(FlipLanes(r2, 8), 4), 2);
    Merge3Lanes(reg, r2, 3);
    Merge4Lanes(reg, r3, 4);
  }

  /** sort_reg_32lanes is the bitonic sorter on 32 lanes. */
  lemma SortReg32LanesLevels(reg: Reg)
    requires |reg| == 32
    ensures SortReg32Lanes(reg) == SortLevels(reg, 5)
  {
    MultipleSelf(32);
    MultipleDown(32, 5);
    var r1 := FlipLanes(reg, 2);
    Merge1Lanes(reg);
    var r2 := HalfLanes(FlipLanes(r1, 4), 2);
    Merge2Lanes(reg, r1, 2);
    var r3 := HalfLanes(HalfLanes(FlipLanes(r2, 8), 4), 2);
    Merge3Lanes(reg, r2, 3);
    var r4 := HalfLanes(HalfLanes(HalfLanes(FlipLanes(r3, 16), 8), 4), 2);
    Merge4Lanes(reg, r3, 4);
    Merge5Lanes(reg, r4, 5);
  }

  /** bitonic_merge_reg_4lanes is the two half-cleaner levels on 4 lanes. */
  lemma BitonicMergeReg4LanesLevels(reg: Reg)
    requires |reg| == 4
    ensures BitonicMergeReg4Lanes(reg) == CleanLevels(reg, 2)
  {
    MultipleSelf(4);
    HalfLanes2(reg, 2);
  }

  /** bitonic_merge_reg_8lanes is the three half-cleaner levels on 8 lanes. */
  lemma BitonicMergeReg8LanesLevels(reg: Reg)
    requires |reg| == 8
    ensures BitonicMergeReg8Lanes(reg) == CleanLevels(reg, 3)
  {
    MultipleSelf(8);
    HalfLanes3(reg, 3);
  }

  // ---------------------------------------------------------------------
  // What the networks promise

  /** sort_reg_4lanes sorts its register and only rearranges its lanes. */
  lemma SortReg4LanesSorts(reg: Reg)
    requires |reg| == 4
    ensures Sorted(SortReg4Lanes(reg))
    ensures multiset(SortReg4Lanes(reg)) == multiset(reg)
  {
    SortReg4LanesLevels(reg);
    assert Pow2(2) == 4;
    SortLevelsSorted(reg, 2);
    SortLevelsMultiset(reg, 2);
  }

  /** sort_reg_8lanes sorts its register and only rearranges its lanes. */
  lemma SortReg8LanesSorts(reg: Reg)
    requires |reg| == 8
    ensures Sorted(SortReg8Lanes(reg))
    ensures multiset(SortReg8Lanes(reg)) == multiset(reg)
  {
    SortReg8LanesLevels(reg);
    assert Pow2(3) == 8;
    SortLevelsSorted(reg, 3);
    SortLevelsMultiset(reg, 3);
  }

  /** sort_reg_16lanes sorts its register and only rearranges its lanes. */
  lemma SortReg16LanesSorts(reg: Reg)
    requires |reg| == 16
    ensures Sorted(SortReg16Lanes(reg))
    ensures multiset(SortReg16Lanes(reg)) == multiset(reg)
  {
    SortReg16LanesLevels(reg);
    assert Pow2(4) == 16;
    SortLevelsSorted(reg, 4);
    SortLevelsMultiset(reg, 4);
  }

  /** sort_reg_32lanes sorts its register and only rearranges its lanes. */
  lemma SortReg32LanesSorts(reg: Reg)
    requires |reg| == 32
    ensures Sorted(SortReg32Lanes(reg))
    ensures multiset(SortReg32Lanes(reg)) == multiset(reg)
  {
    SortReg32LanesLevels(reg);
    assert Pow2(5) == 32;
    SortLevelsSorted(reg, 5);
    SortLevelsMultiset(reg, 5);
  }

  /**
   * bitonic_merge of a bitonic register (an ascending run followed by a
   * descending one, or the reverse) sorts it, and rearranges lanes only.
   */
  lemma BitonicMergeReg8LanesSorts(reg: Reg)
    requires |reg| == 8 && IsBitonic(reg)
    ensures Sorted(BitonicMergeReg8Lanes(reg))
    ensures multiset(BitonicMergeReg8Lanes(reg)) == multiset(reg)
  {
    BitonicMergeReg8LanesLevels(reg);
    assert Pow2(3) == 8;
    CleanLevelsSortsBitonic(reg, 3);
    CleanLevelsMultiset(reg, 3);
  }

  /** bitonic_merge_reg_4lanes sorts a bitonic register and rearranges lanes only. */
  lemma BitonicMergeReg4LanesSorts(reg: Reg)
    requires |reg| == 4 && IsBitonic(reg)
    ensures Sorted(BitonicMergeReg4Lanes(reg))
    ensures multiset(BitonicMergeReg4Lanes(reg)) == multiset(reg)
  {
    BitonicMergeReg4LanesLevels(reg);
    assert Pow2(2) == 4;
    CleanLevelsSortsBitonic(reg, 2);
    CleanLevelsMultiset(reg, 2);
  }
}
