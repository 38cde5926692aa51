/**
 * The key-value sorting networks of xss-network-keyvaluesort.hpp. A key
 * register travels with a value register (the values of kvsort, or the
 * indexes of argsort); every compare-exchange that moves a key moves the
 * value in the same lane with it. The networks are modelled on the lanes as
 * a sequence of (key, value) pairs: their key part is the integer network
 * of modules RegNetworks and Levels, so the keys end sorted, and every step
 * only exchanges whole pairs between lanes.
 */
module KvNetworks {
  import opened Simd
  import opened Bitonic
  import opened Levels
  import opened Exchange
  import opened RegNetworks
  import opened Sorting
  import NetworkSort
  import Scalar

  /** A key lane together with the value lane that travels with it. */
  type Pair<V> = (int, V)

  function KeysOf<V>(s: seq<Pair<V>>): (r: Reg)
    ensures |r| == |s| && forall i {:trigger r[i]} :: 0 <= i < |s| ==> r[i] == s[i].0
  {
    seq(|s|, i requires 0 <= i < |s| => s[i].0)
  }

  function ValsOf<V>(s: seq<Pair<V>>): (r: seq<V>)
    ensures |r| == |s| && forall i {:trigger r[i]} :: 0 <= i < |s| ==> r[i] == s[i].1
  {
    seq(|s|, i requires 0 <= i < |s| => s[i].1)
  }

  /** Of two pairs that meet, the one with the smaller key; x on a tie. */
  function Lo<V>(x: Pair<V>, y: Pair<V>): Pair<V>
  {
    if x.0 <= y.0 then x else y
  }

  /** Of two pairs that meet, the one with the larger key; y on a tie. */
  function Hi<V>(x: Pair<V>, y: Pair<V>): Pair<V>
  {
    if x.0 <= y.0 then y else x
  }

  function LoLanes<V>(x: seq<Pair<V>>, y: seq<Pair<V>>): (r: seq<Pair<V>>)
    requires |x| == |y|
    ensures |r| == |x|
  {
    seq(|x|, i requires 0 <= i < |x| => Lo(x[i], y[i]))
  }

  function HiLanes<V>(x: seq<Pair<V>>, y: seq<Pair<V>>): (r: seq<Pair<V>>)
    requires |x| == |y|
    ensures |r| == |x|
  {
    seq(|x|, i requires 0 <= i < |x| => Hi(x[i], y[i]))
  }

  // ---------------------------------------------------------------------
  // The two compare-exchange primitives

  /**
   * COEX on two key registers and their value registers: key1 takes the
   * lane-wise minimum and key2 the maximum; the value registers follow the
   * mask of the lanes where key1 already held the minimum. Lane by lane the
   * lower register gets the pair with the smaller key (its own on a tie) and
   * the upper register the other pair.
   */
  function KvCoex<V>(key1: Reg, key2: Reg, index1: seq<V>, index2: seq<V>): (r: (Reg, Reg, seq<V>, seq<V>))
    requires |key1| == |key2| == |index1| == |index2|
    ensures |r.0| == |r.1| == |r.2| == |r.3| == |key1|
    ensures Scalar.Zip(r.0, r.2) == LoLanes(Scalar.Zip(key1, index1), Scalar.Zip(key2, index2))
    ensures Scalar.Zip(r.1, r.3) == HiLanes(Scalar.Zip(key1, index1), Scalar.Zip(key2, index2))
  {
    var keyT1 := VMin(key1, key2);
    var keyT2 := VMax(key1, key2);
    var eqMask := Eq(keyT1, key1);
    var indexT1 := MaskMov(index2, eqMask, index1);
    var indexT2 := MaskMov(index1, eqMask, index2);
    (keyT1, keyT2, indexT1, indexT2)
  }

  /**
   * cmp_merge of a key register in1 with its swizzled copy in2, carrying the
   * value register along: a lane takes the larger key where the mask is set
   * and the smaller elsewhere, and its value comes from the register its key
   * came from (its own on a tie).
   */
  function KvCmpMerge<V>(in1: Reg, in2: Reg, indexes1: seq<V>, indexes2: seq<V>, mask: Mask): (r: (Reg, seq<V>))
    requires |in1| == |in2| == |indexes1| == |indexes2| == |mask|
    ensures |r.0| == |r.1| == |in1|
  {
    var tmpKeys := CmpMerge(in1, in2, mask);
    (tmpKeys, MaskMov(indexes2, Eq(tmpKeys, in1), indexes1))
  }

  /** The lanes of the two outputs of a compare-exchange hold the lanes of its inputs. */
  lemma {:induction false} LoHiMultiset<V>(x: seq<Pair<V>>, y: seq<Pair<V>>)
    requires |x| == |y|
    ensures multiset(LoLanes(x, y)) + multiset(HiLanes(x, y)) == multiset(x) + multiset(y)
    decreases |x|
  {
    if |x| > 0 {
      LoHiMultiset(x[1..], y[1..]);
      LoHiHead(x, y);
      assert x == [x[0]] + x[1..];
      assert y == [y[0]] + y[1..];
      PairsRearrange(x[0], y[0], multiset(x[1..]), multiset(y[1..]));
    }
  }

  lemma LoHiHead<V>(x: seq<Pair<V>>, y: seq<Pair<V>>)
    requires |x| == |y| > 0
    ensures multiset(LoLanes(x, y)) + multiset(HiLanes(x, y))
         == multiset{x[0]} + multiset{y[0]} + (multiset(LoLanes(x[1..], y[1..])) + multiset(HiLanes(x[1..], y[1..])))
  {
    assert LoLanes(x, y) == [Lo(x[0], y[0])] + LoLanes(x[1..], y[1..]);
    assert HiLanes(x, y) == [Hi(x[0], y[0])] + HiLanes(x[1..], y[1..]);
  }

  lemma PairsRearrange<V>(x: Pair<V>, y: Pair<V>, A: multiset<Pair<V>>, B: multiset<Pair<V>>)
    ensures multiset{x} + multiset{y} + (A + B) == (multiset{x} + A) + (multiset{y} + B)
  {
  }

  // ---------------------------------------------------------------------
  // Keys and values of lanes of pairs

  lemma ZipKeysVals<V>(s: seq<Pair<V>>)
    ensures Scalar.Zip(KeysOf(s), ValsOf(s)) == s
  {
  }

  lemma ZipParts<V>(k: Reg, v: seq<V>)
    requires |k| == |v|
    ensures KeysOf(Scalar.Zip(k, v)) == k && ValsOf(Scalar.Zip(k, v)) == v
  {
  }

  lemma ZipRev<V>(k: Reg, v: seq<V>)
    requires |k| == |v|
    ensures Scalar.Zip(Rev(k), Rev(v)) == Rev(Scalar.Zip(k, v))
  {
  }

  lemma KeysOfConcat<V>(a: seq<Pair<V>>, b: seq<Pair<V>>)
    ensures KeysOf(a + b) == KeysOf(a) + KeysOf(b)
  {
  }

  lemma KeysOfSlices<V>(s: seq<Pair<V>>, h: nat)
    requires h <= |s|
    ensures KeysOf(s[..h]) == KeysOf(s)[..h] && KeysOf(s[h..]) == KeysOf(s)[h..]
  {
  }

  lemma KeysOfRev<V>(s: seq<Pair<V>>)
    ensures KeysOf(Rev(s)) == Rev(KeysOf(s))
  {
  }

  /** The keys of the lower and upper outputs of a compare-exchange are the lane-wise minimum and maximum. */
  lemma KeysOfLoHi<V>(x: seq<Pair<V>>, y: seq<Pair<V>>)
    requires |x| == |y|
    ensures KeysOf(LoLanes(x, y)) == VMin(KeysOf(x), KeysOf(y))
    ensures KeysOf(HiLanes(x, y)) == VMax(KeysOf(x), KeysOf(y))
  {
  }

  // ---------------------------------------------------------------------
  // The stages of the multi-register network on blocks of pairs

  /**
   * One level of bitonic_clean_n_vec on a block of registers: COEX of each
   * register of the lower half with the register half a block above it, so
   * that lane j of the block meets lane j + B/2. A block of odd size (which
   * never occurs) is left as it is.
   */
  function PHalfStage<V>(b: seq<Pair<V>>): (r: seq<Pair<V>>)
    ensures |r| == |b|
  {
    if |b| % 2 == 1 then b
    else
      var h := |b| / 2;
      var c := KvCoex(KeysOf(b[..h]), KeysOf(b[h..]), ValsOf(b[..h]), ValsOf(b[h..]));
      Scalar.Zip(c.0, c.2) + Scalar.Zip(c.1, c.3)
  }

  /**
   * The first part of bitonic_merge_n_vec: each register of the upper half is
   * reversed, COEXed with its mirror register of the lower half and reversed
   * back, so that lane j of the block meets lane B - 1 - j.
   */
  function PFlipStage<V>(b: seq<Pair<V>>): (r: seq<Pair<V>>)
    ensures |r| == |b|
  {
    if |b| % 2 == 1 then b
    else
      var h := |b| / 2;
      var c := KvCoex(KeysOf(b[..h]), Rev(KeysOf(b[h..])), ValsOf(b[..h]), Rev(ValsOf(b[h..])));
      Scalar.Zip(c.0, c.2) + Scalar.Zip(Rev(c.1), Rev(c.3))
  }

  lemma {:induction false} PHalfStageLanes<V>(b: seq<Pair<V>>)
    requires |b| % 2 == 0
    ensures PHalfStage(b) == LoLanes(b[..|b| / 2], b[|b| / 2..]) + HiLanes(b[..|b| / 2], b[|b| / 2..])
  {
    var h := |b| / 2;
    ZipKeysVals(b[..h]);
    ZipKeysVals(b[h..]);
  }

  lemma {:induction false} PFlipStageLanes<V>(b: seq<Pair<V>>)
    requires |b| % 2 == 0
    ensures PFlipStage(b) == LoLanes(b[..|b| / 2], Rev(b[|b| / 2..])) + Rev(HiLanes(b[..|b| / 2], Rev(b[|b| / 2..])))
  {
    var h := |b| / 2;
    var lo, hi := b[..h], b[h..];
    ZipKeysVals(lo);
    ZipKeysVals(hi);
    ZipRev(KeysOf(hi), ValsOf(hi));
    var c := KvCoex(KeysOf(lo), Rev(KeysOf(hi)), ValsOf(lo), Rev(ValsOf(hi)));
    ZipRev(c.1, c.3);
  }

  /** The half-cleaner stage on pairs moves the keys as the integer half-cleaner stage. */
  lemma {:induction false} PHalfStageKeys<V>(b: seq<Pair<V>>)
    ensures KeysOf(PHalfStage(b)) == HalfStage(KeysOf(b))
  {
    if |b| % 2 == 0 {
      var h := |b| / 2;
      PHalfStageLanes(b);
      KeysOfConcat(LoLanes(b[..h], b[h..]), HiLanes(b[..h], b[h..]));
      KeysOfLoHi(b[..h], b[h..]);
      KeysOfSlices(b, h);
    }
  }

  /** The flip stage on pairs moves the keys as the integer flip stage. */
  lemma {:induction false} PFlipStageKeys<V>(b: seq<Pair<V>>)
    ensures KeysOf(PFlipStage(b)) == FlipStage(KeysOf(b))
  {
    if |b| % 2 == 0 {
      var h := |b| / 2;
      var lo, rhi := b[..h], Rev(b[h..]);
      PFlipStageLanes(b);
      KeysOfConcat(LoLanes(lo, rhi), Rev(HiLanes(lo, rhi)));
      KeysOfRev(HiLanes(lo, rhi));
      KeysOfRev(b[h..]);
      KeysOfLoHi(lo, rhi);
      KeysOfSlices(b, h);
    }
  }

  /** The half-cleaner stage on pairs only rearranges the pairs of its block. */
  lemma {:induction false} PHalfStageMultiset<V>(b: seq<Pair<V>>)
    ensures multiset(PHalfStage(b)) == multiset(b)
  {
    if |b| % 2 == 0 {
      var h := |b| / 2;
      PHalfStageLanes(b);
      LoHiMultiset(b[..h], b[h..]);
      assert b == b[..h] + b[h..];
    }
  }

  /** The flip stage on pairs only rearranges the pairs of its block. */
  lemma {:induction false} PFlipStageMultiset<V>(b: seq<Pair<V>>)
    ensures multiset(PFlipStage(b)) == multiset(b)
  {
    if |b| % 2 == 0 {
      var h := |b| / 2;
      var lo, rhi := b[..h], Rev(b[h..]);
      PFlipStageLanes(b);
      LoHiMultiset(lo, rhi);
      RevMultiset(HiLanes(lo, rhi));
      RevMultiset(b[h..]);
      assert b == b[..h] + b[h..];
    }
  }

  // ---------------------------------------------------------------------
  // Levels of pair stages

  /** The pair stage pf moves keys exactly as the integer stage f does. */
  ghost predicate Projects<V(!new)>(pf: seq<Pair<V>> -> seq<Pair<V>>, f: seq<int> -> seq<int>)
  {
    forall b :: KeysOf(pf(b)) == f(KeysOf(b))
  }

  /** A level of a pair stage moves the keys as the level of its integer stage. */
  lemma {:induction false} LevelKeys<V(!new)>(pf: seq<Pair<V>> -> seq<Pair<V>>, f: seq<int> -> seq<int>, s: seq<Pair<V>>, B: nat)
    requires Projects(pf, f)
    ensures KeysOf(Level(pf, s, B)) == Level(f, KeysOf(s), B)
    decreases |s|
  {
    if !(B == 0 || |s| <= B) {
      LevelKeys(pf, f, s[B..], B);
      KeysOfSlices(s, B);
      KeysOfConcat(pf(s[..B]), Level(pf, s[B..], B));
    }
  }

  lemma StagesProject<V(!new)>()
    ensures Projects(PHalfStage<V>, HalfStage) && Projects(PFlipStage<V>, FlipStage)
    ensures KeepsMultiset(PHalfStage<V>) && KeepsMultiset(PFlipStage<V>)
  {
    forall b: seq<Pair<V>> ensures KeysOf(PHalfStage(b)) == HalfStage(KeysOf(b)) {
      PHalfStageKeys(b);
    }
    forall b: seq<Pair<V>> ensures KeysOf(PFlipStage(b)) == FlipStage(KeysOf(b)) {
      PFlipStageKeys(b);
    }
    forall b: seq<Pair<V>> ensures multiset(PHalfStage(b)) == multiset(b) {
      PHalfStageMultiset(b);
    }
    forall b: seq<Pair<V>> ensures multiset(PFlipStage(b)) == multiset(b) {
      PFlipStageMultiset(b);
    }
  }

  // ---------------------------------------------------------------------
  // Single-register networks

  /** A flip level of a key-value register: cmp_merge with reverse_n<B> of both registers under the upper-half mask. */
  function KvFlipLanes<V>(key: Reg, index: seq<V>, B: nat): (r: (Reg, seq<V>))
    requires |key| == |index| && Multiple(|key|, B)
    ensures |r.0| == |r.1| == |key|
  {
    KvCmpMerge(key, ReverseN(key, B), index, ReverseN(index, B), UpperMask(|key|, B))
  }

  /** A half-cleaner level of a key-value register: cmp_merge with swap_n<B> of both registers. */
  function KvHalfLanes<V>(key: Reg, index: seq<V>, B: nat): (r: (Reg, seq<V>))
    requires |key| == |index| && Multiple(|key|, B) && B % 2 == 0
    ensures |r.0| == |r.1| == |key|
  {
    KvCmpMerge(key, SwapN(key, B), index, SwapN(index, B), UpperMask(|key|, B))
  }

  /** Lane i of cmp_merge, with the pairs of both inputs named. */
  lemma KvCmpMergeAt<V>(in1: Reg, in2: Reg, indexes1: seq<V>, indexes2: seq<V>, mask: Mask, i: nat)
    requires |in1| == |in2| == |indexes1| == |indexes2| == |mask| && i < |in1|
    ensures var r := KvCmpMerge(in1, in2, indexes1, indexes2, mask);
      Scalar.Zip(r.0, r.1)[i] == if mask[i] then Hi(Scalar.Zip(in2, indexes2)[i], Scalar.Zip(in1, indexes1)[i])
                                 else Lo(Scalar.Zip(in1, indexes1)[i], Scalar.Zip(in2, indexes2)[i])
  {
    CmpMergeLanes(in1, in2, mask);
  }

  /** cmp_merge works lane by lane, so it distributes over registers cut at the same lane. */
  lemma {:induction false} KvCmpMergeConcat<V>(a: Reg, b: Reg, c: Reg, d: Reg, va: seq<V>, vb: seq<V>, vc: seq<V>, vd: seq<V>, m: Mask, n: Mask)
    requires |a| == |c| == |va| == |vc| == |m| && |b| == |d| == |vb| == |vd| == |n|
    ensures var r, r1, r2 := KvCmpMerge(a + b, c + d, va + vb, vc + vd, m + n), KvCmpMerge(a, c, va, vc, m), KvCmpMerge(b, d, vb, vd, n);
      Scalar.Zip(r.0, r.1) == Scalar.Zip(r1.0, r1.1) + Scalar.Zip(r2.0, r2.1)
  {
    var r, r1, r2 := KvCmpMerge(a + b, c + d, va + vb, vc + vd, m + n), KvCmpMerge(a, c, va, vc, m), KvCmpMerge(b, d, vb, vd, n);
    var L, L1, L2 := Scalar.Zip(r.0, r.1), Scalar.Zip(r1.0, r1.1), Scalar.Zip(r2.0, r2.1);
    forall i | 0 <= i < |L| ensures L[i] == (L1 + L2)[i] {
      KvCmpMergeAt(a + b, c + d, va + vb, vc + vd, m + n, i);
      if i >= |a| {
        var j := i - |a|;
        KvCmpMergeAt(b, d, vb, vd, n, j);
        assert Scalar.Zip(a + b, va + vb)[i] == Scalar.Zip(b, vb)[j];
        assert Scalar.Zip(c + d, vc + vd)[i] == Scalar.Zip(d, vd)[j];
      } else {
        KvCmpMergeAt(a, c, va, vc, m, i);
        assert Scalar.Zip(a + b, va + vb)[i] == Scalar.Zip(a, va)[i];
        assert Scalar.Zip(c + d, vc + vd)[i] == Scalar.Zip(c, vc)[i];
      }
    }
  }

  /** Lane i of the half-cleaner stage on pairs. */
  lemma PHalfStageLane<V>(b: seq<Pair<V>>, i: nat)
    requires |b| % 2 == 0 && i < |b|
    ensures PHalfStage(b)[i] == if i >= |b| / 2 then Hi(b[i - |b| / 2], b[i]) else Lo(b[i], b[i + |b| / 2])
  {
    PHalfStageLanes(b);
  }

  /** Lane i of the flip stage on pairs. */
  lemma PFlipStageLane<V>(b: seq<Pair<V>>, i: nat)
    requires |b| % 2 == 0 && i < |b|
    ensures PFlipStage(b)[i] == if i >= |b| / 2 then Hi(b[|b| - 1 - i], b[i]) else Lo(b[i], b[|b| - 1 - i])
  {
    PFlipStageLanes(b);
    FlipLanesAt(b, PFlipStage(b), i);
  }

  lemma FlipLanesAt<V>(b: seq<Pair<V>>, r: seq<Pair<V>>, i: nat)
    requires |b| % 2 == 0 && i < |b|
    requires r == LoLanes(b[..|b| / 2], Rev(b[|b| / 2..])) + Rev(HiLanes(b[..|b| / 2], Rev(b[|b| / 2..])))
    ensures r[i] == if i >= |b| / 2 then Hi(b[|b| - 1 - i], b[i]) else Lo(b[i], b[|b| - 1 - i])
  {
    var h := |b| / 2;
    var lo, rhi := b[..h], Rev(b[h..]);
    if i >= h {
      var j := |b| - 1 - i;
      assert r[i] == HiLanes(lo, rhi)[j];
      assert lo[j] == b[j] && rhi[j] == b[i];
    } else {
      assert lo[i] == b[i] && rhi[i] == b[|b| - 1 - i];
    }
  }

  /** Lane i of a block whose halves are swapped. */
  lemma SwappedAt<T>(a: seq<T>, i: nat)
    requires |a| % 2 == 0 && i < |a|
    ensures (a[|a| / 2..] + a[..|a| / 2])[i] == if i >= |a| / 2 then a[i - |a| / 2] else a[i + |a| / 2]
  {
  }

  /** On one block, cmp_merge with the half-swapped block is the half-cleaner stage on pairs. */
  lemma KvHalfBlock<V>(k: Reg, v: seq<V>)
    requires |k| == |v| && |k| % 2 == 0 && Multiple(|k|, |k|)
    ensures var h := |k| / 2; var r := KvCmpMerge(k, k[h..] + k[..h], v, v[h..] + v[..h], UpperMask(|k|, |k|));
      Scalar.Zip(r.0, r.1) == PHalfStage(Scalar.Zip(k, v))
  {
    var h := |k| / 2;
    var r := KvCmpMerge(k, k[h..] + k[..h], v, v[h..] + v[..h], UpperMask(|k|, |k|));
    var L, R := Scalar.Zip(r.0, r.1), PHalfStage(Scalar.Zip(k, v));
    forall i | 0 <= i < |k| ensures L[i] == R[i] {
      KvHalfMergeAt(k, v, i);
      PHalfZipLane(k, v, i);
    }
  }

  lemma KvHalfMergeAt<V>(k: Reg, v: seq<V>, i: nat)
    requires |k| == |v| && |k| % 2 == 0 && Multiple(|k|, |k|) && i < |k|
    ensures var h := |k| / 2; var b := Scalar.Zip(k, v);
      var r := KvCmpMerge(k, k[h..] + k[..h], v, v[h..] + v[..h], UpperMask(|k|, |k|));
      Scalar.Zip(r.0, r.1)[i] == if i >= h then Hi(b[i - h], b[i]) else Lo(b[i], b[i + h])
  {
    var h := |k| / 2;
    var sk, sv := k[h..] + k[..h], v[h..] + v[..h];
    KvCmpMergeAt(k, sk, v, sv, UpperMask(|k|, |k|), i);
    UpperMaskBlock(|k|);
    ZipSwapAt(k, v, i);
  }

  lemma ZipSwapAt<V>(k: Reg, v: seq<V>, i: nat)
    requires |k| == |v| && |k| % 2 == 0 && i < |k|
    ensures var h := |k| / 2; var b := Scalar.Zip(k, v);
      Scalar.Zip(k[h..] + k[..h], v[h..] + v[..h])[i] == if i >= h then b[i - h] else b[i + h]
  {
    SwappedAt(k, i);
    SwappedAt(v, i);
  }

  lemma PHalfZipLane<V>(k: Reg, v: seq<V>, i: nat)
    requires |k| == |v| && |k| % 2 == 0 && i < |k|
    ensures var h := |k| / 2; var b := Scalar.Zip(k, v);
      PHalfStage(b)[i] == if i >= h then Hi(b[i - h], b[i]) else Lo(b[i], b[i + h])
  {
    PHalfStageLane(Scalar.Zip(k, v), i);
  }

  /** On one block, cmp_merge with the reversed block is the flip stage on pairs. */
  lemma KvFlipBlock<V>(k: Reg, v: seq<V>)
    requires |k| == |v| && |k| % 2 == 0 && Multiple(|k|, |k|)
    ensures var r := KvCmpMerge(k, Rev(k), v, Rev(v), UpperMask(|k|, |k|));
      Scalar.Zip(r.0, r.1) == PFlipStage(Scalar.Zip(k, v))
  {
    var r := KvCmpMerge(k, Rev(k), v, Rev(v), UpperMask(|k|, |k|));
    var L, R := Scalar.Zip(r.0, r.1), PFlipStage(Scalar.Zip(k, v));
    forall i | 0 <= i < |k| ensures L[i] == R[i] {
      KvFlipMergeAt(k, v, i);
      PFlipZipLane(k, v, i);
    }
  }

  lemma KvFlipMergeAt<V>(k: Reg, v: seq<V>, i: nat)
    requires |k| == |v| && |k| % 2 == 0 && Multiple(|k|, |k|) && i < |k|
    ensures var b := Scalar.Zip(k, v);
      var r := KvCmpMerge(k, Rev(k), v, Rev(v), UpperMask(|k|, |k|));
      Scalar.Zip(r.0, r.1)[i] == if i >= |k| / 2 then Hi(b[|k| - 1 - i], b[i]) else Lo(b[i], b[|k| - 1 - i])
  {
    KvCmpMergeAt(k, Rev(k), v, Rev(v), UpperMask(|k|, |k|), i);
    UpperMaskBlock(|k|);
    ZipRevAt(k, v, i);
  }

  lemma ZipRevAt<V>(k: Reg, v: seq<V>, i: nat)
    requires |k| == |v| && i < |k|
    ensures Scalar.Zip(Rev(k), Rev(v))[i] == Scalar.Zip(k, v)[|k| - 1 - i]
  {
  }

  lemma PFlipZipLane<V>(k: Reg, v: seq<V>, i: nat)
    requires |k| == |v| && |k| % 2 == 0 && i < |k|
    ensures var b := Scalar.Zip(k, v);
      PFlipStage(b)[i] == if i >= |k| / 2 then Hi(b[|k| - 1 - i], b[i]) else Lo(b[i], b[|k| - 1 - i])
  {
    PFlipStageLane(Scalar.Zip(k, v), i);
  }

  lemma ZipConcat<V>(a: Reg, b: Reg, va: seq<V>, vb: seq<V>)
    requires |a| == |va| && |b| == |vb|
    ensures Scalar.Zip(a + b, va + vb) == Scalar.Zip(a, va) + Scalar.Zip(b, vb)
  {
  }

  /** Zipping commutes with cutting off the first block. */
  lemma ZipSplit<V>(k: Reg, v: seq<V>, B: nat)
    requires |k| == |v| && B <= |k|
    ensures Scalar.Zip(k, v) == Scalar.Zip(k[..B], v[..B]) + Scalar.Zip(k[B..], v[B..])
  {
    assert k == k[..B] + k[B..] && v == v[..B] + v[B..];
    ZipConcat(k[..B], k[B..], v[..B], v[B..]);
  }

  /** The first block of a half-cleaner register level, then the rest. */
  lemma KvHalfLanesCons<V>(k: Reg, v: seq<V>, B: nat)
    requires |k| == |v| && Multiple(|k|, B) && B % 2 == 0 && |k| > 0
    ensures Multiple(|k| - B, B) && |k| >= B
    ensures Scalar.Zip(KvHalfLanes(k, v, B).0, KvHalfLanes(k, v, B).1)
         == PHalfStage(Scalar.Zip(k[..B], v[..B])) + Scalar.Zip(KvHalfLanes(k[B..], v[B..], B).0, KvHalfLanes(k[B..], v[B..], B).1)
  {
    var h := B / 2;
    var a, rk, va, rv := k[..B], k[B..], v[..B], v[B..];
    BlockCons(k, B);
    BlockCons(v, B);
    MultipleSelf(B);
    var sk, sv := a[h..] + a[..h], va[h..] + va[..h];
    KvCmpMergeConcat(a, rk, sk, SwapN(rk, B), va, rv, sv, SwapN(rv, B), UpperMask(B, B), UpperMask(|rk|, B));
    KvHalfBlock(a, va);
  }

  /** The first block of a flip register level, then the rest. */
  lemma KvFlipLanesCons<V>(k: Reg, v: seq<V>, B: nat)
    requires |k| == |v| && Multiple(|k|, B) && B % 2 == 0 && |k| > 0
    ensures Multiple(|k| - B, B) && |k| >= B
    ensures Scalar.Zip(KvFlipLanes(k, v, B).0, KvFlipLanes(k, v, B).1)
         == PFlipStage(Scalar.Zip(k[..B], v[..B])) + Scalar.Zip(KvFlipLanes(k[B..], v[B..], B).0, KvFlipLanes(k[B..], v[B..], B).1)
  {
    var a, rk, va, rv := k[..B], k[B..], v[..B], v[B..];
    BlockCons(k, B);
    BlockCons(v, B);
    MultipleSelf(B);
    KvCmpMergeConcat(a, rk, Rev(a), ReverseN(rk, B), va, rv, Rev(va), ReverseN(rv, B), UpperMask(B, B), UpperMask(|rk|, B));
    KvFlipBlock(a, va);
  }

  /** cmp_merge with swap_n<B> on a key-value register is a half-cleaner level of pair blocks. */
  lemma {:induction false} KvHalfLanesLevel<V(!new)>(k: Reg, v: seq<V>, B: nat)
    requires |k| == |v| && Multiple(|k|, B) && B % 2 == 0
    ensures Scalar.Zip(KvHalfLanes(k, v, B).0, KvHalfLanes(k, v, B).1) == Level(PHalfStage, Scalar.Zip(k, v), B)
    decreases |k|
  {
    if |k| > 0 {
      var a, rk, va, rv := k[..B], k[B..], v[..B], v[B..];
      KvHalfLanesCons(k, v, B);
      var z, za, zr := Scalar.Zip(k, v), Scalar.Zip(a, va), Scalar.Zip(rk, rv);
      ZipSplit(k, v, B);
      if |rk| == 0 {
        assert z == za;
        LevelBlock(PHalfStage, za);
      } else {
        KvHalfLanesLevel(rk, rv, B);
        LevelCons(PHalfStage, za, zr, B);
      }
    }
  }

  /** cmp_merge with reverse_n<B> on a key-value register is a flip level of pair blocks. */
  lemma {:induction false} KvFlipLanesLevel<V(!new)>(k: Reg, v: seq<V>, B: nat)
    requires |k| == |v| && Multiple(|k|, B) && B % 2 == 0
    ensures Scalar.Zip(KvFlipLanes(k, v, B).0, KvFlipLanes(k, v, B).1) == Level(PFlipStage, Scalar.Zip(k, v), B)
    decreases |k|
  {
    if |k| > 0 {
      var a, rk, va, rv := k[..B], k[B..], v[..B], v[B..];
      KvFlipLanesCons(k, v, B);
      var z, za, zr := Scalar.Zip(k, v), Scalar.Zip(a, va), Scalar.Zip(rk, rv);
      ZipSplit(k, v, B);
      if |rk| == 0 {
        assert z == za;
        LevelBlock(PFlipStage, za);
      } else {
        KvFlipLanesLevel(rk, rv, B);
        LevelCons(PFlipStage, za, zr, B);
      }
    }
  }

  /** On 2-lane blocks swapping the halves is reversing them, so swap_n<2> and reverse_n<2> agree. */
  lemma {:induction false} SwapTwo<T>(v: seq<T>)
    requires Multiple(|v|, 2)
    ensures SwapN(v, 2) == ReverseN(v, 2)
    decreases |v|
  {
    if |v| > 0 {
      SwapTwo(v[2..]);
      assert v[1..2] + v[..1] == Rev(v[..2]);
    }
  }

  /** A half-cleaner register level moves the keys as the integer level and keeps the pairs. */
  lemma KvHalfLanesKeeps<V(!new)>(k: Reg, v: seq<V>, B: nat)
    requires |k| == |v| && Multiple(|k|, B) && B % 2 == 0
    ensures KvHalfLanes(k, v, B).0 == HalfLanes(k, B)
    ensures multiset(Scalar.Zip(KvHalfLanes(k, v, B).0, KvHalfLanes(k, v, B).1)) == multiset(Scalar.Zip(k, v))
  {
    KvHalfLanesLevel(k, v, B);
    StagesProject<V>();
    LevelMultiset(PHalfStage<V>, Scalar.Zip(k, v), B);
  }

  /** A flip register level moves the keys as the integer level and keeps the pairs. */
  lemma KvFlipLanesKeeps<V(!new)>(k: Reg, v: seq<V>, B: nat)
    requires |k| == |v| && Multiple(|k|, B) && B % 2 == 0
    ensures KvFlipLanes(k, v, B).0 == FlipLanes(k, B)
    ensures multiset(Scalar.Zip(KvFlipLanes(k, v, B).0, KvFlipLanes(k, v, B).1)) == multiset(Scalar.Zip(k, v))
  {
    KvFlipLanesLevel(k, v, B);
    StagesProject<V>();
    LevelMultiset(PFlipStage<V>, Scalar.Zip(k, v), B);
  }

  /**
   * sort_reg_8lanes of a key register and its value register: swap_n<2>/0xAA,
   * NETWORK_64BIT_1 (reverse_n<4>)/0xCC, swap_n<2>/0xAA, reverse/0xF0,
   * NETWORK_64BIT_3 (swap_n<4>)/0xCC, swap_n<2>/0xAA.
   */
  function KvSortReg8Lanes<V>(key: Reg, index: seq<V>): (r: (Reg, seq<V>))
    requires |key| == |index| == NUMLANES
    ensures |r.0| == |r.1| == NUMLANES
  {
    var s := KvHalfLanes(key, index, 2);
    var s := KvFlipLanes(s.0, s.1, 4);
    var s := KvHalfLanes(s.0, s.1, 2);
    var s := KvFlipLanes(s.0, s.1, 8);
    var s := KvHalfLanes(s.0, s.1, 4);
    KvHalfLanes(s.0, s.1, 2)
  }

  /**
   * bitonic_merge_reg_8lanes of a key register and its value register:
   * NETWORK_64BIT_4 (swap_n<8>)/0xF0, NETWORK_64BIT_3 (swap_n<4>)/0xCC, swap_n<2>/0xAA.
   */
  function KvBitonicMergeReg8Lanes<V>(key: Reg, index: seq<V>): (r: (Reg, seq<V>))
    requires |key| == |index| == NUMLANES
    ensures |r.0| == |r.1| == NUMLANES
  {
    var s := KvHalfLanes(key, index, 8);
    var s := KvHalfLanes(s.0, s.1, 4);
    KvHalfLanes(s.0, s.1, 2)
  }

  /**
   * The key register leaves sort_reg_8lanes as the integer network leaves it,
   * so sorted, and the (key, value) pairs are only moved between lanes.
   */
  lemma KvSortReg8LanesSorts<V(!new)>(key: Reg, index: seq<V>)
    requires |key| == |index| == NUMLANES
    ensures KvSortReg8Lanes(key, index).0 == SortReg8Lanes(key)
    ensures Sorted(KvSortReg8Lanes(key, index).0)
    ensures multiset(Scalar.Zip(KvSortReg8Lanes(key, index).0, KvSortReg8Lanes(key, index).1)) == multiset(Scalar.Zip(key, index))
  {
    var s1 := KvHalfLanes(key, index, 2);
    KvHalfLanesKeeps(key, index, 2);
    SwapTwo(key);
    var s2 := KvFlipLanes(s1.0, s1.1, 4);
    KvFlipLanesKeeps(s1.0, s1.1, 4);
    var s3 := KvHalfLanes(s2.0, s2.1, 2);
    KvHalfLanesKeeps(s2.0, s2.1, 2);
    var s4 := KvFlipLanes(s3.0, s3.1, 8);
    KvFlipLanesKeeps(s3.0, s3.1, 8);
    var s5 := KvHalfLanes(s4.0, s4.1, 4);
    KvHalfLanesKeeps(s4.0, s4.1, 4);
    KvHalfLanesKeeps(s5.0, s5.1, 2);
    SortReg8LanesSorts(key);
  }

  /**
   * The key register leaves bitonic_merge_reg_8lanes as the integer network
   * leaves it, so a bitonic register ends sorted, and the pairs are only moved.
   */
  lemma KvBitonicMergeReg8LanesKeys<V(!new)>(key: Reg, index: seq<V>)
    requires |key| == |index| == NUMLANES
    ensures KvBitonicMergeReg8Lanes(key, index).0 == BitonicMergeReg8Lanes(key)
    ensures multiset(Scalar.Zip(KvBitonicMergeReg8Lanes(key, index).0, KvBitonicMergeReg8Lanes(key, index).1)) == multiset(Scalar.Zip(key, index))
  {
    var s1 := KvHalfLanes(key, index, 8);
    KvHalfLanesKeeps(key, index, 8);
    var s2 := KvHalfLanes(s1.0, s1.1, 4);
    KvHalfLanesKeeps(s1.0, s1.1, 4);
    KvHalfLanesKeeps(s2.0, s2.1, 2);
  }

  // ---------------------------------------------------------------------
  // Many registers: the lanes of numVecs registers, register i holding
  // lanes NUMLANES * i ..

  lemma PairStagesKeepLength<V(!new)>()
    ensures KeepsLength(PHalfStage<V>) && KeepsLength(PFlipStage<V>)
  {
  }

  /** sort_vec_dispatch on the lanes of one register. */
  function SortRegPairs<V>(b: seq<Pair<V>>): (r: seq<Pair<V>>)
    ensures |r| == |b|
  {
    if |b| != NUMLANES then b
    else
      var s := KvSortReg8Lanes(KeysOf(b), ValsOf(b));
      Scalar.Zip(s.0, s.1)
  }

  /** bitonic_merge_dispatch on the lanes of one register. */
  function MergeRegPairs<V>(b: seq<Pair<V>>): (r: seq<Pair<V>>)
    ensures |r| == |b|
  {
    if |b| != NUMLANES then b
    else
      var s := KvBitonicMergeReg8Lanes(KeysOf(b), ValsOf(b));
      Scalar.Zip(s.0, s.1)
  }

  /** The key parts of SortRegPairs and MergeRegPairs. */
  function SortRegKeys(x: Reg): (r: Reg)
  {
    if |x| != NUMLANES then x else SortReg8Lanes(x)
  }

  function MergeRegKeys(x: Reg): (r: Reg)
  {
    if |x| != NUMLANES then x else BitonicMergeReg8Lanes(x)
  }

  /** The register networks on pairs move keys as the integer networks and keep the pairs. */
  lemma RegPairsProject<V(!new)>()
    ensures Projects(SortRegPairs<V>, SortRegKeys) && Projects(MergeRegPairs<V>, MergeRegKeys)
    ensures KeepsMultiset(SortRegPairs<V>) && KeepsMultiset(MergeRegPairs<V>)
    ensures KeepsLength(SortRegPairs<V>) && KeepsLength(MergeRegPairs<V>)
  {
    forall b: seq<Pair<V>> | |b| == NUMLANES
      ensures KeysOf(SortRegPairs(b)) == SortRegKeys(KeysOf(b)) && multiset(SortRegPairs(b)) == multiset(b)
    {
      KvSortReg8LanesSorts(KeysOf(b), ValsOf(b));
      var s := KvSortReg8Lanes(KeysOf(b), ValsOf(b));
      ZipParts(s.0, s.1);
      ZipKeysVals(b);
    }
    forall b: seq<Pair<V>> | |b| == NUMLANES
      ensures KeysOf(MergeRegPairs(b)) == MergeRegKeys(KeysOf(b)) && multiset(MergeRegPairs(b)) == multiset(b)
    {
      KvBitonicMergeReg8LanesKeys(KeysOf(b), ValsOf(b));
      var s := KvBitonicMergeReg8Lanes(KeysOf(b), ValsOf(b));
      ZipParts(s.0, s.1);
      ZipKeysVals(b);
    }
  }

  /**
   * bitonic_clean_n_vec<numVecs> with num = numVecs / 2: for num = numVecs / 2,
   * ..., 2, COEX of register i + j with register i + j + num / 2 in every group
   * of num registers, a half-cleaner level with blocks of NUMLANES * num lanes.
   */
  function KvCleanNVec<V(!new)>(w: seq<Pair<V>>, num: nat): (r: seq<Pair<V>>)
    ensures |r| == |w|
    decreases num
  {
    if num < 2 then w
    else
      PairStagesKeepLength<V>();
      KvCleanNVec(Level(PHalfStage, w, NUMLANES * num), num / 2)
  }

  /**
   * bitonic_merge_n_vec<numVecs> on the lanes b of numVecs >= 2 registers:
   * COEX of register i with the reversed register numVecs - 1 - i, reversed
   * back (the flip stage over all lanes; for two registers the same), then the
   * cleaner, then bitonic_merge_dispatch on every register.
   */
  function KvMergeNVec<V(!new)>(b: seq<Pair<V>>): (r: seq<Pair<V>>)
    ensures |r| == |b|
  {
    if !(IsPow2(|b|) && |b| >= 2 * NUMLANES) then b
    else
      RegPairsProject<V>();
      Level(MergeRegPairs, KvCleanNVec(PFlipStage(b), (|b| / NUMLANES) / 2), NUMLANES)
  }

  /** The key part of KvMergeNVec: the recursive bitonic merger of module Bitonic. */
  function MergeBlockKeys(x: Reg): (r: Reg)
  {
    if IsPow2(|x|) && |x| >= 2 * NUMLANES then MergeRec(x) else x
  }

  /**
   * bitonic_fullmerge_n_vec<numVecs, numPer>: bitonic_merge_n_vec<numPer> on
   * every group of numPer registers, for numPer = 2, 4, ..., numVecs.
   */
  function KvFullmerge<V(!new)>(P: seq<Pair<V>>, numPer: nat, numVecs: nat): (r: seq<Pair<V>>)
    ensures |r| == |P|
    decreases numVecs - numPer
  {
    if numPer == 0 || numPer > numVecs then P
    else
      KvMergeKeepsLength<V>();
      KvFullmerge(Level(KvMergeNVec, P, NUMLANES * numPer), 2 * numPer, numVecs)
  }

  lemma KvMergeKeepsLength<V(!new)>()
    ensures KeepsLength(KvMergeNVec<V>)
  {
  }

  /**
   * The network part of kvsort_n_vec and argsort_n_vec on the lanes P of
   * numVecs registers: sort_vec_dispatch on every register, then the full merger.
   */
  function KvNet<V(!new)>(P: seq<Pair<V>>, numVecs: nat): (r: seq<Pair<V>>)
    ensures |r| == |P|
  {
    RegPairsProject<V>();
    KvFullmerge(Level(SortRegPairs, P, NUMLANES), 2, numVecs)
  }

  // ---------------------------------------------------------------------
  // The key part of the many-register network

  /** A power of two is 2^k for some k. */
  lemma {:induction false} Log2(n: nat) returns (k: nat)
    requires IsPow2(n)
    ensures n == Pow2(k)
    decreases n
  {
    if n == 1 {
      k := 0;
    } else {
      var k' := Log2(n / 2);
      k := k' + 1;
    }
  }

  /** The cleaner on 2^j registers is the half-cleaner levels with blocks 2^(j+3), ..., 16. */
  lemma {:induction false} KvCleanNVecKeys<V(!new)>(w: seq<Pair<V>>, num: nat, j: nat, k: nat)
    requires num == Pow2(j) && k == j + 3
    ensures KeysOf(KvCleanNVec(w, num)) == Cascade(HalfStage, KeysOf(w), k, 3)
    decreases j
  {
    if j == 0 {
      assert num == 1;
    } else {
      var B, half := Pow2(k), Pow2(j - 1);
      var L := Level(PHalfStage, w, B);
      KvCleanNVecKeys(L, half, j - 1, k - 1);
      KvCleanNVecStep(w, num, j, k, B, half, L);
    }
  }

  /** One level of the cleaner, given the keys of the cleaner below it. */
  lemma KvCleanNVecStep<V(!new)>(w: seq<Pair<V>>, num: nat, j: nat, k: nat, B: nat, half: nat, L: seq<Pair<V>>)
    requires j > 0 && num == Pow2(j) && k == j + 3 && B == Pow2(k) && half == Pow2(j - 1) && L == Level(PHalfStage, w, B)
    requires KeysOf(KvCleanNVec(L, half)) == Cascade(HalfStage, KeysOf(L), k - 1, 3)
    ensures KeysOf(KvCleanNVec(w, num)) == Cascade(HalfStage, KeysOf(w), k, 3)
  {
    KvCleanNVecUnfold(w, num, j, B, half);
    var t := KeysOf(L);
    assert t == Level(HalfStage, KeysOf(w), B) by {
      StagesProject<V>();
      LevelKeys(PHalfStage, HalfStage, w, B);
    }
    CascadeStep(HalfStage, KeysOf(w), t, k, k - 1, 3);
  }

  /** The first level of the cleaner on 2^j registers, then the cleaner on half as many. */
  lemma KvCleanNVecUnfold<V(!new)>(w: seq<Pair<V>>, num: nat, j: nat, B: nat, half: nat)
    requires j > 0 && num == Pow2(j) && B == Pow2(j + 3) && half == Pow2(j - 1)
    ensures KvCleanNVec(w, num) == KvCleanNVec(Level(PHalfStage, w, B), half)
  {
    NetworkSort.Pow2Half(j);
    NetworkSort.Pow2Plus3(j);
  }

  /** bitonic_merge_dispatch on every register is the three lowest half-cleaner levels. */
  lemma {:induction false} MergeRegKeysLevel(y: Reg)
    requires Multiple(|y|, NUMLANES) && |y| > 0
    ensures Level(MergeRegKeys, y, NUMLANES) == Descend(HalfStage, y, 3)
    decreases |y|
  {
    var a, rest := y[..NUMLANES], y[NUMLANES..];
    StagesKeepLength();
    BitonicMergeReg8LanesLevels(a);
    if |rest| == 0 {
      assert y == a;
    } else {
      assert y == a + rest;
      assert Multiple(|rest|, NUMLANES);
      MergeRegKeysLevel(rest);
      LevelCons(MergeRegKeys, a, rest, NUMLANES);
      assert Multiple(8, Pow2(3)) by { MultipleSelf(8); }
      DescendConcat(HalfStage, a, rest, 3);
    }
  }

  /** The keys of bitonic_merge_n_vec are the recursive bitonic merge of the keys. */
  lemma KvMergeNVecKeys<V(!new)>(b: seq<Pair<V>>)
    ensures KeysOf(KvMergeNVec(b)) == MergeBlockKeys(KeysOf(b))
  {
    if IsPow2(|b|) && |b| >= 2 * NUMLANES {
      var M := Log2(|b|);
      if M <= 3 {
        Pow2Small(M);
      }
      var F := PFlipStage(b);
      var C := KvCleanNVec(F, Pow2(M - 4));
      KvMergeNVecUnfold(b, M, Pow2(M - 4));
      KvMergeNVecKeysOf(b, F, C, M);
    }
  }

  lemma {:induction false} Pow2Small(M: nat)
    requires M <= 3
    ensures Pow2(M) <= NUMLANES
  {
    if M > 0 {
      Pow2Small(M - 1);
    }
  }

  /** bitonic_merge_n_vec on 2^M lanes, that is 2^(M-3) registers. */
  lemma KvMergeNVecUnfold<V(!new)>(b: seq<Pair<V>>, M: nat, num: nat)
    requires |b| == Pow2(M) && M >= 4 && num == Pow2(M - 4)
    ensures KvMergeNVec(b) == Level(MergeRegPairs, KvCleanNVec(PFlipStage(b), num), NUMLANES)
  {
    Pow2IsPow2(M);
    NetworkSort.Pow2Plus3(M - 3);
    NetworkSort.Pow2Half(M - 3);
    assert (|b| / NUMLANES) / 2 == num;
  }

  lemma KvMergeNVecKeysOf<V(!new)>(b: seq<Pair<V>>, F: seq<Pair<V>>, C: seq<Pair<V>>, M: nat)
    requires |b| == Pow2(M) && M >= 4 && F == PFlipStage(b) && C == KvCleanNVec(F, Pow2(M - 4))
    ensures IsPow2(|b|)
    ensures KeysOf(Level(MergeRegPairs, C, NUMLANES)) == MergeRec(KeysOf(b))
  {
    var K := KeysOf(b);
    var X := Cascade(HalfStage, FlipStage(K), M - 1, 3);
    KvCleanedKeys(b, F, C, M, K, X);
    KvMergedKeys(C, X);
    KvMergeTail(K, M);
  }

  lemma KvCleanedKeys<V(!new)>(b: seq<Pair<V>>, F: seq<Pair<V>>, C: seq<Pair<V>>, M: nat, K: Reg, X: Reg)
    requires M >= 4 && F == PFlipStage(b) && C == KvCleanNVec(F, Pow2(M - 4))
    requires K == KeysOf(b) && X == Cascade(HalfStage, FlipStage(K), M - 1, 3)
    ensures KeysOf(C) == X
  {
    PFlipStageKeys(b);
    KvCleanNVecKeys(F, Pow2(M - 4), M - 4, M - 1);
  }

  lemma KvMergedKeys<V(!new)>(C: seq<Pair<V>>, X: Reg)
    requires KeysOf(C) == X
    ensures KeysOf(Level(MergeRegPairs, C, NUMLANES)) == Level(MergeRegKeys, X, NUMLANES)
  {
    RegPairsProject<V>();
    LevelKeys(MergeRegPairs, MergeRegKeys, C, NUMLANES);
  }

  /** The integer chain behind KvMergeNVecKeys: flip level, cleaner, per-register merge. */
  lemma KvMergeTail(K: Reg, M: nat)
    requires |K| == Pow2(M) && M >= 4
    ensures IsPow2(|K|)
    ensures Level(MergeRegKeys, Cascade(HalfStage, FlipStage(K), M - 1, 3), NUMLANES) == MergeRec(K)
  {
    Pow2IsPow2(M);
    var F := FlipStage(K);
    var C := Cascade(HalfStage, F, M - 1, 3);
    CascadeLanes(F, M);
    calc {
      Level(MergeRegKeys, C, NUMLANES);
      { MergeRegKeysLevel(C); }
      Descend(HalfStage, C, 3);
      { DescendSplit(HalfStage, F, M - 1, 3); }
      Descend(HalfStage, F, M - 1);
      { MergeLevelsTop(K, M); }
      MergeLevels(K, M);
      { MergeLevelsRec(K, M); }
      MergeRec(K);
    }
  }

  /** The cascade keeps the length, a whole number of registers. */
  lemma CascadeLanes(F: Reg, M: nat)
    requires |F| == Pow2(M) && M >= 4
    ensures Multiple(|Cascade(HalfStage, F, M - 1, 3)|, NUMLANES) && |Cascade(HalfStage, F, M - 1, 3)| > 0
  {
    StagesKeepLength();
    NetworkSort.Pow2Plus3(M - 3);
    NetworkSort.Pow2Divides(3, M);
    assert Pow2(3) == NUMLANES;
  }

  /** The merge levels on one whole block: its flip stage, then the half-cleaner levels. */
  lemma MergeLevelsTop(K: Reg, M: nat)
    requires |K| == Pow2(M) && M >= 1
    ensures MergeLevels(K, M) == Descend(HalfStage, FlipStage(K), M - 1)
  {
    LevelBlock(FlipStage, K);
  }

  // ---------------------------------------------------------------------
  // The pairs are only moved

  lemma {:induction false} KvCleanNVecMultiset<V(!new)>(w: seq<Pair<V>>, num: nat)
    ensures multiset(KvCleanNVec(w, num)) == multiset(w)
    decreases num
  {
    if num >= 2 {
      StagesProject<V>();
      var L := Level(PHalfStage, w, NUMLANES * num);
      LevelMultiset(PHalfStage, w, NUMLANES * num);
      KvCleanNVecMultiset(L, num / 2);
    }
  }

  lemma KvMergeNVecMultiset<V(!new)>(b: seq<Pair<V>>)
    ensures multiset(KvMergeNVec(b)) == multiset(b)
  {
    if IsPow2(|b|) && |b| >= 2 * NUMLANES {
      var F := PFlipStage(b);
      var C := KvCleanNVec(F, (|b| / NUMLANES) / 2);
      PFlipStageMultiset(b);
      KvCleanNVecMultiset(F, (|b| / NUMLANES) / 2);
      RegPairsProject<V>();
      LevelMultiset(MergeRegPairs, C, NUMLANES);
    }
  }

  /** bitonic_merge_n_vec moves the keys as MergeRec and keeps the pairs. */
  lemma MergeNVecProject<V(!new)>()
    ensures Projects(KvMergeNVec<V>, MergeBlockKeys) && KeepsMultiset(KvMergeNVec<V>) && KeepsLength(KvMergeNVec<V>)
  {
    forall b: seq<Pair<V>> ensures KeysOf(KvMergeNVec(b)) == MergeBlockKeys(KeysOf(b)) {
      KvMergeNVecKeys(b);
    }
    forall b: seq<Pair<V>> ensures multiset(KvMergeNVec(b)) == multiset(b) {
      KvMergeNVecMultiset(b);
    }
  }

  // ---------------------------------------------------------------------
  // The keys end sorted

  /** Every B-block of s is ascending; the last block may be shorter. */
  predicate BlocksSorted(s: seq<int>, B: nat)
    decreases |s|
  {
    B > 0 && if |s| <= B then Sorted(s) else Sorted(s[..B]) && BlocksSorted(s[B..], B)
  }

  lemma BlocksSortedCons(a: Reg, rest: Reg, B: nat)
    requires |a| == B > 0 && Sorted(a) && BlocksSorted(rest, B)
    ensures BlocksSorted(a + rest, B)
  {
    if |rest| == 0 {
      assert a + rest == a;
    } else {
      assert (a + rest)[..B] == a && (a + rest)[B..] == rest;
    }
  }

  /** Sorted blocks of half the size, seen from the first block of B. */
  lemma BlocksHalves(K: Reg, B: nat)
    requires B >= 2 && B % 2 == 0 && Multiple(|K|, B) && |K| > 0 && BlocksSorted(K, B / 2)
    ensures |K| >= B && Sorted(K[..B][..B / 2]) && Sorted(K[..B][B / 2..]) && BlocksSorted(K[B..], B / 2)
  {
    var h := B / 2;
    assert |K| >= B;
    assert K[..B][..h] == K[..h];
    var K' := K[h..];
    assert K[..B][h..] == K'[..h];
    assert K[B..] == K'[h..];
  }

  /** sort_vec_dispatch on every register leaves every register ascending. */
  lemma {:induction false} SortRegsSorted(K: Reg)
    requires Multiple(|K|, NUMLANES)
    ensures BlocksSorted(Level(SortRegKeys, K, NUMLANES), NUMLANES)
    decreases |K|
  {
    if |K| == NUMLANES {
      SortReg8LanesSorts(K);
    } else if |K| > NUMLANES {
      var a, rest := K[..NUMLANES], K[NUMLANES..];
      SortReg8LanesSorts(a);
      assert K == a + rest;
      SortRegsSorted(rest);
      LevelCons(SortRegKeys, a, rest, NUMLANES);
      BlocksSortedCons(SortRegKeys(a), Level(SortRegKeys, rest, NUMLANES), NUMLANES);
    }
  }

  /** A merge level over blocks whose halves are ascending leaves every block ascending. */
  lemma {:induction false} MergeLevelSorted(K: Reg, B: nat)
    requires B >= 2 * NUMLANES && IsPow2(B) && Multiple(|K|, B) && BlocksSorted(K, B / 2)
    ensures BlocksSorted(Level(MergeBlockKeys, K, B), B)
    decreases |K|
  {
    if |K| > 0 {
      var a, rest := K[..B], K[B..];
      BlocksHalves(K, B);
      MergeSorts(a);
      if |rest| == 0 {
        assert K == a;
      } else {
        assert K == a + rest;
        MergeLevelSorted(rest, B);
        LevelCons(MergeBlockKeys, a, rest, B);
        BlocksSortedCons(MergeBlockKeys(a), Level(MergeBlockKeys, rest, B), B);
      }
    }
  }

  /** One round of the full merger: the groups of numPer registers end ascending. */
  lemma KvFullmergeRound<V(!new)>(P: seq<Pair<V>>, L: seq<Pair<V>>, numPer: nat, i: nat, numVecs: nat, m: nat)
    requires numPer == Pow2(i) && 1 <= i <= m && numVecs == Pow2(m) && |P| == NUMLANES * numVecs
    requires BlocksSorted(KeysOf(P), NUMLANES * (numPer / 2))
    requires L == Level(KvMergeNVec, P, NUMLANES * numPer)
    ensures |L| == |P| && multiset(L) == multiset(P)
    ensures BlocksSorted(KeysOf(L), NUMLANES * numPer)
  {
    var B := NUMLANES * numPer;
    RoundBlock(numPer, i, numVecs, m);
    assert multiset(L) == multiset(P) && KeysOf(L) == Level(MergeBlockKeys, KeysOf(P), B) by {
      MergeNVecProject<V>();
      LevelMultiset(KvMergeNVec, P, B);
      LevelKeys(KvMergeNVec, MergeBlockKeys, P, B);
    }
    MergeLevelSorted(KeysOf(P), B);
  }

  /** The block of a merge round is a power of two that divides the input. */
  lemma RoundBlock(numPer: nat, i: nat, numVecs: nat, m: nat)
    requires numPer == Pow2(i) && 1 <= i <= m && numVecs == Pow2(m)
    ensures NUMLANES * numPer >= 2 * NUMLANES && IsPow2(NUMLANES * numPer)
    ensures Multiple(NUMLANES * numVecs, NUMLANES * numPer)
    ensures (NUMLANES * numPer) / 2 == NUMLANES * (numPer / 2)
  {
    NetworkSort.Pow2Plus3(i);
    NetworkSort.Pow2Plus3(m);
    NetworkSort.Pow2Half(i);
    Pow2IsPow2(i + 3);
    NetworkSort.Pow2Divides(i + 3, m + 3);
  }

  /** Past the last round one block of numPer / 2 registers covers everything. */
  lemma Pow2Above(i: nat, m: nat)
    requires i >= 1 && Pow2(i) > Pow2(m)
    ensures Pow2(i) / 2 >= Pow2(m)
  {
    NetworkSort.Pow2Half(i);
    if i - 1 < m {
      NetworkSort.Pow2Mono(i - 1, m);
      NetworkSort.Pow2Half(m);
    }
  }

  /** Before the last round a doubled group is still a power of two no larger than numVecs. */
  lemma Pow2Within(i: nat, m: nat)
    requires Pow2(i) <= Pow2(m)
    ensures i <= m
  {
    if i > m {
      NetworkSort.Pow2Mono(m, i);
    }
  }

  lemma KvFullmergeUnfold<V(!new)>(P: seq<Pair<V>>, L: seq<Pair<V>>, numPer: nat, numVecs: nat)
    requires 0 < numPer <= numVecs && Multiple(|P|, NUMLANES * numPer)
    requires L == Level(KvMergeNVec, P, NUMLANES * numPer)
    ensures KvFullmerge(P, numPer, numVecs) == KvFullmerge(L, 2 * numPer, numVecs)
  {
  }

  /** One round, stated as the next round's starting point. */
  lemma KvFullmergeStep<V(!new)>(P: seq<Pair<V>>, L: seq<Pair<V>>, numPer: nat, next: nat, i: nat, numVecs: nat, m: nat)
    requires numPer == Pow2(i) && i >= 1 && numVecs == Pow2(m) && |P| == NUMLANES * numVecs
    requires BlocksSorted(KeysOf(P), NUMLANES * (numPer / 2))
    requires numPer <= numVecs && next == 2 * numPer
    requires L == Level(KvMergeNVec, P, NUMLANES * numPer)
    ensures next == Pow2(i + 1) && |L| == |P| && multiset(L) == multiset(P)
    ensures BlocksSorted(KeysOf(L), NUMLANES * (next / 2))
    ensures KvFullmerge(P, numPer, numVecs) == KvFullmerge(L, next, numVecs)
  {
    Pow2Within(i, m);
    RoundBlock(numPer, i, numVecs, m);
    KvFullmergeRound(P, L, numPer, i, numVecs, m);
    KvFullmergeUnfold(P, L, numPer, numVecs);
    assert next / 2 == numPer;
  }

  /**
   * bitonic_fullmerge_n_vec from groups of numPer / 2 ascending registers:
   * the keys end ascending and the pairs are only moved.
   */
  lemma {:induction false} KvFullmergeSorts<V(!new)>(P: seq<Pair<V>>, numPer: nat, i: nat, numVecs: nat, m: nat)
    requires numPer == Pow2(i) && i >= 1 && numVecs == Pow2(m) && |P| == NUMLANES * numVecs
    requires BlocksSorted(KeysOf(P), NUMLANES * (numPer / 2))
    ensures Sorted(KeysOf(KvFullmerge(P, numPer, numVecs)))
    ensures multiset(KvFullmerge(P, numPer, numVecs)) == multiset(P)
    decreases numVecs - numPer
  {
    if numPer > numVecs {
      Pow2Above(i, m);
      assert |KeysOf(P)| <= NUMLANES * (numPer / 2);
    } else {
      var L := Level(KvMergeNVec, P, NUMLANES * numPer);
      KvFullmergeStep(P, L, numPer, 2 * numPer, i, numVecs, m);
      KvFullmergeSorts(L, 2 * numPer, i + 1, numVecs, m);
    }
  }

  /**
   * The network of kvsort_n_vec on numVecs = 2^m registers: the keys end
   * ascending and the (key, value) pairs are only moved between lanes.
   */
  lemma KvNetSorts<V(!new)>(P: seq<Pair<V>>, numVecs: nat, m: nat)
    requires numVecs == Pow2(m) && |P| == NUMLANES * numVecs
    ensures Sorted(KeysOf(KvNet(P, numVecs)))
    ensures multiset(KvNet(P, numVecs)) == multiset(P)
  {
    var S := Level(SortRegPairs, P, NUMLANES);
    RegPairsProject<V>();
    LevelKeys(SortRegPairs, SortRegKeys, P, NUMLANES);
    LevelMultiset(SortRegPairs, P, NUMLANES);
    NetworkSort.MultipleOne(numVecs);
    NetworkSort.MultipleLanes(numVecs, 1);
    SortRegsSorted(KeysOf(P));
    assert Pow2(1) == 2;
    KvFullmergeSorts(S, 2, 1, numVecs, m);
  }

  // ---------------------------------------------------------------------
  // The padding lanes stay where the masked loads put them

  /**
   * The lanes from n on hold the padding pair pad and no lane has a key
   * above the padding key: the lanes of kvsort_n_vec and argsort_n_vec after
   * the masked loads, n being the number of input pairs.
   */
  ghost predicate PadFrom<V>(s: seq<Pair<V>>, n: int, pad: Pair<V>)
  {
    forall i :: 0 <= i < |s| ==> s[i].0 <= pad.0 && (n <= i ==> s[i] == pad)
  }

  /** The stage f leaves a padded tail where it is. */
  ghost predicate KeepsPad<V(!new)>(f: seq<Pair<V>> -> seq<Pair<V>>)
  {
    forall b, n, pad :: PadFrom(b, n, pad) ==> PadFrom(f(b), n, pad)
  }

  lemma {:induction false} PadSlices<V>(s: seq<Pair<V>>, B: nat, n: int, pad: Pair<V>)
    requires B <= |s| && PadFrom(s, n, pad)
    ensures PadFrom(s[..B], n, pad) && PadFrom(s[B..], n - B, pad)
  {
    forall i | 0 <= i < |s| - B ensures s[B..][i].0 <= pad.0 && (n - B <= i ==> s[B..][i] == pad) {
      assert s[B..][i] == s[B + i];
    }
  }

  lemma {:induction false} PadConcat<V>(x: seq<Pair<V>>, y: seq<Pair<V>>, n: int, pad: Pair<V>)
    requires PadFrom(x, n, pad) && PadFrom(y, n - |x|, pad)
    ensures PadFrom(x + y, n, pad)
  {
    forall i | 0 <= i < |x + y| ensures (x + y)[i].0 <= pad.0 && (n <= i ==> (x + y)[i] == pad) {
      if i >= |x| {
        assert (x + y)[i] == y[i - |x|];
      }
    }
  }

  /**
   * A half-cleaner stage never moves a padding pair down: on a tie the
   * upper lane keeps its own pair, and the lower lane of a padding lane's
   * comparator lies above n too, so holds padding as well.
   */
  lemma {:induction false} PHalfStagePad<V>(b: seq<Pair<V>>, n: int, pad: Pair<V>)
    requires PadFrom(b, n, pad)
    ensures PadFrom(PHalfStage(b), n, pad)
  {
    if |b| % 2 == 0 {
      var r, h := PHalfStage(b), |b| / 2;
      forall i | 0 <= i < |r| ensures r[i].0 <= pad.0 && (n <= i ==> r[i] == pad) {
        PHalfStageLane(b, i);
        if i < h {
          assert b[i].0 <= pad.0 && b[i + h].0 <= pad.0;
        } else {
          assert b[i - h].0 <= pad.0 && b[i].0 <= pad.0;
        }
      }
    }
  }

  /** The flip stage never moves a padding pair down either. */
  lemma {:induction false} PFlipStagePad<V>(b: seq<Pair<V>>, n: int, pad: Pair<V>)
    requires PadFrom(b, n, pad)
    ensures PadFrom(PFlipStage(b), n, pad)
  {
    if |b| % 2 == 0 {
      var r, h := PFlipStage(b), |b| / 2;
      forall i | 0 <= i < |r| ensures r[i].0 <= pad.0 && (n <= i ==> r[i] == pad) {
        PFlipStageLane(b, i);
        assert b[i].0 <= pad.0 && b[|b| - 1 - i].0 <= pad.0;
      }
    }
  }

  lemma StagesPad<V(!new)>()
    ensures KeepsPad(PHalfStage<V>) && KeepsPad(PFlipStage<V>)
  {
    forall b: seq<Pair<V>>, n: int, pad: Pair<V> | PadFrom(b, n, pad) ensures PadFrom(PHalfStage(b), n, pad) {
      PHalfStagePad(b, n, pad);
    }
    forall b: seq<Pair<V>>, n: int, pad: Pair<V> | PadFrom(b, n, pad) ensures PadFrom(PFlipStage(b), n, pad) {
      PFlipStagePad(b, n, pad);
    }
  }

  /** A level of a stage that keeps the padding keeps it, block by block. */
  lemma {:induction false} LevelPad<V(!new)>(f: seq<Pair<V>> -> seq<Pair<V>>, s: seq<Pair<V>>, B: nat, n: int, pad: Pair<V>)
    requires KeepsPad(f) && KeepsLength(f) && PadFrom(s, n, pad)
    ensures PadFrom(Level(f, s, B), n, pad)
    decreases |s|
  {
    if !(B == 0 || |s| <= B) {
      PadSlices(s, B, n, pad);
      LevelPad(f, s[B..], B, n - B, pad);
      PadConcat(f(s[..B]), Level(f, s[B..], B), n, pad);
    }
  }

  /** A half-cleaner register level keeps the padding. */
  lemma KvHalfLanesPad<V(!new)>(k: Reg, v: seq<V>, B: nat, n: int, pad: Pair<V>)
    requires |k| == |v| && Multiple(|k|, B) && B % 2 == 0 && PadFrom(Scalar.Zip(k, v), n, pad)
    ensures PadFrom(Scalar.Zip(KvHalfLanes(k, v, B).0, KvHalfLanes(k, v, B).1), n, pad)
  {
    KvHalfLanesLevel(k, v, B);
    StagesPad<V>();
    PairStagesKeepLength<V>();
    LevelPad(PHalfStage, Scalar.Zip(k, v), B, n, pad);
  }

  /** A flip register level keeps the padding. */
  lemma KvFlipLanesPad<V(!new)>(k: Reg, v: seq<V>, B: nat, n: int, pad: Pair<V>)
    requires |k| == |v| && Multiple(|k|, B) && B % 2 == 0 && PadFrom(Scalar.Zip(k, v), n, pad)
    ensures PadFrom(Scalar.Zip(KvFlipLanes(k, v, B).0, KvFlipLanes(k, v, B).1), n, pad)
  {
    KvFlipLanesLevel(k, v, B);
    StagesPad<V>();
    PairStagesKeepLength<V>();
    LevelPad(PFlipStage, Scalar.Zip(k, v), B, n, pad);
  }

  lemma {:induction false} SortRegPairsPad<V(!new)>(b: seq<Pair<V>>, n: int, pad: Pair<V>)
    requires PadFrom(b, n, pad)
    ensures PadFrom(SortRegPairs(b), n, pad)
  {
    if |b| == NUMLANES {
      var key, index := KeysOf(b), ValsOf(b);
      ZipKeysVals(b);
      var s1 := KvHalfLanes(key, index, 2);
      KvHalfLanesPad(key, index, 2, n, pad);
      var s2 := KvFlipLanes(s1.0, s1.1, 4);
      KvFlipLanesPad(s1.0, s1.1, 4, n, pad);
      var s3 := KvHalfLanes(s2.0, s2.1, 2);
      KvHalfLanesPad(s2.0, s2.1, 2, n, pad);
      var s4 := KvFlipLanes(s3.0, s3.1, 8);
      KvFlipLanesPad(s3.0, s3.1, 8, n, pad);
      var s5 := KvHalfLanes(s4.0, s4.1, 4);
      KvHalfLanesPad(s4.0, s4.1, 4, n, pad);
      KvHalfLanesPad(s5.0, s5.1, 2, n, pad);
    }
  }

  lemma {:induction false} MergeRegPairsPad<V(!new)>(b: seq<Pair<V>>, n: int, pad: Pair<V>)
    requires PadFrom(b, n, pad)
    ensures PadFrom(MergeRegPairs(b), n, pad)
  {
    if |b| == NUMLANES {
      var key, index := KeysOf(b), ValsOf(b);
      ZipKeysVals(b);
      var s1 := KvHalfLanes(key, index, 8);
      KvHalfLanesPad(key, index, 8, n, pad);
      var s2 := KvHalfLanes(s1.0, s1.1, 4);
      KvHalfLanesPad(s1.0, s1.1, 4, n, pad);
      KvHalfLanesPad(s2.0, s2.1, 2, n, pad);
    }
  }

  lemma RegPairsPad<V(!new)>()
    ensures KeepsPad(SortRegPairs<V>) && KeepsPad(MergeRegPairs<V>)
  {
    forall b: seq<Pair<V>>, n: int, pad: Pair<V> | PadFrom(b, n, pad) ensures PadFrom(SortRegPairs(b), n, pad) {
      SortRegPairsPad(b, n, pad);
    }
    forall b: seq<Pair<V>>, n: int, pad: Pair<V> | PadFrom(b, n, pad) ensures PadFrom(MergeRegPairs(b), n, pad) {
      MergeRegPairsPad(b, n, pad);
    }
  }

  lemma {:induction false} KvCleanNVecPad<V(!new)>(w: seq<Pair<V>>, num: nat, n: int, pad: Pair<V>)
    requires PadFrom(w, n, pad)
    ensures PadFrom(KvCleanNVec(w, num), n, pad)
    decreases num
  {
    if num >= 2 {
      StagesPad<V>();
      PairStagesKeepLength<V>();
      LevelPad(PHalfStage, w, NUMLANES * num, n, pad);
      KvCleanNVecPad(Level(PHalfStage, w, NUMLANES * num), num / 2, n, pad);
    }
  }

  lemma {:induction false} KvMergeNVecPad<V(!new)>(b: seq<Pair<V>>, n: int, pad: Pair<V>)
    requires PadFrom(b, n, pad)
    ensures PadFrom(KvMergeNVec(b), n, pad)
  {
    if IsPow2(|b|) && |b| >= 2 * NUMLANES {
      PFlipStagePad(b, n, pad);
      KvCleanNVecPad(PFlipStage(b), (|b| / NUMLANES) / 2, n, pad);
      RegPairsPad<V>();
      RegPairsProject<V>();
      LevelPad(MergeRegPairs, KvCleanNVec(PFlipStage(b), (|b| / NUMLANES) / 2), NUMLANES, n, pad);
    }
  }

  lemma {:induction false} KvFullmergePad<V(!new)>(P: seq<Pair<V>>, numPer: nat, numVecs: nat, n: int, pad: Pair<V>)
    requires PadFrom(P, n, pad)
    ensures PadFrom(KvFullmerge(P, numPer, numVecs), n, pad)
    decreases numVecs - numPer
  {
    if !(numPer == 0 || numPer > numVecs) {
      KvMergeKeepsLength<V>();
      forall b: seq<Pair<V>>, n': int, pad': Pair<V> | PadFrom(b, n', pad') ensures PadFrom(KvMergeNVec(b), n', pad') {
        KvMergeNVecPad(b, n', pad');
      }
      LevelPad(KvMergeNVec, P, NUMLANES * numPer, n, pad);
      KvFullmergePad(Level(KvMergeNVec, P, NUMLANES * numPer), 2 * numPer, numVecs, n, pad);
    }
  }

  /**
   * The network of kvsort_n_vec and argsort_n_vec never moves a padding pair
   * below lane n: every compare-exchange sends the larger key to the higher
   * lane and leaves both pairs in place on a tie, and no key is larger than
   * the padding key.
   */
  lemma KvNetPad<V(!new)>(P: seq<Pair<V>>, numVecs: nat, n: int, pad: Pair<V>)
    requires PadFrom(P, n, pad)
    ensures PadFrom(KvNet(P, numVecs), n, pad)
  {
    RegPairsPad<V>();
    RegPairsProject<V>();
    LevelPad(SortRegPairs, P, NUMLANES, n, pad);
    KvFullmergePad(Level(SortRegPairs, P, NUMLANES), 2, numVecs, n, pad);
  }
}
