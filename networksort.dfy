/**
 * The n-register bitonic network of xss-network-qsort.hpp, which sorts the
 * small ranges (at most 256 elements) the quicksort leaves behind.
 *
 * The registers live in an array `vecs` of NUMLANES-lane registers that the
 * methods update in place, as the source does with its local zmm_t array.
 * Flat(vecs) is the lane sequence register 0 first; a loop of COEX over
 * block-strided register pairs is one level of module Levels on Flat(vecs)
 * with blocks NUMLANES times larger, so the register network inherits the
 * merge and sorting theorems proved there and in module Bitonic.
 */
module NetworkSort {
  import opened Simd
  import opened Bitonic
  import opened Levels
  import opened Exchange
  import opened RegNetworks
  import opened Sorting

  /** Every register holds NUMLANES lanes. */
  predicate Lanes8(V: seq<Reg>)
  {
    forall i :: 0 <= i < |V| ==> |V[i]| == NUMLANES
  }

  /** Lane l of every register: the input of a network that works lane by lane. */
  function Column(V: seq<Reg>, l: nat): (c: seq<int>)
    requires Lanes8(V) && l < NUMLANES
    ensures |c| == |V| && forall k :: 0 <= k < |V| ==> c[k] == V[k][l]
  {
    seq(|V|, k requires 0 <= k < |V| => V[k][l])
  }

  /** The lanes of an array of registers, register 0 first. */
  function Flat(V: seq<Reg>): (r: seq<int>)
    ensures Lanes8(V) ==> |r| == NUMLANES * |V|
  {
    if |V| == 0 then [] else V[0] + Flat(V[1..])
  }

  // ---------------------------------------------------------------------
  // Register-level stages

  /** vtype::min of corresponding registers. */
  function ZipMin(X: seq<Reg>, Y: seq<Reg>): (r: seq<Reg>)
    requires |X| == |Y| && Lanes8(X) && Lanes8(Y)
    ensures |r| == |X| && Lanes8(r)
  {
    seq(|X|, i requires 0 <= i < |X| => VMin(X[i], Y[i]))
  }

  /** vtype::max of corresponding registers. */
  function ZipMax(X: seq<Reg>, Y: seq<Reg>): (r: seq<Reg>)
    requires |X| == |Y| && Lanes8(X) && Lanes8(Y)
    ensures |r| == |X| && Lanes8(r)
  {
    seq(|X|, i requires 0 <= i < |X| => VMax(X[i], Y[i]))
  }

  /** Registers in reverse order, each one reversed: the lane reversal of Flat. */
  function RevRegs(X: seq<Reg>): (r: seq<Reg>)
    ensures |r| == |X| && (Lanes8(X) ==> Lanes8(r))
  {
    seq(|X|, i requires 0 <= i < |X| => Rev(X[|X| - 1 - i]))
  }

  /**
   * One block of the bitonic_clean_n_vec level: register i of the lower half
   * is COEXed with register i of the upper half.
   */
  function RegHalfStage(B: seq<Reg>): (r: seq<Reg>)
  {
    if |B| % 2 == 1 || !Lanes8(B) then B
    else
      var h := |B| / 2;
      ZipMin(B[..h], B[h..]) + ZipMax(B[..h], B[h..])
  }

  /**
   * The reversing first part of bitonic_merge_n_vec: register i meets the
   * reversal of register n - 1 - i; the minimum stays, the maximum goes back
   * reversed.
   */
  function RegFlipStage(B: seq<Reg>): (r: seq<Reg>)
  {
    if |B| % 2 == 1 || !Lanes8(B) then B
    else
      var h := |B| / 2;
      var rhi := RevRegs(B[h..]);
      ZipMin(B[..h], rhi) + RevRegs(ZipMax(B[..h], rhi))
  }

  /** vtype::bitonic_merge on every register. */
  function MergeRegs(V: seq<Reg>): (r: seq<Reg>)
    requires Lanes8(V)
    ensures |r| == |V| && Lanes8(r)
  {
    seq(|V|, i requires 0 <= i < |V| => BitonicMergeReg8Lanes(V[i]))
  }

  /** Each block of g registers holds ascending lanes. */
  predicate GroupsSorted(V: seq<Reg>, g: nat)
    decreases |V|
  {
    g > 0 && (|V| == 0 || (|V| >= g && Sorted(Flat(V[..g])) && GroupsSorted(V[g..], g)))
  }

  // ---------------------------------------------------------------------
  // Masked loads

  /**
   * The load mask of sort_n_vec, ((1 << w) - 1) & ((1 << NUMLANES) - 1), as
   * lanes.
   */
  function LoadMask(w: nat): (m: Mask)
    requires w <= NUMLANES
    ensures |m| == NUMLANES
  {
    Bits((Pow2(w) - 1) % Pow2(NUMLANES), NUMLANES)
  }

  /**
   * vtype::mask_loadu(src, m, p): lane j is p[j] where m[j] is set and src[j]
   * elsewhere; lanes that are not set are not read.
   */
  function MaskLoad(src: Reg, m: Mask, s: seq<int>, at: nat): (r: Reg)
    requires |src| == |m|
    requires forall j :: 0 <= j < |m| && m[j] ==> at + j < |s|
    ensures |r| == |m|
  {
    seq(|m|, j requires 0 <= j < |m| => if m[j] then s[at + j] else src[j])
  }

  /** The number of real elements register i of sort_n_vec holds. */
  function NumToWrite(N: int, i: int): (w: nat)
    ensures w <= NUMLANES
  {
    Min(Max(0, N - i * NUMLANES), NUMLANES)
  }

  /** Register k of the padded input: the elements of s, then type_max. */
  function Padded(s: seq<int>, k: nat): (r: Reg)
    ensures |r| == NUMLANES
  {
    seq(NUMLANES, j requires 0 <= j < NUMLANES =>
      if NUMLANES * k + j < |s| then s[NUMLANES * k + j] else TYPE_MAX)
  }

  // ---------------------------------------------------------------------
  // Flat

  lemma {:induction false} FlatConcat(V: seq<Reg>, W: seq<Reg>)
    ensures Flat(V + W) == Flat(V) + Flat(W)
    decreases |V|
  {
    if |V| > 0 {
      assert (V + W)[0] == V[0] && (V + W)[1..] == V[1..] + W;
      FlatConcat(V[1..], W);
      assert Flat(V + W) == V[0] + (Flat(V[1..]) + Flat(W));
      assert V[0] + (Flat(V[1..]) + Flat(W)) == (V[0] + Flat(V[1..])) + Flat(W);
    } else {
      assert V + W == W;
    }
  }

  lemma {:induction false} FlatIndex(V: seq<Reg>, k: nat)
    requires Lanes8(V) && k < NUMLANES * |V|
    ensures Flat(V)[k] == V[k / NUMLANES][k % NUMLANES]
    decreases |V|
  {
    if k >= NUMLANES {
      FlatIndex(V[1..], k - NUMLANES);
    }
  }

  lemma {:induction false} FlatOne(x: Reg)
    ensures Flat([x]) == x
  {
    assert [x][1..] == [];
  }

  /** Splitting the registers at a splits the lanes at NUMLANES * a. */
  lemma {:induction false} FlatSplit(V: seq<Reg>, a: nat)
    requires Lanes8(V) && a <= |V|
    ensures Flat(V) == Flat(V[..a]) + Flat(V[a..])
    ensures Flat(V[..a]) == Flat(V)[..NUMLANES * a] && Flat(V[a..]) == Flat(V)[NUMLANES * a..]
  {
    assert V == V[..a] + V[a..];
    FlatConcat(V[..a], V[a..]);
  }

  lemma {:induction false} FlatZipMin(X: seq<Reg>, Y: seq<Reg>)
    requires |X| == |Y| && Lanes8(X) && Lanes8(Y)
    ensures Flat(ZipMin(X, Y)) == VMin(Flat(X), Flat(Y))
  {
    var Z := ZipMin(X, Y);
    forall k | 0 <= k < NUMLANES * |X| ensures Flat(Z)[k] == VMin(Flat(X), Flat(Y))[k] {
      FlatIndex(Z, k);
      FlatIndex(X, k);
      FlatIndex(Y, k);
    }
  }

  lemma {:induction false} FlatZipMax(X: seq<Reg>, Y: seq<Reg>)
    requires |X| == |Y| && Lanes8(X) && Lanes8(Y)
    ensures Flat(ZipMax(X, Y)) == VMax(Flat(X), Flat(Y))
  {
    var Z := ZipMax(X, Y);
    forall k | 0 <= k < NUMLANES * |X| ensures Flat(Z)[k] == VMax(Flat(X), Flat(Y))[k] {
      FlatIndex(Z, k);
      FlatIndex(X, k);
      FlatIndex(Y, k);
    }
  }

  lemma {:induction false} FlatRevRegs(X: seq<Reg>)
    requires Lanes8(X)
    ensures Flat(RevRegs(X)) == Rev(Flat(X))
  {
    var n, Z := |X|, RevRegs(X);
    forall k | 0 <= k < NUMLANES * n ensures Flat(Z)[k] == Rev(Flat(X))[k] {
      var q, r := k / NUMLANES, k % NUMLANES;
      var k' := NUMLANES * n - 1 - k;
      assert k == NUMLANES * q + r && k' == NUMLANES * (n - 1 - q) + (NUMLANES - 1 - r);
      assert k' / NUMLANES == n - 1 - q && k' % NUMLANES == NUMLANES - 1 - r;
      FlatIndex(Z, k);
      FlatIndex(X, k');
      assert Flat(Z)[k] == Z[q][r] == Rev(X[n - 1 - q])[r] == X[n - 1 - q][NUMLANES - 1 - r];
      assert |Flat(X)| == NUMLANES * n;
      assert Rev(Flat(X))[k] == Flat(X)[k'];
    }
  }

  /** The register half stage is the lane half stage of Flat. */
  lemma {:induction false} FlatHalfStage(B: seq<Reg>)
    requires Lanes8(B) && |B| % 2 == 0
    ensures Lanes8(RegHalfStage(B)) && |RegHalfStage(B)| == |B|
    ensures Flat(RegHalfStage(B)) == HalfStage(Flat(B))
  {
    var h := |B| / 2;
    var F := Flat(B);
    assert |F| == NUMLANES * |B| && |F| % 2 == 0 && |F| / 2 == NUMLANES * h;
    var lo, hi := B[..h], B[h..];
    FlatSplit(B, h);
    var mn, mx := ZipMin(lo, hi), ZipMax(lo, hi);
    FlatZipMin(lo, hi);
    FlatZipMax(lo, hi);
    assert RegHalfStage(B) == mn + mx;
    FlatConcat(mn, mx);
  }

  /** The register flip stage is the lane flip stage of Flat. */
  lemma {:induction false} FlatFlipStage(B: seq<Reg>)
    requires Lanes8(B) && |B| % 2 == 0
    ensures Lanes8(RegFlipStage(B)) && |RegFlipStage(B)| == |B|
    ensures Flat(RegFlipStage(B)) == FlipStage(Flat(B))
  {
    var h := |B| / 2;
    var F := Flat(B);
    assert |F| == NUMLANES * |B| && |F| % 2 == 0 && |F| / 2 == NUMLANES * h;
    var lo, hi := B[..h], B[h..];
    var rhi := RevRegs(hi);
    FlatSplit(B, h);
    FlatRevRegs(hi);
    assert Flat(rhi) == Rev(F[NUMLANES * h..]);
    var mn, mx := ZipMin(lo, rhi), ZipMax(lo, rhi);
    FlatZipMin(lo, rhi);
    FlatZipMax(lo, rhi);
    FlatRevRegs(mx);
    assert Flat(mn) == VMin(F[..NUMLANES * h], Rev(F[NUMLANES * h..]));
    assert Flat(RevRegs(mx)) == Rev(VMax(F[..NUMLANES * h], Rev(F[NUMLANES * h..])));
    assert RegFlipStage(B) == mn + RevRegs(mx);
    FlatConcat(mn, RevRegs(mx));
  }

  /** F on blocks of num registers is G on the blocks' lanes. */
  ghost predicate Lifts(F: seq<Reg> -> seq<Reg>, G: seq<int> -> seq<int>, num: nat)
  {
    forall B {:trigger F(B)} :: |B| == num && Lanes8(B) ==> |F(B)| == num && Lanes8(F(B)) && Flat(F(B)) == G(Flat(B))
  }

  lemma {:induction false} LiftsHalf(num: nat)
    requires num % 2 == 0
    ensures Lifts(RegHalfStage, HalfStage, num)
  {
    forall B | |B| == num && Lanes8(B)
      ensures |RegHalfStage(B)| == num && Lanes8(RegHalfStage(B)) && Flat(RegHalfStage(B)) == HalfStage(Flat(B))
    {
      FlatHalfStage(B);
    }
  }

  /** A register level is the lane level with NUMLANES times larger blocks. */
  lemma {:induction false} FlatLevel(F: seq<Reg> -> seq<Reg>, G: seq<int> -> seq<int>, V: seq<Reg>, num: nat)
    requires Lifts(F, G, num) && Lanes8(V) && Multiple(|V|, num) && |V| > 0
    ensures |Level(F, V, num)| == |V| && Lanes8(Level(F, V, num))
    ensures Flat(Level(F, V, num)) == Level(G, Flat(V), NUMLANES * num)
    decreases |V|
  {
    assert num > 0 && |V| >= num;
    if |V| > num {
      var V0, V1 := V[..num], V[num..];
      assert Multiple(|V1|, num);
      FlatLevel(F, G, V1, num);
      FlatSplit(V, num);
      var W0, W1 := F(V0), Level(F, V1, num);
      assert |W0| == num && Lanes8(W0) && Flat(W0) == G(Flat(V0));
      assert Level(F, V, num) == W0 + W1;
      FlatConcat(W0, W1);
      assert Level(G, Flat(V), NUMLANES * num) == G(Flat(V0)) + Level(G, Flat(V1), NUMLANES * num);
    } else {
      assert Level(F, V, num) == F(V);
      assert Level(G, Flat(V), NUMLANES * num) == G(Flat(V));
    }
  }

  /** bitonic_merge on every register is the three lowest half-cleaner levels. */
  lemma {:induction false} FlatMergeRegs(V: seq<Reg>)
    requires Lanes8(V) && |V| > 0
    ensures Flat(MergeRegs(V)) == Descend(HalfStage, Flat(V), 3)
    decreases |V|
  {
    StagesKeepLength();
    BitonicMergeReg8LanesLevels(V[0]);
    if |V| == 1 {
      FlatOne(V[0]);
      FlatOne(MergeRegs(V)[0]);
      assert MergeRegs(V) == [MergeRegs(V)[0]];
    } else {
      FlatMergeRegs(V[1..]);
      assert MergeRegs(V) == [BitonicMergeReg8Lanes(V[0])] + MergeRegs(V[1..]);
      FlatConcat([BitonicMergeReg8Lanes(V[0])], MergeRegs(V[1..]));
      FlatOne(BitonicMergeReg8Lanes(V[0]));
      assert Multiple(8, Pow2(3)) by { MultipleSelf(8); }
      DescendConcat(HalfStage, V[0], Flat(V[1..]), 3);
    }
  }

  /** Registers that each keep their lanes keep the lanes of Flat. */
  lemma {:induction false} FlatMultiset(V: seq<Reg>, W: seq<Reg>)
    requires |V| == |W| && forall i :: 0 <= i < |V| ==> multiset(W[i]) == multiset(V[i])
    ensures multiset(Flat(W)) == multiset(Flat(V))
    decreases |V|
  {
    if |V| > 0 {
      FlatMultiset(V[1..], W[1..]);
    }
  }

  lemma {:induction false} Pow2Plus3(j: nat)
    ensures Pow2(j + 3) == NUMLANES * Pow2(j)
  {
    assert Pow2(j + 3) == 2 * Pow2(j + 2) && Pow2(j + 2) == 2 * Pow2(j + 1);
  }

  lemma {:induction false} MultipleStep(n: nat, k: nat)
    requires Multiple(n, k)
    ensures Multiple(n + k, k)
  {
  }

  /** One more block of a loop over whole k-blocks of n. */
  lemma {:induction false} MultipleNext(n: nat, base: nat, next: nat, k: nat)
    requires base < n && Multiple(n - base, k) && Multiple(base, k) && next == base + k
    ensures next <= n && Multiple(n - next, k) && Multiple(next, k)
  {
    MultipleStep(base, k);
  }

  lemma {:induction false} MultipleDouble(n: nat, k: nat)
    requires Multiple(n, k)
    ensures Multiple(2 * n, 2 * k)
    decreases n
  {
    if n > 0 {
      MultipleDouble(n - k, k);
    }
  }

  lemma {:induction false} MultipleOne(n: nat)
    ensures Multiple(n, 1)
    decreases n
  {
    if n > 0 {
      MultipleOne(n - 1);
    }
  }

  /** 2^j divides 2^m for j <= m. */
  lemma {:induction false} Pow2Divides(j: nat, m: nat)
    requires j <= m
    ensures Multiple(Pow2(m), Pow2(j))
    decreases j
  {
    if j == 0 {
      MultipleOne(Pow2(m));
    } else {
      Pow2Divides(j - 1, m - 1);
      MultipleDouble(Pow2(m - 1), Pow2(j - 1));
    }
  }

  lemma {:induction false} Pow2Mono(a: nat, b: nat)
    requires a < b
    ensures Pow2(a) < Pow2(b)
    decreases b
  {
    if a < b - 1 {
      Pow2Mono(a, b - 1);
    }
  }

  /** Whole blocks of 8 registers' lanes are whole blocks of NUMLANES lanes times as many. */
  lemma {:induction false} MultipleLanes(n: nat, k: nat)
    requires Multiple(n, k)
    ensures Multiple(NUMLANES * n, NUMLANES * k)
    decreases n
  {
    if n > 0 {
      MultipleLanes(n - k, k);
    }
  }

  // ---------------------------------------------------------------------
  // bitonic_clean_n_vec

  /** The lane facts of one block: stage number i of the cleaner's block B. */
  lemma {:induction false} RegHalfStageLane(B: seq<Reg>, k: nat)
    requires Lanes8(B) && |B| % 2 == 0 && k < |B|
    ensures RegHalfStage(B)[k]
         == if k < |B| / 2 then VMin(B[k], B[k + |B| / 2]) else VMax(B[k - |B| / 2], B[k])
  {
    var h := |B| / 2;
    var lo, hi := B[..h], B[h..];
    var mn, mx := ZipMin(lo, hi), ZipMax(lo, hi);
    assert RegHalfStage(B) == mn + mx;
    if k < h {
      assert mn[k] == VMin(lo[k], hi[k]);
    } else {
      assert mx[k - h] == VMax(lo[k - h], hi[k - h]);
    }
  }

  /** Every register stage keeps the number of registers. */
  lemma {:induction false} RegStagesKeepLength()
    ensures KeepsLength(RegHalfStage) && KeepsLength(RegFlipStage)
  {
    forall B: seq<Reg> ensures |RegHalfStage(B)| == |B| && |RegFlipStage(B)| == |B| {
      if |B| % 2 == 0 && Lanes8(B) {
        assert |RevRegs(B[|B| / 2..])| == |B| / 2;
      }
    }
  }

  /**
   * The register array V is O with the registers from at on replaced by P:
   * the state of an array whose block at `at` is being worked on.
   */
  ghost predicate BlockIs(V: seq<Reg>, O: seq<Reg>, at: nat, P: seq<Reg>)
  {
    at + |P| <= |O| && V == Spliced(O, at, P)
  }

  /** O with the registers from at on replaced by P. */
  function Spliced<T>(O: seq<T>, at: nat, P: seq<T>): (r: seq<T>)
    requires at + |P| <= |O|
    ensures |r| == |O|
  {
    seq(|O|, x requires 0 <= x < |O| => if at <= x < at + |P| then P[x - at] else O[x])
  }

  lemma {:induction false} SplicedAt<T>(O: seq<T>, at: nat, P: seq<T>, k: nat)
    requires at + |P| <= |O| && k < |P|
    ensures Spliced(O, at, P)[at + k] == P[k]
  {
  }

  /** Updating the spliced-in block is updating the whole. */
  lemma {:induction false} SplicedUpdate<T>(O: seq<T>, at: nat, P: seq<T>, k: nat, v: T)
    requires at + |P| <= |O| && k < |P|
    ensures Spliced(O, at, P[k := v]) == Spliced(O, at, P)[at + k := v]
  {
  }

  lemma {:induction false} BlockIsStart(O: seq<Reg>, at: nat, n: nat)
    requires at + n <= |O|
    ensures BlockIs(O, O, at, O[at..at + n])
  {
  }

  lemma {:induction false} BlockIsSlices(V: seq<Reg>, O: seq<Reg>, at: nat, P: seq<Reg>)
    requires BlockIs(V, O, at, P)
    ensures V[at..at + |P|] == P && SameOutside(V, O, at, |P|)
  {
  }

  /** V and O agree outside the n registers at lo. */
  ghost predicate SameOutside<T>(V: seq<T>, O: seq<T>, lo: nat, n: nat)
  {
    |V| == |O| && lo + n <= |O| && V == Spliced(O, lo, V[lo..lo + n])
  }

  lemma {:induction false} SameOutsideTrans<T>(V3: seq<T>, V2: seq<T>, V1: seq<T>, lo: nat, n: nat)
    requires SameOutside(V3, V2, lo, n) && SameOutside(V2, V1, lo, n)
    ensures SameOutside(V3, V1, lo, n)
  {
  }

  lemma {:induction false} SameOutsideSlices<T>(V: seq<T>, O: seq<T>, lo: nat, n: nat, e: nat)
    requires SameOutside(V, O, lo, n) && e == lo + n
    ensures V[..lo] == O[..lo] && V[e..] == O[e..]
  {
    assert V[..lo] == O[..lo];
    assert V[e..] == O[e..];
  }

  /** COEX(ymm[i], ymm[j]) on an array of registers held as a sequence. */
  function CoexAt(V: seq<Reg>, i: nat, j: nat): (r: seq<Reg>)
    requires i < j < |V| && |V[i]| == |V[j]|
    ensures |r| == |V| && (Lanes8(V) ==> Lanes8(r))
  {
    V[i := VMin(V[i], V[j])][j := VMax(V[i], V[j])]
  }

  /** COEX of two registers of the array, in place. */
  method CoexVecs(vecs: array<Reg>, i: nat, j: nat)
    requires i < j < vecs.Length && |vecs[i]| == |vecs[j]|
    modifies vecs
    ensures vecs[..] == CoexAt(old(vecs[..]), i, j)
  {
    var c := Coex(vecs[i], vecs[j]);
    vecs[i], vecs[j] := c.0, c.1;
  }

  /** One COEX of the cleaner loop, on the array's contents. */
  lemma {:induction false} HalfStep(A: seq<Reg>, A2: seq<Reg>, O: seq<Reg>, B: seq<Reg>, at: nat, i: nat, a: nat, b: nat)
    requires Lanes8(B) && |B| % 2 == 0 && i < |B| / 2 && a == at + i && b == at + i + |B| / 2
    requires BlockIs(A, O, at, HalfPartial(B, i))
    requires a < b < |A| && |A[a]| == |A[b]| && A2 == CoexAt(A, a, b)
    ensures BlockIs(A2, O, at, HalfPartial(B, i + 1))
  {
    var h, P := |B| / 2, HalfPartial(B, i);
    var va, vb := VMin(B[i], B[i + h]), VMax(B[i], B[i + h]);
    HalfStepLanes(A, O, B, at, i, a, b);
    HalfPartialStep(B, i);
    SplicedTwo(A, A2, O, P, HalfPartial(B, i + 1), at, i, i + h, va, vb);
  }

  /** The two registers the next COEX of the cleaner loop reads are still the input's. */
  lemma {:induction false} HalfStepLanes(A: seq<Reg>, O: seq<Reg>, B: seq<Reg>, at: nat, i: nat, a: nat, b: nat)
    requires Lanes8(B) && |B| % 2 == 0 && i < |B| / 2 && a == at + i && b == at + i + |B| / 2
    requires BlockIs(A, O, at, HalfPartial(B, i))
    ensures a < b < |A| && A[a] == B[i] && A[b] == B[i + |B| / 2] && |A[a]| == |A[b]| == NUMLANES
  {
    var P := HalfPartial(B, i);
    HalfPartialStep(B, i);
    SplicedAt(O, at, P, i);
    SplicedAt(O, at, P, i + |B| / 2);
  }


  /**
   * The innermost loop of bitonic_clean_n_vec on the block of num registers
   * starting at `at`: COEX(ymm[i + j], ymm[i + j + num / 2]) for i < num / 2.
   */
  method CleanBlock(vecs: array<Reg>, at: nat, num: nat)
    requires num % 2 == 0 && at + num <= vecs.Length && Lanes8(vecs[at..at + num])
    modifies vecs
    ensures vecs[at..at + num] == RegHalfStage(old(vecs[at..at + num]))
    ensures SameOutside(vecs[..], old(vecs[..]), at, num)
  {
    ghost var B := vecs[at..at + num];
    ghost var O := vecs[..];
    var h := num / 2;
    var i := 0;
    HalfPartialStart(O, B, at);
    while i < h
      invariant 0 <= i <= h
      invariant BlockIs(vecs[..], O, at, HalfPartial(B, i))
    {
      ghost var A := vecs[..];
      var a := at + i;
      var b := a + h;
      HalfStepLanes(A, O, B, at, i, a, b);
      CoexVecs(vecs, a, b);
      HalfStep(A, vecs[..], O, B, at, i, a, b);
      i := i + 1;
    }
    HalfPartialEnd(vecs[..], O, B, at, i);
  }

  lemma {:induction false} HalfPartialStart(O: seq<Reg>, B: seq<Reg>, at: nat)
    requires at + |B| <= |O| && B == O[at..at + |B|] && Lanes8(B) && |B| % 2 == 0
    ensures BlockIs(O, O, at, HalfPartial(B, 0))
  {
    BlockIsStart(O, at, |B|);
    assert HalfPartial(B, 0) == B;
  }

  lemma {:induction false} HalfPartialEnd(V: seq<Reg>, O: seq<Reg>, B: seq<Reg>, at: nat, i: nat)
    requires Lanes8(B) && |B| % 2 == 0 && i == |B| / 2 && BlockIs(V, O, at, HalfPartial(B, i))
    ensures V[at..at + |B|] == RegHalfStage(B) && SameOutside(V, O, at, |B|)
  {
    HalfPartialDone(B);
    BlockIsSlices(V, O, at, HalfPartial(B, i));
  }

  /** The block after the first i COEX pairs of the cleaner loop. */
  function HalfPartial(B: seq<Reg>, i: nat): (r: seq<Reg>)
    requires Lanes8(B) && |B| % 2 == 0 && i <= |B| / 2
    ensures |r| == |B|
  {
    var h := |B| / 2;
    seq(|B|, k requires 0 <= k < |B| =>
      if k < i then VMin(B[k], B[k + h]) else if h <= k < h + i then VMax(B[k - h], B[k]) else B[k])
  }

  lemma {:induction false} HalfPartialStep(B: seq<Reg>, i: nat)
    requires Lanes8(B) && |B| % 2 == 0 && i < |B| / 2
    ensures HalfPartial(B, i)[i] == B[i] && HalfPartial(B, i)[i + |B| / 2] == B[i + |B| / 2]
    ensures HalfPartial(B, i)[i := VMin(B[i], B[i + |B| / 2])][i + |B| / 2 := VMax(B[i], B[i + |B| / 2])]
         == HalfPartial(B, i + 1)
  {
  }

  lemma {:induction false} HalfPartialDone(B: seq<Reg>)
    requires Lanes8(B) && |B| % 2 == 0
    ensures HalfPartial(B, |B| / 2) == RegHalfStage(B)
  {
    HalfStageOfLanes(B, HalfPartial(B, |B| / 2));
  }

  /** Registers that hold the COEX results of a block are its register half stage. */
  lemma {:induction false} HalfStageOfLanes(B: seq<Reg>, R: seq<Reg>)
    requires Lanes8(B) && |B| % 2 == 0 && |R| == |B|
    requires forall k :: 0 <= k < |B| / 2 ==> R[k] == VMin(B[k], B[k + |B| / 2])
    requires forall k :: |B| / 2 <= k < |B| ==> R[k] == VMax(B[k - |B| / 2], B[k])
    ensures R == RegHalfStage(B)
  {
    forall k | 0 <= k < |B| ensures R[k] == RegHalfStage(B)[k] {
      RegHalfStageLane(B, k);
    }
  }

  /** The registers of a level after its first base registers are done. */
  function LevelPartial(cur: seq<Reg>, L: seq<Reg>, base: nat): (r: seq<Reg>)
    requires |L| == |cur| && base <= |cur|
    ensures |r| == |cur|
  {
    seq(|cur|, k requires 0 <= k < |cur| => if k < base then L[k] else cur[k])
  }

  /** The next block of a partly done level is still the input's. */
  lemma {:induction false} BlockOf(A: seq<Reg>, O: seq<Reg>, cur: seq<Reg>, L: seq<Reg>, lo: nat, base: nat, at: nat, num: nat)
    requires at == lo + base && base + num <= |cur| == |L|
    requires BlockIs(A, O, lo, LevelPartial(cur, L, base))
    ensures at + num <= |A| && A[at..at + num] == cur[base..base + num]
    ensures Lanes8(cur) ==> Lanes8(A[at..at + num])
  {
    var P := LevelPartial(cur, L, base);
    forall y | at <= y < at + num ensures A[y] == cur[base + (y - at)] {
      assert A[y] == P[base + (y - at)];
    }
    assert A[at..at + num] == cur[base..base + num];
  }

  /**
   * One step of the middle loop of bitonic_clean_n_vec on the register
   * array's contents: A2 is A with the block of num registers at lo + base
   * replaced by its half stage, so one more block of the level is done.
   */
  lemma {:induction false} CleanLevelJoin(A: seq<Reg>, A2: seq<Reg>, O: seq<Reg>, cur: seq<Reg>, L: seq<Reg>,
                                          lo: nat, base: nat, at: nat, num: nat, next: nat)
    requires at == lo + base && next == base + num && next <= |cur| == |L|
    requires BlockIs(A, O, lo, LevelPartial(cur, L, base))
    requires SameOutside(A2, A, at, num) && L[base..next] == A2[at..at + num]
    ensures BlockIs(A2, O, lo, LevelPartial(cur, L, next))
  {
    var P, P1 := LevelPartial(cur, L, base), LevelPartial(cur, L, next);
    forall x | 0 <= x < |A2| ensures A2[x] == if lo <= x < lo + |cur| then P1[x - lo] else O[x] {
      if at <= x < at + num {
        assert A2[x] == A2[at..at + num][x - at] == L[base..next][x - at] == L[x - lo];
      } else {
        assert A2[x] == A[x];
      }
    }
  }

  /** The same, for the block at a multiple of num of the level L. */
  lemma {:induction false} CleanLevelStep(A: seq<Reg>, A2: seq<Reg>, O: seq<Reg>, cur: seq<Reg>, L: seq<Reg>,
                                          lo: nat, base: nat, at: nat, num: nat, next: nat)
    requires at == lo + base && next == base + num && next <= |cur| == |L|
    requires Multiple(base, num) && L == Level(RegHalfStage, cur, num)
    requires BlockIs(A, O, lo, LevelPartial(cur, L, base))
    requires SameOutside(A2, A, at, num) && A2[at..at + num] == RegHalfStage(A[at..at + num])
    ensures BlockIs(A2, O, lo, LevelPartial(cur, L, next))
  {
    RegStagesKeepLength();
    LevelBlockAt(RegHalfStage, cur, num, base);
    BlockOf(A, O, cur, L, lo, base, at, num);
    CleanLevelJoin(A, A2, O, cur, L, lo, base, at, num, next);
  }

  /**
   * One pass of the middle loop of bitonic_clean_n_vec: the block of num
   * registers at every multiple of num, i.e. one register half-cleaner level.
   */
  method CleanLevel(vecs: array<Reg>, lo: nat, n: nat, num: nat, ghost j: nat, ghost k: nat, ghost m: nat)
    requires num == Pow2(j) && k == j + 3 && n == Pow2(m) && 1 <= j < m && lo + n <= vecs.Length
    requires Lanes8(vecs[lo..lo + n])
    modifies vecs
    ensures Lanes8(vecs[lo..lo + n])
    ensures Flat(vecs[lo..lo + n]) == Level(HalfStage, Flat(old(vecs[lo..lo + n])), Pow2(k))
    ensures SameOutside(vecs[..], old(vecs[..]), lo, n)
  {
    ghost var cur := vecs[lo..lo + n];
    ghost var O := vecs[..];
    ghost var L := Level(RegHalfStage, cur, num);
    CleanLevelStart(O, cur, L, lo, n, num, j, m);
    var base := 0;
    while base < n
      invariant base <= n && Multiple(n - base, num) && Multiple(base, num)
      invariant BlockIs(vecs[..], O, lo, LevelPartial(cur, L, base))
      decreases n - base
    {
      ghost var A := vecs[..];
      var at := lo + base;
      var next := base + num;
      MultipleNext(n, base, next, num);
      BlockOf(A, O, cur, L, lo, base, at, num);
      CleanBlock(vecs, at, num);
      CleanLevelStep(A, vecs[..], O, cur, L, lo, base, at, num, next);
      base := next;
    }
    CleanLevelEnd(vecs[..], O, cur, L, lo, n, base, num, j, k, m);
  }

  lemma {:induction false} CleanLevelStart(O: seq<Reg>, cur: seq<Reg>, L: seq<Reg>, lo: nat, n: nat, num: nat, j: nat, m: nat)
    requires lo + n <= |O| && cur == O[lo..lo + n] && L == Level(RegHalfStage, cur, num)
    requires num == Pow2(j) && n == Pow2(m) && 1 <= j < m
    ensures |L| == n && Multiple(n, num) && Multiple(0, num)
    ensures BlockIs(O, O, lo, LevelPartial(cur, L, 0))
  {
    RegStagesKeepLength();
    Pow2Divides(j, m);
    BlockIsStart(O, lo, n);
    assert LevelPartial(cur, L, 0) == cur;
  }

  lemma {:induction false} CleanLevelEnd(V: seq<Reg>, O: seq<Reg>, cur: seq<Reg>, L: seq<Reg>,
                                         lo: nat, n: nat, base: nat, num: nat, j: nat, k: nat, m: nat)
    requires lo + n <= |O| && cur == O[lo..lo + n] && L == Level(RegHalfStage, cur, num) && Lanes8(cur)
    requires num == Pow2(j) && k == j + 3 && n == Pow2(m) && 1 <= j < m && base == n && |L| == n
    requires BlockIs(V, O, lo, LevelPartial(cur, L, base))
    ensures Lanes8(V[lo..lo + n]) && Flat(V[lo..lo + n]) == Level(HalfStage, Flat(cur), Pow2(k))
    ensures SameOutside(V, O, lo, n)
  {
    assert LevelPartial(cur, L, base) == L;
    BlockIsSlices(V, O, lo, L);
    assert V[lo..lo + n] == L;
    CleanLevelDone(cur, num, j, k, m);
  }

  /** The register half-cleaner level on 2^m registers in blocks of 2^j is a lane level. */
  lemma {:induction false} CleanLevelDone(cur: seq<Reg>, num: nat, j: nat, k: nat, m: nat)
    requires num == Pow2(j) && k == j + 3 && |cur| == Pow2(m) && 1 <= j < m && Lanes8(cur)
    ensures |Level(RegHalfStage, cur, num)| == |cur| && Lanes8(Level(RegHalfStage, cur, num))
    ensures Flat(Level(RegHalfStage, cur, num)) == Level(HalfStage, Flat(cur), Pow2(k))
  {
    Pow2Divides(j, m);
    LiftsHalf(num);
    FlatLevel(RegHalfStage, HalfStage, cur, num);
    Pow2Lanes(j, k);
  }

  /**
   * bitonic_clean_n_vec<numVecs> on the n = 2^m registers at lo: the
   * half-cleaner levels with blocks of n / 2, ..., 2 registers.
   */
  method BitonicCleanNVec(vecs: array<Reg>, lo: nat, n: nat, ghost m: nat)
    requires n == Pow2(m) && m >= 1 && lo + n <= vecs.Length && Lanes8(vecs[lo..lo + n])
    modifies vecs
    ensures Lanes8(vecs[lo..lo + n])
    ensures Flat(vecs[lo..lo + n]) == Cascade(HalfStage, Flat(old(vecs[lo..lo + n])), m + 2, 3)
    ensures SameOutside(vecs[..], old(vecs[..]), lo, n)
  {
    ghost var V := vecs[lo..lo + n];
    ghost var O := vecs[..];
    ghost var goal := Cascade(HalfStage, Flat(V), m + 2, 3);
    var num := n / 2;
    ghost var j: nat := m - 1;
    ghost var k: nat := m + 2;
    Pow2Half(m);
    while num >= 2
      invariant num == Pow2(j) && k == j + 3 && j < m
      invariant Lanes8(vecs[lo..lo + n])
      invariant Cascade(HalfStage, Flat(vecs[lo..lo + n]), k, 3) == goal
      invariant SameOutside(vecs[..], O, lo, n)
      decreases num
    {
      HalveNum(num, j);
      ghost var cur := vecs[lo..lo + n];
      ghost var A := vecs[..];
      CleanLevel(vecs, lo, n, num, j, k, m);
      ghost var k1: nat := k - 1;
      CleanNVecStep(vecs[..], A, O, cur, vecs[lo..lo + n], lo, n, k, k1, goal);
      num := num / 2;
      j := j - 1;
      k := k1;
      assert num == Pow2(j) && k == j + 3 && j < m;
    }
    Pow2Half(j);
  }

  /** One half-cleaner level of bitonic_clean_n_vec done: one step of the cascade. */
  lemma {:induction false} CleanNVecStep(A2: seq<Reg>, A: seq<Reg>, O: seq<Reg>, cur: seq<Reg>, nxt: seq<Reg>,
                                         lo: nat, n: nat, k: nat, k1: nat, goal: seq<int>)
    requires SameOutside(A, O, lo, n) && cur == A[lo..lo + n] && SameOutside(A2, A, lo, n) && nxt == A2[lo..lo + n]
    requires Flat(nxt) == Level(HalfStage, Flat(cur), Pow2(k)) && 3 < k && k1 + 1 == k
    requires Cascade(HalfStage, Flat(cur), k, 3) == goal
    ensures SameOutside(A2, O, lo, n) && Cascade(HalfStage, Flat(nxt), k1, 3) == goal
  {
    CascadeStep(HalfStage, Flat(cur), Flat(nxt), k, k1, 3);
    SameOutsideTrans(A2, A, O, lo, n);
  }

  /** Halving 2^j. */
  lemma Pow2Half(j: nat)
    ensures j >= 1 <==> Pow2(j) >= 2
    ensures j >= 1 ==> Pow2(j) / 2 == Pow2(j - 1)
  {
  }

  lemma {:induction false} HalveNum(num: nat, j: nat)
    requires num == Pow2(j) && num >= 2
    ensures j >= 1 && num / 2 == Pow2(j - 1)
  {
    Pow2Half(j);
  }

  /** 2^k lanes are 2^j registers for k = j + 3. */
  lemma {:induction false} Pow2Lanes(j: nat, k: nat)
    requires k == j + 3
    ensures Pow2(k) == NUMLANES * Pow2(j)
  {
    assert Pow2(k) == 2 * Pow2(j + 2) && Pow2(j + 2) == 2 * Pow2(j + 1) && Pow2(j + 1) == 2 * Pow2(j);
  }

  // ---------------------------------------------------------------------
  // bitonic_merge_n_vec

  lemma {:induction false} RegFlipStageLane(B: seq<Reg>, k: nat)
    requires Lanes8(B) && |B| % 2 == 0 && k < |B|
    ensures RegFlipStage(B)[k]
         == if k < |B| / 2 then VMin(B[k], Rev(B[|B| - 1 - k]))
            else Rev(VMax(B[|B| - 1 - k], Rev(B[k])))
  {
    var n, h := |B|, |B| / 2;
    var lo, hi := B[..h], B[h..];
    var rhi := RevRegs(hi);
    var mn, mx := ZipMin(lo, rhi), ZipMax(lo, rhi);
    assert RegFlipStage(B) == mn + RevRegs(mx);
    assert |mn| == h && |mx| == h;
    if k < h {
      assert rhi[k] == Rev(hi[h - 1 - k]) && hi[h - 1 - k] == B[n - 1 - k];
      assert mn[k] == VMin(lo[k], rhi[k]) && lo[k] == B[k];
      assert RegFlipStage(B)[k] == mn[k];
    } else {
      var k' := n - 1 - k;
      assert RevRegs(mx)[k - h] == Rev(mx[k']);
      assert rhi[k'] == Rev(hi[h - 1 - k']) && hi[h - 1 - k'] == B[k];
      assert mx[k'] == VMax(lo[k'], rhi[k']) && lo[k'] == B[k'];
      assert RegFlipStage(B)[k] == RevRegs(mx)[k - h];
    }
  }

  /** The block after the first i steps of the reversing loop. */
  function FlipPartial(B: seq<Reg>, i: nat): (r: seq<Reg>)
    requires Lanes8(B) && |B| % 2 == 0 && i <= |B| / 2
    ensures |r| == |B|
  {
    var n := |B|;
    seq(n, k requires 0 <= k < n =>
      if k < i then VMin(B[k], Rev(B[n - 1 - k]))
      else if n - i <= k then Rev(VMax(B[n - 1 - k], Rev(B[k])))
      else B[k])
  }

  lemma {:induction false} FlipPartialStep(B: seq<Reg>, i: nat)
    requires Lanes8(B) && |B| % 2 == 0 && i < |B| / 2
    ensures FlipPartial(B, i)[i] == B[i] && FlipPartial(B, i)[|B| - 1 - i] == B[|B| - 1 - i]
    ensures FlipPartial(B, i + 1)
         == FlipPartial(B, i)[|B| - 1 - i := Rev(VMax(B[i], Rev(B[|B| - 1 - i])))][i := VMin(B[i], Rev(B[|B| - 1 - i]))]
  {
  }

  lemma {:induction false} FlipPartialDone(B: seq<Reg>)
    requires Lanes8(B) && |B| % 2 == 0
    ensures FlipPartial(B, |B| / 2) == RegFlipStage(B)
  {
    var R := FlipPartial(B, |B| / 2);
    forall k | 0 <= k < |B| ensures R[k] == RegFlipStage(B)[k] {
      RegFlipStageLane(B, k);
    }
  }

  /** One step of the reversing loop, on the array's contents. */
  lemma {:induction false} FlipStep(A: seq<Reg>, A2: seq<Reg>, O: seq<Reg>, B: seq<Reg>, lo: nat, i: nat, a: nat, b: nat)
    requires Lanes8(B) && |B| % 2 == 0 && i < |B| / 2 && a == lo + i && b == lo + |B| - 1 - i
    requires BlockIs(A, O, lo, FlipPartial(B, i))
    requires a < b < |A| && |A[a]| == |A[b]| && A2 == FlipPairAt(A, a, b)
    ensures BlockIs(A2, O, lo, FlipPartial(B, i + 1))
  {
    var n, P := |B|, FlipPartial(B, i);
    var vb, va := Rev(VMax(B[i], Rev(B[n - 1 - i]))), VMin(B[i], Rev(B[n - 1 - i]));
    FlipStepLanes(A, O, B, lo, i, a, b);
    FlipPartialStep(B, i);
    SplicedTwo(A, A2, O, P, FlipPartial(B, i + 1), lo, n - 1 - i, i, vb, va);
  }

  /** Two updates of the spliced-in block are two updates of the whole. */
  lemma {:induction false} SplicedTwo<T>(A: seq<T>, A2: seq<T>, O: seq<T>, P: seq<T>, P1: seq<T>,
                                         at: nat, x: nat, y: nat, vx: T, vy: T)
    requires at + |P| <= |O| && x < |P| && y < |P| && A == Spliced(O, at, P)
    requires P1 == P[x := vx][y := vy] && A2 == A[at + x := vx][at + y := vy]
    ensures A2 == Spliced(O, at, P1)
  {
    SplicedUpdate(O, at, P, x, vx);
    SplicedUpdate(O, at, P[x := vx], y, vy);
  }

  /** The reversing loop of bitonic_merge_n_vec for more than two registers. */
  method FlipHalves(vecs: array<Reg>, lo: nat, n: nat)
    requires n % 2 == 0 && lo + n <= vecs.Length && Lanes8(vecs[lo..lo + n])
    modifies vecs
    ensures vecs[lo..lo + n] == RegFlipStage(old(vecs[lo..lo + n]))
    ensures SameOutside(vecs[..], old(vecs[..]), lo, n)
  {
    ghost var B := vecs[lo..lo + n];
    ghost var O := vecs[..];
    var i := 0;
    FlipPartialStart(O, B, lo);
    while i < n / 2
      invariant 0 <= i <= n / 2
      invariant BlockIs(vecs[..], O, lo, FlipPartial(B, i))
    {
      ghost var A := vecs[..];
      var a := lo + i;
      var b := lo + n - 1 - i;
      FlipStepLanes(A, O, B, lo, i, a, b);
      FlipVecs(vecs, a, b);
      FlipStep(A, vecs[..], O, B, lo, i, a, b);
      i := i + 1;
    }
    FlipPartialEnd(vecs[..], O, B, lo, i);
  }

  /**
   * One step of the reversing loop of bitonic_merge_n_vec: ymm[j] and the
   * reversal of its mirror register are COEXed; the maximum goes back reversed.
   */
  function FlipPairAt(V: seq<Reg>, a: nat, b: nat): (r: seq<Reg>)
    requires a < b < |V| && |V[a]| == |V[b]|
    ensures |r| == |V|
  {
    V[b := Rev(VMax(V[a], Rev(V[b])))][a := VMin(V[a], Rev(V[b]))]
  }

  method FlipVecs(vecs: array<Reg>, a: nat, b: nat)
    requires a < b < vecs.Length && |vecs[a]| == |vecs[b]|
    modifies vecs
    ensures vecs[..] == FlipPairAt(old(vecs[..]), a, b)
  {
    var rev := Rev(vecs[b]);
    var maxV := VMax(vecs[a], rev);
    var minV := VMin(vecs[a], rev);
    vecs[b] := Rev(maxV);
    vecs[a] := minV;
  }

  lemma {:induction false} FlipStepLanes(A: seq<Reg>, O: seq<Reg>, B: seq<Reg>, lo: nat, i: nat, a: nat, b: nat)
    requires Lanes8(B) && |B| % 2 == 0 && i < |B| / 2 && a == lo + i && b == lo + |B| - 1 - i
    requires BlockIs(A, O, lo, FlipPartial(B, i))
    ensures a < b < |A| && A[a] == B[i] && A[b] == B[|B| - 1 - i] && |A[a]| == |A[b]| == NUMLANES
  {
    var P := FlipPartial(B, i);
    FlipPartialStep(B, i);
    SplicedAt(O, lo, P, i);
    SplicedAt(O, lo, P, |B| - 1 - i);
  }

  lemma {:induction false} FlipPartialStart(O: seq<Reg>, B: seq<Reg>, lo: nat)
    requires lo + |B| <= |O| && B == O[lo..lo + |B|] && Lanes8(B) && |B| % 2 == 0
    ensures BlockIs(O, O, lo, FlipPartial(B, 0))
  {
    BlockIsStart(O, lo, |B|);
    assert FlipPartial(B, 0) == B;
  }

  lemma {:induction false} FlipPartialEnd(V: seq<Reg>, O: seq<Reg>, B: seq<Reg>, lo: nat, i: nat)
    requires Lanes8(B) && |B| % 2 == 0 && i == |B| / 2 && BlockIs(V, O, lo, FlipPartial(B, i))
    ensures V[lo..lo + |B|] == RegFlipStage(B) && SameOutside(V, O, lo, |B|)
  {
    FlipPartialDone(B);
    BlockIsSlices(V, O, lo, FlipPartial(B, i));
  }

  /** The last loop of bitonic_merge_n_vec: vtype::bitonic_merge on every register. */
  method MergeEachVec(vecs: array<Reg>, lo: nat, n: nat)
    requires lo + n <= vecs.Length && Lanes8(vecs[lo..lo + n])
    modifies vecs
    ensures vecs[lo..lo + n] == MergeRegs(old(vecs[lo..lo + n]))
    ensures SameOutside(vecs[..], old(vecs[..]), lo, n)
  {
    ghost var V := vecs[lo..lo + n];
    ghost var O := vecs[..];
    var i := 0;
    MergeEachStart(O, V, lo);
    while i < n
      invariant 0 <= i <= n
      invariant BlockIs(vecs[..], O, lo, MergePartial(V, i))
    {
      ghost var A := vecs[..];
      var at := lo + i;
      MergeEachLane(A, O, V, lo, i, at);
      vecs[at] := BitonicMergeReg8Lanes(vecs[at]);
      MergeEachStep(A, vecs[..], O, V, lo, i, at);
      i := i + 1;
    }
    MergeEachEnd(vecs[..], O, V, lo);
  }

  /** The registers after the first i of the last loop of bitonic_merge_n_vec. */
  function MergePartial(V: seq<Reg>, i: nat): (r: seq<Reg>)
    requires Lanes8(V) && i <= |V|
    ensures |r| == |V|
  {
    seq(|V|, k requires 0 <= k < |V| => if k < i then BitonicMergeReg8Lanes(V[k]) else V[k])
  }

  lemma {:induction false} MergeEachStart(O: seq<Reg>, V: seq<Reg>, lo: nat)
    requires lo + |V| <= |O| && V == O[lo..lo + |V|] && Lanes8(V)
    ensures BlockIs(O, O, lo, MergePartial(V, 0))
  {
    assert MergePartial(V, 0) == V;
    BlockIsStart(O, lo, |V|);
  }

  lemma {:induction false} MergeEachLane(A: seq<Reg>, O: seq<Reg>, V: seq<Reg>, lo: nat, i: nat, at: nat)
    requires Lanes8(V) && i < |V| && at == lo + i && BlockIs(A, O, lo, MergePartial(V, i))
    ensures at < |A| && A[at] == V[i] && |A[at]| == NUMLANES
  {
    SplicedAt(O, lo, MergePartial(V, i), i);
  }

  lemma {:induction false} MergeEachStep(A: seq<Reg>, A2: seq<Reg>, O: seq<Reg>, V: seq<Reg>, lo: nat, i: nat, at: nat)
    requires Lanes8(V) && i < |V| && at == lo + i && BlockIs(A, O, lo, MergePartial(V, i))
    requires at < |A| && A[at] == V[i] && A2 == A[at := BitonicMergeReg8Lanes(V[i])]
    ensures BlockIs(A2, O, lo, MergePartial(V, i + 1))
  {
    var P := MergePartial(V, i);
    assert MergePartial(V, i + 1) == P[i := BitonicMergeReg8Lanes(V[i])];
    SplicedUpdate(O, lo, P, i, BitonicMergeReg8Lanes(V[i]));
  }

  lemma {:induction false} MergeEachEnd(A: seq<Reg>, O: seq<Reg>, V: seq<Reg>, lo: nat)
    requires Lanes8(V) && BlockIs(A, O, lo, MergePartial(V, |V|))
    ensures A[lo..lo + |V|] == MergeRegs(V) && SameOutside(A, O, lo, |V|)
  {
    assert MergePartial(V, |V|) == MergeRegs(V);
    BlockIsSlices(A, O, lo, MergePartial(V, |V|));
  }

  /** For more than two registers the register merge is MergeRec on the lanes. */
  lemma {:induction false} MergeNVecLanes(V: seq<Reg>, C: seq<Reg>, m: nat)
    requires |V| == Pow2(m) && m >= 2 && Lanes8(V) && Lanes8(C) && |C| == |V|
    requires Flat(C) == Cascade(HalfStage, Flat(RegFlipStage(V)), m + 2, 3)
    ensures MergedBlock(Flat(MergeRegs(C)), Flat(V))
  {
    Pow2Mono(1, m);
    var FV := Flat(V);
    Pow2Plus3(m);
    Pow2IsPow2(m + 3);
    StagesKeepLength();
    assert Pow2(m) % 2 == 0;
    FlatFlipStage(V);
    FlatMergeRegs(C);
    DescendSplit(HalfStage, FlipStage(FV), m + 2, 3);
    LevelBlock(FlipStage, FV);
    MergeLevelsRec(FV, m + 3);
  }

  /** For two registers the merge leaves the upper half unreversed: MergeUnreversed. */
  lemma {:induction false} MergeTwoLanes(V: seq<Reg>, W: seq<Reg>, C: seq<Reg>)
    requires |V| == 2 && Lanes8(V) && Lanes8(C) && |C| == 2
    requires W == [VMin(V[0], Rev(V[1])), VMax(V[0], Rev(V[1]))]
    requires Flat(C) == Cascade(HalfStage, Flat(W), 3, 3)
    ensures MergedBlock(Flat(MergeRegs(C)), Flat(V))
  {
    var a, b := W[0], W[1];
    assert W == [a] + [b];
    FlatConcat([a], [b]);
    FlatOne(a);
    FlatOne(b);
    assert V == [V[0]] + [V[1]];
    FlatConcat([V[0]], [V[1]]);
    FlatOne(V[0]);
    FlatOne(V[1]);
    assert Pow2(4) == 16;
    Pow2IsPow2(4);
    Pow2IsPow2(3);
    StagesKeepLength();
    FlatMergeRegs(C);
    assert Multiple(8, Pow2(3)) by { MultipleSelf(8); }
    DescendConcat(HalfStage, a, b, 3);
    CleanLevelsRec(a, 3);
    CleanLevelsRec(b, 3);
  }

  /**
   * The lanes r that bitonic_merge_n_vec leaves for the lanes s of its
   * registers: MergeRec, except that for two registers the upper half is
   * left unreversed.
   */
  predicate MergedBlock(r: seq<int>, s: seq<int>)
  {
    IsPow2(|s|) && |s| >= 2 && r == if |s| == 2 * NUMLANES then MergeUnreversed(s) else MergeRec(s)
  }

  /**
   * bitonic_merge_n_vec<numVecs> on the n = 2^m registers at lo, whose two
   * halves are each ascending in the callers: the whole block ends ascending.
   */
  method BitonicMergeNVec(vecs: array<Reg>, lo: nat, n: nat, ghost m: nat)
    requires n == Pow2(m) && m >= 1 && lo + n <= vecs.Length && Lanes8(vecs[lo..lo + n])
    modifies vecs
    ensures Lanes8(vecs[lo..lo + n])
    ensures MergedBlock(Flat(vecs[lo..lo + n]), Flat(old(vecs[lo..lo + n])))
    ensures SameOutside(vecs[..], old(vecs[..]), lo, n)
  {
    ghost var V := vecs[lo..lo + n];
    ghost var O := vecs[..];
    assert n % 2 == 0 by {
      assert Pow2(m) == 2 * Pow2(m - 1);
    }
    if n == 2 {
      FlipTwo(vecs, lo, n);
    } else {
      FlipHalves(vecs, lo, n);
    }
    ghost var W := vecs[lo..lo + n];
    ghost var A1 := vecs[..];
    FirstStageLanes(V);
    BitonicCleanNVec(vecs, lo, n, m);
    SameOutsideTrans(vecs[..], A1, O, lo, n);
    ghost var C := vecs[lo..lo + n];
    ghost var A2 := vecs[..];
    MergeEachVec(vecs, lo, n);
    SameOutsideTrans(vecs[..], A2, O, lo, n);
    MergeNVecDone(V, W, C, vecs[lo..lo + n], m);
  }

  /**
   * The first part of bitonic_merge_n_vec: for two registers ymm[1] is
   * reversed and COEXed with ymm[0] (and left so); for more, the reversing
   * loop.
   */
  function FirstStage(V: seq<Reg>): (r: seq<Reg>)
    requires Lanes8(V) && |V| % 2 == 0
  {
    if |V| == 2 then [VMin(V[0], Rev(V[1])), VMax(V[0], Rev(V[1]))] else RegFlipStage(V)
  }

  lemma {:induction false} FirstStageLanes(V: seq<Reg>)
    requires Lanes8(V) && |V| % 2 == 0
    ensures |FirstStage(V)| == |V| && Lanes8(FirstStage(V))
  {
    if |V| != 2 {
      FlatFlipStage(V);
    }
  }

  /** bitonic_merge_n_vec<2>'s first part: reverse ymm[1], then COEX(ymm[0], ymm[1]). */
  method FlipTwo(vecs: array<Reg>, lo: nat, n: nat)
    requires n == 2 && lo + n <= vecs.Length && Lanes8(vecs[lo..lo + n])
    modifies vecs
    ensures vecs[lo..lo + n] == FirstStage(old(vecs[lo..lo + n]))
    ensures SameOutside(vecs[..], old(vecs[..]), lo, n)
  {
    ghost var V := vecs[lo..lo + n];
    var hi := lo + 1;
    assert vecs[lo] == V[0] && vecs[hi] == V[1];
    vecs[hi] := Rev(vecs[hi]);
    var c := Coex(vecs[lo], vecs[hi]);
    vecs[lo], vecs[hi] := c.0, c.1;
    assert vecs[lo..lo + n] == [c.0, c.1];
  }

  /** The three parts of bitonic_merge_n_vec together give MergedBlock. */
  lemma {:induction false} MergeNVecDone(V: seq<Reg>, W: seq<Reg>, C: seq<Reg>, R: seq<Reg>, m: nat)
    requires |V| == Pow2(m) && m >= 1 && Lanes8(V) && |V| % 2 == 0 && W == FirstStage(V)
    requires Lanes8(C) && |C| == |V| && Flat(C) == Cascade(HalfStage, Flat(W), m + 2, 3)
    requires R == MergeRegs(C)
    ensures Lanes8(R) && MergedBlock(Flat(R), Flat(V))
  {
    if |V| == 2 {
      MergeTwoLanes(V, W, C);
    } else {
      assert Pow2(1) == 2;
      assert m >= 2;
      MergeNVecLanes(V, C, m);
    }
  }

  // ---------------------------------------------------------------------
  // bitonic_fullmerge_n_vec

  lemma {:induction false} GroupsSortedSnoc(A: seq<Reg>, B: seq<Reg>, g: nat)
    requires GroupsSorted(A, g) && |B| == g && Sorted(Flat(B))
    ensures GroupsSorted(A + B, g)
    decreases |A|
  {
    if |A| == 0 {
      assert A + B == B && B[..g] == B && B[g..] == [];
    } else {
      assert (A + B)[..g] == A[..g];
      assert (A + B)[g..] == A[g..] + B;
      GroupsSortedSnoc(A[g..], B, g);
    }
  }

  /** Each sorted register is a sorted group of one. */
  lemma {:induction false} GroupsSortedOne(V: seq<Reg>)
    requires forall i :: 0 <= i < |V| ==> Sorted(V[i])
    ensures GroupsSorted(V, 1)
    decreases |V|
  {
    if |V| > 0 {
      assert V[..1] == [V[0]];
      FlatOne(V[0]);
      GroupsSortedOne(V[1..]);
    }
  }

  /** Merging the first group of g registers, whose halves are ascending. */
  lemma {:induction false} MergeGroupStep(P: seq<Reg>, S: seq<Reg>, G: seq<Reg>, g: nat, h: nat)
    requires g == 2 * h && |S| >= g && Lanes8(S) && Lanes8(G) && |G| == g
    requires GroupsSorted(P, g) && GroupsSorted(S, h)
    requires MergedBlock(Flat(G), Flat(S[..g]))
    ensures GroupsSorted(P + G, g) && GroupsSorted(S[g..], h)
    ensures multiset(Flat(G)) == multiset(Flat(S[..g]))
  {
    var T := S[..g];
    GroupHalves(S, g, h);
    FlatSplit(T, h);
    MergedSorted(Flat(G), Flat(T));
    GroupsSortedSnoc(P, G, g);
  }

  /** The first two groups of h registers are the halves of the first group of 2h. */
  lemma {:induction false} GroupHalves(S: seq<Reg>, g: nat, h: nat)
    requires g == 2 * h && |S| >= g && GroupsSorted(S, h)
    ensures Sorted(Flat(S[..g][..h])) && Sorted(Flat(S[..g][h..])) && GroupsSorted(S[g..], h)
  {
    assert S[h..][..h] == S[..g][h..] && S[h..][h..] == S[g..] && S[..h] == S[..g][..h];
  }

  /** A merged block whose halves were ascending is ascending and a permutation. */
  lemma {:induction false} MergedSorted(r: seq<int>, s: seq<int>)
    requires MergedBlock(r, s) && Sorted(s[..|s| / 2]) && Sorted(s[|s| / 2..])
    ensures Sorted(r) && multiset(r) == multiset(s)
  {
    MergeSorts(s);
    MergeRecMultiset(s);
    MergeUnreversedMultiset(s);
  }

  /** Outside [a, b) the two sequences agree, so their prefix and suffix do. */
  lemma {:induction false} FrameSlices<T>(A: seq<T>, A2: seq<T>, a: nat, b: nat)
    requires a <= b <= |A| == |A2|
    requires forall x :: 0 <= x < |A| && !(a <= x < b) ==> A2[x] == A[x]
    ensures A2[..a] == A[..a] && A2[b..] == A[b..]
  {
    assert A2[..a] == A[..a];
    assert A2[b..] == A[b..];
  }

  lemma {:induction false} SliceParts<T>(A: seq<T>, a: nat, b: nat, d: nat)
    requires a <= b <= |A| && d == b - a
    ensures A[..b] == A[..a] + A[a..b]
    ensures A[a..][..d] == A[a..b] && A[a..][d..] == A[b..]
  {
    assert A[..b] == A[..a] + A[a..b];
    assert A[a..][..d] == A[a..b];
    assert A[a..][d..] == A[b..];
  }

  /** The lanes of a register array are those of its three parts. */
  lemma {:induction false} FlatParts(A: seq<Reg>, a: nat, b: nat)
    requires a <= b <= |A|
    ensures multiset(Flat(A)) == multiset(Flat(A[..a])) + multiset(Flat(A[a..b])) + multiset(Flat(A[b..]))
  {
    var R := A[a..];
    var FX, FY, FZ := Flat(A[..a]), Flat(A[a..b]), Flat(A[b..]);
    FlatCut(A, a);
    assert R[..b - a] == A[a..b] && R[b - a..] == A[b..];
    FlatCut(R, b - a);
    assert Flat(A) == FX + (FY + FZ);
    assert multiset(FY + FZ) == multiset(FY) + multiset(FZ);
    assert multiset(FX + (FY + FZ)) == multiset(FX) + multiset(FY + FZ);
  }

  lemma {:induction false} FlatCut(A: seq<Reg>, a: nat)
    requires a <= |A|
    ensures Flat(A) == Flat(A[..a]) + Flat(A[a..])
  {
    assert A == A[..a] + A[a..];
    FlatConcat(A[..a], A[a..]);
  }

  /**
   * The register array during bitonic_fullmerge_n_vec's inner loop: the
   * groups of g before base are merged, the groups of h = g / 2 from base on
   * are not yet, and the lanes are those of O.
   */
  ghost predicate MergeInv(V: seq<Reg>, O: seq<Reg>, base: nat, g: nat, h: nat)
  {
    base <= |V| && Lanes8(V) && GroupsSorted(V[..base], g) && GroupsSorted(V[base..], h)
    && multiset(Flat(V)) == multiset(Flat(O))
  }

  lemma {:induction false} MergeInvStart(O: seq<Reg>, g: nat, h: nat)
    requires Lanes8(O) && GroupsSorted(O, h) && g > 0
    ensures MergeInv(O, O, 0, g, h)
  {
    assert O[..0] == [] && O[0..] == O;
  }

  lemma {:induction false} MergeInvEnd(V: seq<Reg>, O: seq<Reg>, base: nat, g: nat, h: nat)
    requires MergeInv(V, O, base, g, h) && base == |V|
    ensures Lanes8(V) && GroupsSorted(V, g) && multiset(Flat(V)) == multiset(Flat(O))
  {
    assert V[..base] == V;
  }

  lemma {:induction false} MergeInvBlock(A: seq<Reg>, O: seq<Reg>, base: nat, g: nat, h: nat, e: nat)
    requires MergeInv(A, O, base, g, h) && e == base + g && e <= |A|
    ensures Lanes8(A[base..base + g])
  {
  }

  /**
   * One step of bitonic_fullmerge_n_vec's loop: A2 is A with the group of g
   * registers at base merged.
   */
  lemma {:induction false} GroupStep(A: seq<Reg>, A2: seq<Reg>, O: seq<Reg>, base: nat, g: nat, h: nat, e: nat)
    requires g == 2 * h && e == base + g && e <= |A|
    requires MergeInv(A, O, base, g, h)
    requires SameOutside(A2, A, base, g)
    requires Lanes8(A2[base..base + g]) && MergedBlock(Flat(A2[base..base + g]), Flat(A[base..base + g]))
    ensures MergeInv(A2, O, e, g, h)
  {
    var P, S, G := A[..base], A[base..], A2[base..e];
    GroupSlices(A, A2, base, e, g);
    assert Lanes8(S) && |S| >= g;
    MergeGroupStep(P, S, G, g, h);
    GroupFrame(A, A2, O, base, e, g);
  }

  /** The slices of one step of bitonic_fullmerge_n_vec's loop. */
  lemma {:induction false} GroupSlices<T>(A: seq<T>, A2: seq<T>, base: nat, e: nat, g: nat)
    requires e == base + g && e <= |A| && SameOutside(A2, A, base, g)
    ensures A2[..base] == A[..base] && A2[e..] == A[e..] && A2[base..e] == A2[base..base + g]
    ensures A[base..][..g] == A[base..e] == A[base..base + g] && A[base..][g..] == A[e..]
    ensures A2[..e] == A2[..base] + A2[base..e]
  {
    SameOutsideSlices(A2, A, base, g, e);
    SliceParts(A, base, e, g);
    SliceParts(A2, base, e, g);
  }

  /** The lanes outside the merged group are unchanged, so the array keeps its lanes. */
  lemma {:induction false} GroupFrame(A: seq<Reg>, A2: seq<Reg>, O: seq<Reg>, base: nat, e: nat, g: nat)
    requires e == base + g && e <= |A| && SameOutside(A2, A, base, g) && Lanes8(A)
    requires Lanes8(A2[base..e]) && multiset(Flat(A2[base..e])) == multiset(Flat(A[base..e]))
    requires multiset(Flat(A)) == multiset(Flat(O))
    ensures Lanes8(A2) && multiset(Flat(A2)) == multiset(Flat(O))
  {
    GroupSlices(A, A2, base, e, g);
    FlatParts(A, base, e);
    FlatParts(A2, base, e);
    forall x | 0 <= x < |A2| ensures |A2[x]| == NUMLANES {
      if base <= x < e {
        assert A2[x] == A2[base..e][x - base];
      } else {
        assert A2[x] == A[x];
      }
    }
  }

  /**
   * The loop of bitonic_fullmerge_n_vec<numVecs, g>: bitonic_merge_n_vec<g>
   * on ymm + i * g for i < numVecs / g (base is i * g).
   */
  method MergeGroups(vecs: array<Reg>, g: nat, ghost h: nat, ghost j: nat)
    requires g == Pow2(j) && j >= 1 && g == 2 * h && Multiple(vecs.Length, g)
    requires Lanes8(vecs[..]) && GroupsSorted(vecs[..], h)
    modifies vecs
    ensures Lanes8(vecs[..]) && GroupsSorted(vecs[..], g)
    ensures multiset(Flat(vecs[..])) == multiset(Flat(old(vecs[..])))
  {
    ghost var O := vecs[..];
    var base := 0;
    MergeInvStart(O, g, h);
    while base < vecs.Length
      invariant base <= vecs.Length && Multiple(vecs.Length - base, g) && Multiple(base, g)
      invariant MergeInv(vecs[..], O, base, g, h)
      decreases vecs.Length - base
    {
      ghost var A := vecs[..];
      var e := base + g;
      MultipleNext(vecs.Length, base, e, g);
      MergeInvBlock(A, O, base, g, h, e);
      BitonicMergeNVec(vecs, base, g, j);
      GroupStep(A, vecs[..], O, base, g, h, e);
      base := e;
    }
    MergeInvEnd(vecs[..], O, base, g, h);
  }

  /**
   * bitonic_fullmerge_n_vec<numVecs>: merges groups of 2, 4, ..., numVecs
   * registers; registers that start ascending end as one ascending run.
   */
  method BitonicFullmergeNVec(vecs: array<Reg>, ghost m: nat)
    requires vecs.Length == Pow2(m) && Lanes8(vecs[..])
    requires forall i :: 0 <= i < vecs.Length ==> Sorted(vecs[i])
    modifies vecs
    ensures Lanes8(vecs[..]) && Sorted(Flat(vecs[..]))
    ensures multiset(Flat(vecs[..])) == multiset(Flat(old(vecs[..])))
  {
    var n := vecs.Length;
    GroupsSortedOne(vecs[..]);
    MultipleOne(n);
    var numPer := 2;
    ghost var half := 1;
    ghost var j := 1;
    while numPer <= n
      invariant numPer == Pow2(j) && j >= 1 && numPer == 2 * half && half <= n
      invariant Lanes8(vecs[..]) && GroupsSorted(vecs[..], half) && Multiple(n, half)
      invariant multiset(Flat(vecs[..])) == multiset(Flat(old(vecs[..])))
      decreases n - half
    {
      if j > m {
        Pow2Mono(m, j);
      }
      Pow2Divides(j, m);
      MergeGroups(vecs, numPer, half, j);
      half := numPer;
      numPer := numPer * 2;
      j := j + 1;
    }
    GroupsAll(vecs[..], half);
  }

  /** Groups whose size is at least the whole sequence are the whole sequence. */
  lemma {:induction false} GroupsAll(V: seq<Reg>, g: nat)
    requires GroupsSorted(V, g) && Multiple(|V|, g) && 2 * g > |V|
    ensures Sorted(Flat(V))
  {
    if |V| > 0 {
      assert |V| == g by {
        assert |V| >= g && Multiple(|V| - g, g);
      }
      assert V[..g] == V;
    }
  }

  // ---------------------------------------------------------------------
  // sort_n_vec and sort_n

  /** The n low bits of 2^w - 1 are w ones, then zeros. */
  lemma {:induction false} LowBits(x: nat, w: nat, n: nat)
    requires w <= n && x == Pow2(w) - 1
    ensures forall j :: 0 <= j < n ==> (Bits(x, n)[j] <==> j < w)
    decreases n
  {
    if n > 0 {
      var x' := x / 2;
      if w > 0 {
        assert x % 2 == 1 && x' == Pow2(w - 1) - 1;
        LowBits(x', w - 1, n - 1);
      } else {
        assert x' == 0;
        LowBits(x', 0, n - 1);
      }
      var b := Bits(x, n);
      assert b == [x % 2 == 1] + Bits(x', n - 1);
      forall j | 1 <= j < n ensures b[j] <==> j < w {
        assert b[j] == Bits(x', n - 1)[j - 1];
      }
    }
  }

  lemma {:induction false} Pow2Eight()
    ensures Pow2(NUMLANES) == 256
  {
    assert Pow2(2) == 4;
    assert Pow2(4) == 16 by { assert Pow2(4) == 2 * Pow2(3); }
    assert Pow2(6) == 64 by { assert Pow2(6) == 2 * Pow2(5); }
    assert Pow2(8) == 2 * Pow2(7);
  }

  /** The mask ((1 << w) - 1) & ((1 << NUMLANES) - 1) enables exactly the lanes below w. */
  lemma {:induction false} LoadMaskLanes(w: nat)
    requires w <= NUMLANES
    ensures forall j :: 0 <= j < NUMLANES ==> (LoadMask(w)[j] <==> j < w)
  {
    Pow2Eight();
    if w < NUMLANES {
      Pow2Mono(w, NUMLANES);
    }
    var x := Pow2(w) - 1;
    assert x < 256 && x % 256 == x;
    LowBits(x, w, NUMLANES);
  }

  /** The load mask of register i enables exactly its lanes that hold input. */
  lemma {:induction false} MaskedLanes(N: int, i: nat)
    ensures forall j :: 0 <= j < NUMLANES ==> (LoadMask(NumToWrite(N, i))[j] <==> NUMLANES * i + j < N)
  {
    LoadMaskLanes(NumToWrite(N, i));
  }

  /** The loaded registers are the input followed by type_max padding. */
  lemma {:induction false} LoadedFlat(V: seq<Reg>, s: seq<int>)
    requires |s| <= NUMLANES * |V| && V == PaddedRegs(s, |V|)
    ensures Flat(V) == s + Set1(TYPE_MAX, NUMLANES * |V| - |s|)
  {
    var pad := Set1(TYPE_MAX, NUMLANES * |V| - |s|);
    forall x | 0 <= x < NUMLANES * |V| ensures Flat(V)[x] == (s + pad)[x] {
      FlatIndex(V, x);
      var k, j := x / NUMLANES, x % NUMLANES;
      assert NUMLANES * k + j == x;
      assert Flat(V)[x] == Padded(s, k)[j];
    }
  }

  /** The lanes of register i are the lanes NUMLANES * i, ... of Flat. */
  lemma {:induction false} RegLanes(V: seq<Reg>, i: nat)
    requires Lanes8(V) && i < |V|
    ensures forall x :: NUMLANES * i <= x < NUMLANES * i + NUMLANES ==> Flat(V)[x] == V[i][x - NUMLANES * i]
  {
    forall x | NUMLANES * i <= x < NUMLANES * i + NUMLANES ensures Flat(V)[x] == V[i][x - NUMLANES * i] {
      FlatIndex(V, x);
      assert x / NUMLANES == i && x % NUMLANES == x - NUMLANES * i;
    }
  }

  /**
   * The loads of sort_n_vec: loadu for the first numVecs / 2 registers,
   * which lie inside the input, then mask_loadu over type_max.
   */
  method LoadVecs(arr: array<int>, lo: nat, N: nat, numVecs: nat) returns (vecs: array<Reg>)
    requires NUMLANES * (numVecs / 2) <= N <= NUMLANES * numVecs && lo + N <= arr.Length
    ensures fresh(vecs) && vecs[..] == PaddedRegs(arr[lo..lo + N], numVecs)
  {
    ghost var s := arr[lo..lo + N];
    vecs := new Reg[numVecs];
    var i := 0;
    while i < numVecs / 2
      invariant 0 <= i <= numVecs / 2 && vecs.Length == numVecs
      invariant vecs[..i] == PaddedRegs(s, i)
    {
      var v := arr[lo + i * NUMLANES..lo + i * NUMLANES + NUMLANES];
      FullLoad(arr[..], s, lo, N, i, v);
      vecs[i] := v;
      PaddedRegsSnoc(vecs[..], s, i);
      i := i + 1;
    }
    while i < numVecs
      invariant numVecs / 2 <= i <= numVecs && vecs.Length == numVecs
      invariant vecs[..i] == PaddedRegs(s, i)
    {
      var mask := LoadMask(NumToWrite(N, i));
      MaskedLanes(N, i);
      var v := MaskLoad(Set1(TYPE_MAX, NUMLANES), mask, arr[..], lo + i * NUMLANES);
      MaskedLoad(arr[..], s, lo, N, i, mask, v);
      vecs[i] := v;
      PaddedRegsSnoc(vecs[..], s, i);
      i := i + 1;
    }
    assert vecs[..] == vecs[..i];
  }

  /** The first n registers of the padded input. */
  function PaddedRegs(s: seq<int>, n: nat): (r: seq<Reg>)
    ensures |r| == n && Lanes8(r)
  {
    seq(n, k requires 0 <= k < n => Padded(s, k))
  }

  lemma {:induction false} PaddedRegsSnoc(V: seq<Reg>, s: seq<int>, i: nat)
    requires i < |V| && V[..i] == PaddedRegs(s, i) && V[i] == Padded(s, i)
    ensures V[..i + 1] == PaddedRegs(s, i + 1)
  {
    assert V[..i + 1] == V[..i] + [V[i]];
  }

  /** An unmasked load of register i reads eight input elements. */
  lemma {:induction false} FullLoad(a: seq<int>, s: seq<int>, lo: nat, N: nat, i: nat, v: Reg)
    requires lo + N <= |a| && s == a[lo..lo + N] && NUMLANES * i + NUMLANES <= N
    requires v == a[lo + i * NUMLANES..lo + i * NUMLANES + NUMLANES]
    ensures v == Padded(s, i)
  {
    forall j | 0 <= j < NUMLANES ensures v[j] == Padded(s, i)[j] {
      assert s[NUMLANES * i + j] == a[lo + i * NUMLANES + j];
    }
  }

  /** A masked load of register i reads the input where it lasts and type_max after. */
  lemma {:induction false} MaskedLoad(a: seq<int>, s: seq<int>, lo: nat, N: nat, i: nat, mask: Mask, v: Reg)
    requires lo + N <= |a| && s == a[lo..lo + N] && |mask| == NUMLANES
    requires forall j :: 0 <= j < NUMLANES ==> (mask[j] <==> j < N - NUMLANES * i)
    requires forall j :: 0 <= j < NUMLANES && mask[j] ==> lo + i * NUMLANES + j < |a|
    requires v == MaskLoad(Set1(TYPE_MAX, NUMLANES), mask, a, lo + i * NUMLANES)
    ensures v == Padded(s, i)
  {
    forall j | 0 <= j < NUMLANES ensures v[j] == Padded(s, i)[j] {
      if NUMLANES * i + j < N {
        assert s[NUMLANES * i + j] == a[lo + i * NUMLANES + j];
      }
    }
  }

  /** vtype::sort_vec on each loaded register. */
  method SortEachVec(vecs: array<Reg>)
    requires Lanes8(vecs[..])
    modifies vecs
    ensures vecs[..] == SortRegs(old(vecs[..]))
  {
    ghost var V := vecs[..];
    var i := 0;
    SortEachStart(V);
    while i < vecs.Length
      invariant 0 <= i <= vecs.Length
      invariant vecs[..] == SortPartial(V, i)
    {
      ghost var A := vecs[..];
      SortEachLane(A, V, i);
      vecs[i] := SortReg8Lanes(vecs[i]);
      SortEachStep(A, vecs[..], V, i);
      i := i + 1;
    }
    SortEachEnd(V);
  }

  /** vtype::sort_vec of every register. */
  function SortRegs(V: seq<Reg>): (r: seq<Reg>)
    requires Lanes8(V)
    ensures |r| == |V| && Lanes8(r)
  {
    seq(|V|, k requires 0 <= k < |V| => SortReg8Lanes(V[k]))
  }

  /** The registers after the first i of the sort_vec loop. */
  function SortPartial(V: seq<Reg>, i: nat): (r: seq<Reg>)
    requires Lanes8(V) && i <= |V|
    ensures |r| == |V|
  {
    seq(|V|, k requires 0 <= k < |V| => if k < i then SortReg8Lanes(V[k]) else V[k])
  }

  lemma {:induction false} SortEachStart(V: seq<Reg>)
    requires Lanes8(V)
    ensures V == SortPartial(V, 0)
  {
  }

  lemma {:induction false} SortEachLane(A: seq<Reg>, V: seq<Reg>, i: nat)
    requires Lanes8(V) && i < |V| && A == SortPartial(V, i)
    ensures A[i] == V[i] && |A[i]| == NUMLANES
  {
  }

  lemma {:induction false} SortEachStep(A: seq<Reg>, A2: seq<Reg>, V: seq<Reg>, i: nat)
    requires Lanes8(V) && i < |V| && A == SortPartial(V, i) && A2 == A[i := SortReg8Lanes(V[i])]
    ensures A2 == SortPartial(V, i + 1)
  {
  }

  lemma {:induction false} SortEachEnd(V: seq<Reg>)
    requires Lanes8(V)
    ensures SortPartial(V, |V|) == SortRegs(V)
  {
  }

  /** Registers each sorted by the register network hold the same lanes, each register ascending. */
  lemma {:induction false} SortedRegs(V0: seq<Reg>, V: seq<Reg>)
    requires Lanes8(V0) && V == SortRegs(V0)
    ensures Lanes8(V) && forall k :: 0 <= k < |V| ==> Sorted(V[k])
    ensures multiset(Flat(V)) == multiset(Flat(V0))
  {
    forall k | 0 <= k < |V| ensures Sorted(V[k]) && multiset(V[k]) == multiset(V0[k]) {
      SortReg8LanesSorts(V0[k]);
    }
    FlatMultiset(V0, V);
  }

  /**
   * The stores of sort_n_vec: storeu for the first numVecs / 2 registers,
   * then mask_storeu with the same masks as the loads, so that exactly the
   * N slots at lo are written.
   */
  method StoreVecs(arr: array<int>, lo: nat, N: nat, vecs: array<Reg>)
    requires Lanes8(vecs[..]) && NUMLANES * (vecs.Length / 2) <= N <= NUMLANES * vecs.Length
    requires lo + N <= arr.Length
    modifies arr
    ensures arr[lo..lo + N] == Flat(vecs[..])[..N]
    ensures arr[..lo] == old(arr[..lo]) && arr[lo + N..] == old(arr[lo + N..])
  {
    ghost var F := Flat(vecs[..]);
    var n := vecs.Length;
    var i := 0;
    while i < n / 2
      invariant 0 <= i <= n / 2
      invariant forall x :: lo <= x < lo + NUMLANES * i ==> arr[x] == F[x - lo]
      invariant forall x :: 0 <= x < arr.Length && !(lo <= x < lo + NUMLANES * i) ==> arr[x] == old(arr[x])
    {
      RegLanes(vecs[..], i);
      var at := lo + i * NUMLANES;
      forall x | at <= x < at + NUMLANES {
        arr[x] := vecs[i][x - at];
      }
      i := i + 1;
    }
    while i < n
      invariant n / 2 <= i <= n
      invariant forall x :: lo <= x < lo + N && x < lo + NUMLANES * i ==> arr[x] == F[x - lo]
      invariant forall x :: 0 <= x < arr.Length && !(lo <= x < lo + N && x < lo + NUMLANES * i) ==> arr[x] == old(arr[x])
    {
      RegLanes(vecs[..], i);
      var mask := LoadMask(NumToWrite(N, i));
      MaskedLanes(N, i);
      var at := lo + i * NUMLANES;
      forall x | at <= x < at + NUMLANES && mask[x - at] {
        arr[x] := vecs[i][x - at];
      }
      i := i + 1;
    }
    assert arr[lo..lo + N] == F[..N] by {
      forall k | 0 <= k < N ensures arr[lo..lo + N][k] == F[..N][k] {
        var x := lo + k;
        assert arr[x] == F[x - lo];
      }
    }
    FrameSlices(old(arr[..]), arr[..], lo, lo + N);
  }

  /**
   * sort_n_vec<numVecs>(arr + lo, N): sorts the N <= NUMLANES * numVecs
   * elements at lo with a network of numVecs = 2^m registers, or of half as
   * many when they fit; the registers past the input are padded with
   * type_max, and the masked stores write back exactly the N input slots.
   */
  method SortNVec(arr: array<int>, lo: nat, N: nat, numVecs: nat, ghost m: nat)
    requires numVecs == Pow2(m) && N <= NUMLANES * numVecs && lo + N <= arr.Length
    requires InRange(arr[lo..lo + N])
    modifies arr
    ensures arr[lo..lo + N] == SortSeq(old(arr[lo..lo + N]))
    ensures arr[..lo] == old(arr[..lo]) && arr[lo + N..] == old(arr[lo + N..])
    decreases numVecs
  {
    if numVecs > 1 && N * 2 <= numVecs * NUMLANES {
      SortNVec(arr, lo, N, numVecs / 2, m - 1);
      return;
    }
    ghost var s := arr[lo..lo + N];
    var vecs := LoadVecs(arr, lo, N, numVecs);
    ghost var V0 := vecs[..];
    SortEachVec(vecs);
    ghost var V1 := vecs[..];
    SortedRegs(V0, V1);
    BitonicFullmergeNVec(vecs, m);
    NetworkResult(V0, V1, Flat(vecs[..]), s);
    StoreVecs(arr, lo, N, vecs);
  }

  /**
   * The reasoning of sort_n_vec between the loads and the stores: the N
   * input elements, padded with type_max and sorted with the padding, are
   * the first N lanes of the result.
   */
  lemma {:induction false} NetworkResult(V0: seq<Reg>, V1: seq<Reg>, F: seq<int>, s: seq<int>)
    requires |s| <= NUMLANES * |V0| && InRange(s) && V0 == PaddedRegs(s, |V0|) && V1 == SortRegs(V0)
    requires Sorted(F) && multiset(F) == multiset(Flat(V1))
    ensures |s| <= |F| && F[..|s|] == SortSeq(s)
  {
    SortedRegs(V0, V1);
    LoadedFlat(V0, s);
    var pad := Set1(TYPE_MAX, NUMLANES * |V0| - |s|);
    assert multiset(Flat(V0)) == multiset(s) + multiset(pad);
    SortedPaddedPrefix(F, s, pad, TYPE_MAX);
  }

  /** sort_n<vtype, 256>: sort_n_vec with 256 / NUMLANES = 32 registers. */
  method SortN(arr: array<int>, lo: nat, N: nat)
    requires N <= 256 && lo + N <= arr.Length && InRange(arr[lo..lo + N])
    modifies arr
    ensures arr[lo..lo + N] == SortSeq(old(arr[lo..lo + N]))
    ensures arr[..lo] == old(arr[..lo]) && arr[lo + N..] == old(arr[lo + N..])
  {
    assert Pow2(5) == 32;
    SortNVec(arr, lo, N, 32, 5);
  }
}
