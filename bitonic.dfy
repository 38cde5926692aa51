/**
 * Semantics of the bitonic compare-exchange networks.
 *
 * The networks in the register, n-vector and key-value code are all the
 * flip-based bitonic sorter: a "flip" stage compares each lane of a block with
 * its mirror lane, and "half-cleaner" stages compare each lane with the lane
 * half a block away. This module defines the recursive half-cleaner CleanRec
 * and the merge MergeRec (a flip stage, then CleanRec on both halves), and
 * proves their sorting properties with the 0-1 principle: every stage
 * commutes with each threshold map Thr(t, .). Module Levels builds the whole
 * sorter from these stages.
 */
module Bitonic {
  import opened Simd

  predicate IsPow2(n: nat)
    decreases n
  {
    if n <= 1 then n == 1 else n % 2 == 0 && IsPow2(n / 2)
  }

  /** The recursive half-cleaner: sorts any bitonic block (lemma CleanRecSortsBitonic). */
  function CleanRec(s: seq<int>): (r: seq<int>)
    requires IsPow2(|s|)
    ensures |r| == |s|
    decreases |s|
  {
    if |s| == 1 then s
    else
      var h := |s| / 2;
      CleanRec(VMin(s[..h], s[h..])) + CleanRec(VMax(s[..h], s[h..]))
  }

  /** The flip stage followed by recursive half-cleaners on both halves. */
  function MergeRec(s: seq<int>): (r: seq<int>)
    requires IsPow2(|s|) && |s| >= 2
    ensures |r| == |s|
  {
    var h := |s| / 2;
    var lo, rhi := s[..h], Rev(s[h..]);
    CleanRec(VMin(lo, rhi)) + CleanRec(Rev(VMax(lo, rhi)))
  }

  /**
   * The flip stage without reversing the upper half back before cleaning it:
   * what bitonic_merge_n_vec<2> of xss-network-qsort.hpp computes.
   */
  function MergeUnreversed(s: seq<int>): (r: seq<int>)
    requires IsPow2(|s|) && |s| >= 2
    ensures |r| == |s|
  {
    var h := |s| / 2;
    var lo, rhi := s[..h], Rev(s[h..]);
    CleanRec(VMin(lo, rhi)) + CleanRec(VMax(lo, rhi))
  }

  // ---------------------------------------------------------------------
  // Permutation

  lemma {:induction false} CleanRecMultiset(s: seq<int>)
    requires IsPow2(|s|)
    ensures multiset(CleanRec(s)) == multiset(s)
    decreases |s|
  {
    if |s| > 1 {
      var h := |s| / 2;
      CleanRecMultiset(VMin(s[..h], s[h..]));
      CleanRecMultiset(VMax(s[..h], s[h..]));
      MinMaxMultiset(s[..h], s[h..]);
      assert s == s[..h] + s[h..];
    }
  }

  lemma FlipMultiset(s: seq<int>)
    requires |s| % 2 == 0
    ensures var h := |s| / 2; var lo, rhi := s[..h], Rev(s[h..]);
      multiset(VMin(lo, rhi)) + multiset(VMax(lo, rhi)) == multiset(s)
  {
    var h := |s| / 2;
    MinMaxMultiset(s[..h], Rev(s[h..]));
    RevMultiset(s[h..]);
    assert s == s[..h] + s[h..];
  }

  lemma MergeRecMultiset(s: seq<int>)
    requires IsPow2(|s|) && |s| >= 2
    ensures multiset(MergeRec(s)) == multiset(s)
  {
    var h := |s| / 2;
    var lo, rhi := s[..h], Rev(s[h..]);
    FlipMultiset(s);
    CleanRecMultiset(VMin(lo, rhi));
    CleanRecMultiset(Rev(VMax(lo, rhi)));
    RevMultiset(VMax(lo, rhi));
  }

  lemma MergeUnreversedMultiset(s: seq<int>)
    requires IsPow2(|s|) && |s| >= 2
    ensures multiset(MergeUnreversed(s)) == multiset(s)
  {
    var h := |s| / 2;
    var lo, rhi := s[..h], Rev(s[h..]);
    FlipMultiset(s);
    CleanRecMultiset(VMin(lo, rhi));
    CleanRecMultiset(VMax(lo, rhi));
  }

  // ---------------------------------------------------------------------
  // Threshold maps (the 0-1 principle)

  function Thr(t: int, s: seq<int>): (r: seq<int>)
    ensures |r| == |s|
  {
    seq(|s|, i requires 0 <= i < |s| => if s[i] >= t then 1 else 0)
  }

  lemma ThrParts(t: int, s: seq<int>, h: nat)
    requires h <= |s|
    ensures Thr(t, s[..h]) == Thr(t, s)[..h] && Thr(t, s[h..]) == Thr(t, s)[h..]
  {
  }

  lemma ThrConcat(t: int, a: seq<int>, b: seq<int>)
    ensures Thr(t, a + b) == Thr(t, a) + Thr(t, b)
  {
  }

  lemma ThrRev(t: int, s: seq<int>)
    ensures Thr(t, Rev(s)) == Rev(Thr(t, s))
  {
  }

  lemma ThrMinMax(t: int, a: seq<int>, b: seq<int>)
    requires |a| == |b|
    ensures Thr(t, VMin(a, b)) == VMin(Thr(t, a), Thr(t, b))
    ensures Thr(t, VMax(a, b)) == VMax(Thr(t, a), Thr(t, b))
  {
  }

  lemma {:induction false} ThrCleanRec(t: int, s: seq<int>)
    requires IsPow2(|s|)
    ensures Thr(t, CleanRec(s)) == CleanRec(Thr(t, s))
    decreases |s|
  {
    if |s| > 1 {
      var h := |s| / 2;
      var lo, hi := s[..h], s[h..];
      ThrParts(t, s, h);
      ThrMinMax(t, lo, hi);
      ThrCleanRec(t, VMin(lo, hi));
      ThrCleanRec(t, VMax(lo, hi));
      ThrConcat(t, CleanRec(VMin(lo, hi)), CleanRec(VMax(lo, hi)));
    }
  }

  lemma ThrFlip(t: int, s: seq<int>)
    requires |s| % 2 == 0
    ensures var h := |s| / 2; var T := Thr(t, s);
      Thr(t, VMin(s[..h], Rev(s[h..]))) == VMin(T[..h], Rev(T[h..])) &&
      Thr(t, VMax(s[..h], Rev(s[h..]))) == VMax(T[..h], Rev(T[h..]))
  {
    var h := |s| / 2;
    ThrParts(t, s, h);
    ThrRev(t, s[h..]);
    ThrMinMax(t, s[..h], Rev(s[h..]));
  }

  lemma ThrMergeRec(t: int, s: seq<int>)
    requires IsPow2(|s|) && |s| >= 2
    ensures Thr(t, MergeRec(s)) == MergeRec(Thr(t, s))
  {
    var h := |s| / 2;
    var lo, rhi := s[..h], Rev(s[h..]);
    ThrFlip(t, s);
    ThrCleanRec(t, VMin(lo, rhi));
    ThrRev(t, VMax(lo, rhi));
    ThrCleanRec(t, Rev(VMax(lo, rhi)));
    ThrConcat(t, CleanRec(VMin(lo, rhi)), CleanRec(Rev(VMax(lo, rhi))));
  }

  lemma ThrMergeUnreversed(t: int, s: seq<int>)
    requires IsPow2(|s|) && |s| >= 2
    ensures Thr(t, MergeUnreversed(s)) == MergeUnreversed(Thr(t, s))
  {
    var h := |s| / 2;
    var lo, rhi := s[..h], Rev(s[h..]);
    ThrFlip(t, s);
    ThrCleanRec(t, VMin(lo, rhi));
    ThrCleanRec(t, VMax(lo, rhi));
    ThrConcat(t, CleanRec(VMin(lo, rhi)), CleanRec(VMax(lo, rhi)));
  }

  lemma ThrSorted(t: int, s: seq<int>)
    requires Sorted(s)
    ensures Sorted(Thr(t, s)) && Bit01(Thr(t, s))
  {
  }

  /** If every threshold image of s is sorted, so is s. */
  lemma SortedByThresholds(s: seq<int>)
    requires forall t :: Sorted(Thr(t, s))
    ensures Sorted(s)
  {
    forall i, j | 0 <= i < j < |s| ensures s[i] <= s[j] {
      var T := Thr(s[i], s);
      assert Sorted(T);
      assert T[i] == 1 && T[i] <= T[j];
    }
  }

  // ---------------------------------------------------------------------
  // 0-1 shapes

  predicate Bit01(s: seq<int>)
  {
    forall i :: 0 <= i < |s| ==> s[i] == 0 || s[i] == 1
  }

  /** s is one exactly on the positions in [a, b). */
  predicate Ones(s: seq<int>, a: int, b: int)
  {
    forall i :: 0 <= i < |s| ==> s[i] == if a <= i < b then 1 else 0
  }

  /** s is zero exactly on the positions in [a, b). */
  predicate Zeros(s: seq<int>, a: int, b: int)
  {
    forall i :: 0 <= i < |s| ==> s[i] == if a <= i < b then 0 else 1
  }

  /** A 0-1 sequence of shape 0*1*0* or 1*0*1*. */
  ghost predicate Bitonic01(s: seq<int>)
  {
    exists a: int, b: int :: Ones(s, a, b) || Zeros(s, a, b)
  }

  predicate AllEq(s: seq<int>, v: int)
  {
    forall i :: 0 <= i < |s| ==> s[i] == v
  }

  lemma {:induction false} SortedOnes(s: seq<int>) returns (x: int)
    requires Sorted(s) && Bit01(s)
    ensures 0 <= x <= |s| && Ones(s, x, |s|)
  {
    if |s| == 0 {
      x := 0;
    } else if s[0] == 1 {
      x := 0;
      assert forall i :: 0 <= i < |s| ==> s[0] <= s[i];
    } else {
      var y := SortedOnes(s[1..]);
      x := y + 1;
      forall i | 0 <= i < |s| ensures s[i] == if x <= i < |s| then 1 else 0 {
        if i > 0 { assert s[1..][i - 1] == s[i]; }
      }
    }
  }

  lemma RevBitonic01(s: seq<int>)
    requires Bitonic01(s)
    ensures Bitonic01(Rev(s))
  {
    var n := |s|;
    var a, b :| Ones(s, a, b) || Zeros(s, a, b);
    if Ones(s, a, b) {
      assert Ones(Rev(s), n - b, n - a);
    } else {
      assert Zeros(Rev(s), n - b, n - a);
    }
  }

  /** The lanes of the two half-cleaner outputs. */
  lemma HalfCleanLanes(s: seq<int>, h: nat)
    requires |s| == 2 * h
    ensures forall i :: 0 <= i < h ==> VMin(s[..h], s[h..])[i] == Min(s[i], s[i + h])
    ensures forall i :: 0 <= i < h ==> VMax(s[..h], s[h..])[i] == Max(s[i], s[i + h])
  {
  }

  lemma HalfCleanOnesUpper(s: seq<int>, h: nat, a: int, b: int)
    requires |s| == 2 * h && h >= 1 && Ones(s, a, b)
    ensures Bitonic01(VMax(s[..h], s[h..]))
    ensures a < h && b - h > 0 && b - h > a ==> AllEq(VMax(s[..h], s[h..]), 1)
  {
    var U := VMax(s[..h], s[h..]);
    HalfCleanLanes(s, h);
    if b - h >= a {
      assert Ones(U, a - h, b);
    } else if a > h {
      assert Ones(U, a - h, b - h);
    } else if b < h {
      assert Ones(U, a, b);
    } else {
      assert Zeros(U, b - h, a);
    }
  }

  lemma HalfCleanZerosLower(s: seq<int>, h: nat, a: int, b: int)
    requires |s| == 2 * h && h >= 1 && Zeros(s, a, b)
    ensures Bitonic01(VMin(s[..h], s[h..]))
    ensures a < h && b - h > 0 && b - h > a ==> AllEq(VMin(s[..h], s[h..]), 0)
  {
    var L := VMin(s[..h], s[h..]);
    HalfCleanLanes(s, h);
    if b - h >= a {
      assert Zeros(L, a - h, b);
    } else if a > h {
      assert Zeros(L, a - h, b - h);
    } else if b < h {
      assert Zeros(L, a, b);
    } else {
      assert Ones(L, b - h, a);
    }
  }

  lemma HalfCleanOnes(s: seq<int>, h: nat, a: int, b: int)
    requires |s| == 2 * h && h >= 1 && Ones(s, a, b)
    ensures Bitonic01(VMin(s[..h], s[h..])) && Bitonic01(VMax(s[..h], s[h..]))
    ensures AllEq(VMin(s[..h], s[h..]), 0) || AllEq(VMax(s[..h], s[h..]), 1)
  {
    var L := VMin(s[..h], s[h..]);
    HalfCleanLanes(s, h);
    assert Ones(L, a, b - h);
    HalfCleanOnesUpper(s, h, a, b);
  }

  lemma HalfCleanZeros(s: seq<int>, h: nat, a: int, b: int)
    requires |s| == 2 * h && h >= 1 && Zeros(s, a, b)
    ensures Bitonic01(VMin(s[..h], s[h..])) && Bitonic01(VMax(s[..h], s[h..]))
    ensures AllEq(VMin(s[..h], s[h..]), 0) || AllEq(VMax(s[..h], s[h..]), 1)
  {
    var U := VMax(s[..h], s[h..]);
    HalfCleanLanes(s, h);
    assert Zeros(U, a, b - h);
    HalfCleanZerosLower(s, h, a, b);
  }

  /** One half-cleaner on a 0-1 bitonic block gives two bitonic halves, one of them clean. */
  lemma HalfCleanShape(s: seq<int>, h: nat)
    requires |s| == 2 * h && h >= 1 && Bitonic01(s)
    ensures Bitonic01(VMin(s[..h], s[h..])) && Bitonic01(VMax(s[..h], s[h..]))
    ensures AllEq(VMin(s[..h], s[h..]), 0) || AllEq(VMax(s[..h], s[h..]), 1)
  {
    var a, b :| Ones(s, a, b) || Zeros(s, a, b);
    if Ones(s, a, b) {
      HalfCleanOnes(s, h, a, b);
    } else {
      HalfCleanZeros(s, h, a, b);
    }
  }

  /**
   * The flip stage on two sorted 0-1 halves: the min half and the max half are
   * both bitonic, and either the min half is all zero or the max half all one.
   */
  lemma FlipShape(s: seq<int>, h: nat)
    requires |s| == 2 * h && h >= 1 && Bit01(s) && Sorted(s[..h]) && Sorted(s[h..])
    ensures var lo, rhi := s[..h], Rev(s[h..]);
      Bitonic01(VMin(lo, rhi)) && Bitonic01(VMax(lo, rhi)) &&
      (AllEq(VMin(lo, rhi), 0) || AllEq(VMax(lo, rhi), 1))
  {
    var lo, hi := s[..h], s[h..];
    var rhi := Rev(hi);
    var x := SortedOnes(lo);
    var z := SortedOnes(hi);
    assert Ones(rhi, 0, h - z);
    var L, M := VMin(lo, rhi), VMax(lo, rhi);
    assert Ones(L, x, h - z);
    if h - z >= x {
      assert Ones(M, 0, h);
      assert AllEq(M, 1);
    } else {
      assert Zeros(M, h - z, x);
      assert AllEq(L, 0);
    }
  }

  lemma {:induction false} InCleanRec(s: seq<int>, i: nat)
    requires IsPow2(|s|) && i < |s|
    ensures CleanRec(s)[i] in s
  {
    CleanRecMultiset(s);
    assert CleanRec(s)[i] in multiset(CleanRec(s));
  }

  lemma SortedConcat(a: seq<int>, b: seq<int>)
    requires Sorted(a) && Sorted(b)
    requires forall i, j :: 0 <= i < |a| && 0 <= j < |b| ==> a[i] <= b[j]
    ensures Sorted(a + b)
  {
  }

  /**
   * Two sorted 0-1 blocks, the first all zero or the second all one, concatenate
   * into a sorted block.
   */
  lemma CleanHalvesSorted(L: seq<int>, U: seq<int>)
    requires IsPow2(|L|) && IsPow2(|U|) && Bit01(L) && Bit01(U)
    requires Sorted(CleanRec(L)) && Sorted(CleanRec(U))
    requires AllEq(L, 0) || AllEq(U, 1)
    ensures Sorted(CleanRec(L) + CleanRec(U))
  {
    var A, B := CleanRec(L), CleanRec(U);
    forall i, j | 0 <= i < |A| && 0 <= j < |B| ensures A[i] <= B[j] {
      InCleanRec(L, i);
      InCleanRec(U, j);
    }
    SortedConcat(A, B);
  }

  lemma {:induction false} CleanSorts01(s: seq<int>)
    requires IsPow2(|s|) && Bit01(s) && Bitonic01(s)
    ensures Sorted(CleanRec(s))
    decreases |s|
  {
    if |s| > 1 {
      var h := |s| / 2;
      var L, U := VMin(s[..h], s[h..]), VMax(s[..h], s[h..]);
      HalfCleanShape(s, h);
      assert forall i :: 0 <= i < h ==> L[i] == Min(s[i], s[i + h]) && U[i] == Max(s[i], s[i + h]);
      CleanSorts01(L);
      CleanSorts01(U);
      CleanHalvesSorted(L, U);
    }
  }

  lemma FlipHalves01(s: seq<int>)
    requires |s| % 2 == 0 && Bit01(s)
    ensures var h := |s| / 2; var lo, rhi := s[..h], Rev(s[h..]);
      Bit01(VMin(lo, rhi)) && Bit01(VMax(lo, rhi))
  {
    var h := |s| / 2;
    var lo, rhi := s[..h], Rev(s[h..]);
    assert forall i :: 0 <= i < h ==> lo[i] == s[i] && rhi[i] == s[|s| - 1 - i];
  }

  lemma MergeSorts01(s: seq<int>)
    requires IsPow2(|s|) && |s| >= 2 && Bit01(s)
    requires Sorted(s[..|s| / 2]) && Sorted(s[|s| / 2..])
    ensures Sorted(MergeRec(s)) && Sorted(MergeUnreversed(s))
  {
    var h := |s| / 2;
    var lo, rhi := s[..h], Rev(s[h..]);
    var L, M := VMin(lo, rhi), VMax(lo, rhi);
    FlipShape(s, h);
    FlipHalves01(s);
    RevBitonic01(M);
    CleanSorts01(L);
    CleanSorts01(M);
    CleanSorts01(Rev(M));
    CleanHalvesSorted(L, M);
    CleanHalvesSorted(L, Rev(M));
  }

  // ---------------------------------------------------------------------
  // Sorting properties for arbitrary values

  /** Merging two sorted halves (both merge variants) gives a sorted block. */
  lemma MergeSorts(s: seq<int>)
    requires IsPow2(|s|) && |s| >= 2
    requires Sorted(s[..|s| / 2]) && Sorted(s[|s| / 2..])
    ensures Sorted(MergeRec(s)) && Sorted(MergeUnreversed(s))
  {
    var h := |s| / 2;
    forall t ensures Sorted(Thr(t, MergeRec(s))) && Sorted(Thr(t, MergeUnreversed(s))) {
      ThrMergeRec(t, s);
      ThrMergeUnreversed(t, s);
      ThrParts(t, s, h);
      ThrSorted(t, s[..h]);
      ThrSorted(t, s[h..]);
      MergeSorts01(Thr(t, s));
    }
    SortedByThresholds(MergeRec(s));
    SortedByThresholds(MergeUnreversed(s));
  }

  /** Merging two sorted halves of a power-of-two block gives a sorted block. */
  lemma MergeSortedHalves(lo: seq<int>, hi: seq<int>)
    requires |lo| == |hi| && IsPow2(|lo + hi|) && |lo| >= 1 && Sorted(lo) && Sorted(hi)
    ensures Sorted(MergeRec(lo + hi))
  {
    var c := lo + hi;
    assert c[..|lo|] == lo && c[|lo|..] == hi;
    MergeSorts(c);
  }

  /** Ascending up to k, descending after it. */
  predicate PeakAt(s: seq<int>, k: nat)
    requires k <= |s|
  {
    Sorted(s[..k]) && Sorted(Rev(s[k..]))
  }

  /** Descending up to k, ascending after it. */
  predicate ValleyAt(s: seq<int>, k: nat)
    requires k <= |s|
  {
    Sorted(Rev(s[..k])) && Sorted(s[k..])
  }

  /** A bitonic sequence: ascending then descending, or descending then ascending. */
  ghost predicate IsBitonic(s: seq<int>)
  {
    exists k: nat :: k <= |s| && (PeakAt(s, k) || ValleyAt(s, k))
  }

  lemma ThrBitonic(t: int, s: seq<int>)
    requires IsBitonic(s)
    ensures Bitonic01(Thr(t, s)) && Bit01(Thr(t, s))
  {
    var k: nat :| k <= |s| && (PeakAt(s, k) || ValleyAt(s, k));
    var n := |s|;
    var T := Thr(t, s);
    ThrParts(t, s, k);
    if PeakAt(s, k) {
      ThrSorted(t, s[..k]);
      ThrRev(t, s[k..]);
      ThrSorted(t, Rev(s[k..]));
      var a := SortedOnes(T[..k]);
      var c := SortedOnes(Rev(T[k..]));
      forall i | 0 <= i < n ensures T[i] == if a <= i < n - c then 1 else 0 {
        if i < k {
          assert T[..k][i] == T[i];
        } else {
          assert Rev(T[k..])[n - 1 - i] == T[i];
        }
      }
      assert Ones(T, a, n - c);
    } else {
      ThrRev(t, s[..k]);
      ThrSorted(t, Rev(s[..k]));
      ThrSorted(t, s[k..]);
      var c := SortedOnes(Rev(T[..k]));
      var a := SortedOnes(T[k..]);
      forall i | 0 <= i < n ensures T[i] == if k - c <= i < k + a then 0 else 1 {
        if i < k {
          assert Rev(T[..k])[k - 1 - i] == T[i];
        } else {
          assert T[k..][i - k] == T[i];
        }
      }
      assert Zeros(T, k - c, k + a);
    }
  }

  /** The recursive half-cleaner sorts every bitonic sequence. */
  lemma CleanRecSortsBitonic(s: seq<int>)
    requires IsPow2(|s|) && IsBitonic(s)
    ensures Sorted(CleanRec(s))
  {
    forall t ensures Sorted(Thr(t, CleanRec(s))) {
      ThrCleanRec(t, s);
      ThrBitonic(t, s);
      CleanSorts01(Thr(t, s));
    }
    SortedByThresholds(CleanRec(s));
  }

  /** Sorted sequences with the same elements are equal. */
  lemma {:induction false} SortedUnique(a: seq<int>, b: seq<int>)
    requires Sorted(a) && Sorted(b) && multiset(a) == multiset(b)
    ensures a == b
    decreases |a|
  {
    assert |a| == |multiset(a)| == |multiset(b)| == |b|;
    if |a| > 0 {
      HeadSplit(a);
      HeadSplit(b);
      SortedHeadLe(a, b[0]);
      SortedHeadLe(b, a[0]);
      assert a[0] == b[0];
      assert multiset{a[0]} + multiset(a[1..]) == multiset{a[0]} + multiset(b[1..]);
      MultisetCancel(a[0], multiset(a[1..]), multiset(b[1..]));
      SortedUnique(a[1..], b[1..]);
    }
  }

  lemma HeadSplit(a: seq<int>)
    requires |a| > 0
    ensures a == [a[0]] + a[1..]
    ensures multiset(a) == multiset{a[0]} + multiset(a[1..])
  {
    assert a == [a[0]] + a[1..];
  }

  lemma MultisetCancel(x: int, A: multiset<int>, B: multiset<int>)
    requires multiset{x} + A == multiset{x} + B
    ensures A == B
  {
    assert A == (multiset{x} + A) - multiset{x};
    assert B == (multiset{x} + B) - multiset{x};
  }

  /** The head of a sorted sequence is at most each of its elements. */
  lemma SortedHeadLe(a: seq<int>, x: int)
    requires Sorted(a) && x in multiset(a)
    ensures |a| > 0 && a[0] <= x
  {
    var i :| 0 <= i < |a| && a[i] == x;
  }
}
