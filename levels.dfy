/**
 * The level-by-level form of the bitonic networks.
 *
 * The source applies one stage to every block of a register or of an array
 * of registers at once (a swizzle plus cmp_merge, or a loop of COEX over
 * block-strided pairs). Level(f, s, B) applies the block operation f to every
 * B-element block of s, and the networks are sequences of levels:
 * CleanLevels(s, k) runs half-cleaner levels with blocks 2^k, ..., 2;
 * MergeLevels(s, k) a flip level with blocks 2^k and then
 * CleanLevels(., k - 1); SortLevels(s, k) the merge levels for blocks
 * 2, 4, ..., 2^k. On one block of 2^k elements CleanLevels and MergeLevels
 * are the recursive networks of module Bitonic, so they inherit its sorting
 * theorems; all of them distribute over whole blocks and permute their input.
 */
module Levels {
  import opened Simd
  import opened Bitonic

  function Pow2(k: nat): (p: nat)
    ensures p >= 1
  {
    if k == 0 then 1 else 2 * Pow2(k - 1)
  }

  /**
   * The flip stage on one block: lane j meets its mirror lane, minima go low,
   * maxima high and mirrored. Blocks are always of even size; a block of odd
   * size is left as it is.
   */
  function FlipStage(b: seq<int>): (r: seq<int>)
    ensures |r| == |b|
  {
    if |b| % 2 == 1 then b
    else
      var h := |b| / 2;
      VMin(b[..h], Rev(b[h..])) + Rev(VMax(b[..h], Rev(b[h..])))
  }

  /** One half-cleaner stage on one block: lane j meets lane j + B/2. */
  function HalfStage(b: seq<int>): (r: seq<int>)
    ensures |r| == |b|
  {
    if |b| % 2 == 1 then b
    else
      var h := |b| / 2;
      VMin(b[..h], b[h..]) + VMax(b[..h], b[h..])
  }

  /** f maps every block to a block of the same size. */
  ghost predicate KeepsLength<T(!new)>(f: seq<T> -> seq<T>)
  {
    forall b :: |f(b)| == |b|
  }

  lemma StagesKeepLength()
    ensures KeepsLength(FlipStage) && KeepsLength(HalfStage)
  {
    forall b ensures |FlipStage(b)| == |b| && |HalfStage(b)| == |b| {
    }
  }

  /**
   * The block operation f applied to every B-element block of s. A final
   * block shorter than B (which never occurs: every use has a whole number
   * of blocks) is passed to f as it is.
   */
  function Level<T(!new)>(f: seq<T> -> seq<T>, s: seq<T>, B: nat): (r: seq<T>)
    ensures KeepsLength(f) ==> |r| == |s|
    decreases |s|
  {
    if B == 0 || |s| <= B then f(s) else f(s[..B]) + Level(f, s[B..], B)
  }

  /**
   * Levels of the block stage f with blocks 2^k, 2^(k-1), ..., 2: the shape
   * of a half-cleaner cascade, for any stage.
   */
  function Descend(f: seq<int> -> seq<int>, s: seq<int>, k: nat): (r: seq<int>)
    ensures KeepsLength(f) ==> |r| == |s|
    decreases k
  {
    if k == 0 then s else Descend(f, Level(f, s, Pow2(k)), k - 1)
  }

  /**
   * The levels of f with blocks 2^k, 2^(k-1), ..., 2^(m+1): the top k - m
   * levels of Descend(f, s, k).
   */
  function Cascade(f: seq<int> -> seq<int>, s: seq<int>, k: nat, m: nat): (r: seq<int>)
    ensures KeepsLength(f) ==> |r| == |s|
    decreases k
  {
    if k <= m then s else Cascade(f, Level(f, s, Pow2(k)), k - 1, m)
  }

  /** A level of g with blocks 2^k, then the levels of f below it. */
  function Merge(g: seq<int> -> seq<int>, f: seq<int> -> seq<int>, s: seq<int>, k: nat): (r: seq<int>)
    ensures KeepsLength(g) && KeepsLength(f) ==> |r| == |s|
  {
    if k == 0 then s else Descend(f, Level(g, s, Pow2(k)), k - 1)
  }

  /** The merges for blocks 2, 4, ..., 2^k. */
  function Sorter(g: seq<int> -> seq<int>, f: seq<int> -> seq<int>, s: seq<int>, k: nat): (r: seq<int>)
    ensures KeepsLength(g) && KeepsLength(f) ==> |r| == |s|
  {
    if k == 0 then s else Merge(g, f, Sorter(g, f, s, k - 1), k)
  }

  /** Half-cleaner levels with blocks 2^k, 2^(k-1), ..., 2. */
  function CleanLevels(s: seq<int>, k: nat): (r: seq<int>)
    ensures |r| == |s|
  {
    StagesKeepLength();
    Descend(HalfStage, s, k)
  }

  /** A flip level with blocks 2^k, then the half-cleaner levels below it. */
  function MergeLevels(s: seq<int>, k: nat): (r: seq<int>)
    ensures |r| == |s|
  {
    StagesKeepLength();
    Merge(FlipStage, HalfStage, s, k)
  }

  /** The merge levels for blocks 2, 4, ..., 2^k. */
  function SortLevels(s: seq<int>, k: nat): (r: seq<int>)
    ensures |r| == |s|
  {
    StagesKeepLength();
    Sorter(FlipStage, HalfStage, s, k)
  }

  lemma {:induction false} Pow2IsPow2(k: nat)
    ensures IsPow2(Pow2(k))
  {
    if k > 0 {
      Pow2IsPow2(k - 1);
      assert Pow2(k) / 2 == Pow2(k - 1);
    }
  }

  lemma MultipleSelf(n: nat)
    requires n > 0
    ensures Multiple(n, n)
  {
    assert Multiple(0, n);
  }

  lemma Pow2Down(n: nat, k: nat)
    requires k >= 1 && Multiple(n, Pow2(k))
    ensures Multiple(n, Pow2(k - 1))
  {
    MultipleHalf(n, Pow2(k));
  }

  /** A single block is one application of f. */
  lemma LevelBlock<T(!new)>(f: seq<T> -> seq<T>, s: seq<T>)
    ensures Level(f, s, |s|) == f(s)
  {
  }

  /** The block of a level at a multiple of B is f of the same block of the input. */
  lemma {:induction false} LevelBlockAt<T(!new)>(f: seq<T> -> seq<T>, s: seq<T>, B: nat, at: nat)
    requires KeepsLength(f) && Multiple(at, B) && at + B <= |s|
    ensures Level(f, s, B)[at..at + B] == f(s[at..at + B])
    decreases at
  {
    if at == 0 {
      if |s| > B {
        assert |f(s[..B])| == B;
      } else {
        assert s[at..at + B] == s;
      }
    } else {
      assert B > 0 && at >= B && Multiple(at - B, B);
      var rest := s[B..];
      LevelBlockAt(f, rest, B, at - B);
      assert rest[at - B..at] == s[at..at + B];
      var head := f(s[..B]);
      assert |head| == B;
      assert Level(f, s, B) == head + Level(f, rest, B);
      assert (head + Level(f, rest, B))[at..at + B] == Level(f, rest, B)[at - B..at];
    }
  }

  /** A level over a whole first block followed by more. */
  lemma LevelCons<T(!new)>(f: seq<T> -> seq<T>, a: seq<T>, b: seq<T>, B: nat)
    requires |a| == B > 0 && |b| > 0
    ensures Level(f, a + b, B) == f(a) + Level(f, b, B)
  {
    assert (a + b)[..B] == a;
    assert (a + b)[B..] == b;
  }

  lemma {:induction false} LevelConcat<T(!new)>(f: seq<T> -> seq<T>, a: seq<T>, b: seq<T>, B: nat)
    requires Multiple(|a|, B) && |a| > 0 && |b| > 0
    ensures Level(f, a + b, B) == Level(f, a, B) + Level(f, b, B)
    decreases |a|
  {
    if |a| == B {
      LevelCons(f, a, b, B);
    } else {
      var a0, a1 := a[..B], a[B..];
      assert a == a0 + a1;
      assert a + b == a0 + (a1 + b);
      LevelCons(f, a0, a1 + b, B);
      LevelCons(f, a0, a1, B);
      LevelConcat(f, a1, b, B);
    }
  }

  // ---------------------------------------------------------------------
  // Concatenation of whole blocks

  lemma {:induction false} DescendConcat(f: seq<int> -> seq<int>, a: seq<int>, b: seq<int>, k: nat)
    requires KeepsLength(f) && Multiple(|a|, Pow2(k)) && |a| > 0 && |b| > 0
    ensures Descend(f, a + b, k) == Descend(f, a, k) + Descend(f, b, k)
    decreases k
  {
    if k > 0 {
      var P := Pow2(k);
      Pow2Down(|a|, k);
      LevelConcat(f, a, b, P);
      DescendConcat(f, Level(f, a, P), Level(f, b, P), k - 1);
    }
  }

  /** The top level of a cascade, taken off. */
  lemma CascadeStep(f: seq<int> -> seq<int>, s: seq<int>, t: seq<int>, k: nat, k1: nat, m: nat)
    requires m < k && k1 + 1 == k && t == Level(f, s, Pow2(k))
    ensures Cascade(f, s, k, m) == Cascade(f, t, k1, m)
  {
  }

  /** Descend is its top levels followed by the levels below them. */
  lemma {:induction false} DescendSplit(f: seq<int> -> seq<int>, s: seq<int>, k: nat, m: nat)
    requires m <= k
    ensures Descend(f, s, k) == Descend(f, Cascade(f, s, k, m), m)
    decreases k
  {
    if k > m {
      DescendSplit(f, Level(f, s, Pow2(k)), k - 1, m);
    }
  }

  lemma MergeConcat(g: seq<int> -> seq<int>, f: seq<int> -> seq<int>, a: seq<int>, b: seq<int>, k: nat)
    requires KeepsLength(g) && KeepsLength(f) && Multiple(|a|, Pow2(k)) && |a| > 0 && |b| > 0
    ensures Merge(g, f, a + b, k) == Merge(g, f, a, k) + Merge(g, f, b, k)
  {
    if k > 0 {
      var P := Pow2(k);
      Pow2Down(|a|, k);
      LevelConcat(g, a, b, P);
      DescendConcat(f, Level(g, a, P), Level(g, b, P), k - 1);
    }
  }

  lemma {:induction false} SorterConcat(g: seq<int> -> seq<int>, f: seq<int> -> seq<int>, a: seq<int>, b: seq<int>, k: nat)
    requires KeepsLength(g) && KeepsLength(f) && Multiple(|a|, Pow2(k)) && |a| > 0 && |b| > 0
    ensures Sorter(g, f, a + b, k) == Sorter(g, f, a, k) + Sorter(g, f, b, k)
  {
    if k > 0 {
      Pow2Down(|a|, k);
      SorterConcat(g, f, a, b, k - 1);
      MergeConcat(g, f, Sorter(g, f, a, k - 1), Sorter(g, f, b, k - 1), k);
    }
  }

  /** The half-cleaner levels distribute over whole blocks. */
  lemma CleanLevelsConcat(a: seq<int>, b: seq<int>, k: nat)
    requires Multiple(|a|, Pow2(k)) && |a| > 0 && |b| > 0
    ensures CleanLevels(a + b, k) == CleanLevels(a, k) + CleanLevels(b, k)
  {
    StagesKeepLength();
    DescendConcat(HalfStage, a, b, k);
  }

  lemma MergeLevelsConcat(a: seq<int>, b: seq<int>, k: nat)
    requires Multiple(|a|, Pow2(k)) && |a| > 0 && |b| > 0
    ensures MergeLevels(a + b, k) == MergeLevels(a, k) + MergeLevels(b, k)
  {
    StagesKeepLength();
    MergeConcat(FlipStage, HalfStage, a, b, k);
  }

  lemma SortLevelsConcat(a: seq<int>, b: seq<int>, k: nat)
    requires Multiple(|a|, Pow2(k)) && |a| > 0 && |b| > 0
    ensures SortLevels(a + b, k) == SortLevels(a, k) + SortLevels(b, k)
  {
    StagesKeepLength();
    SorterConcat(FlipStage, HalfStage, a, b, k);
  }

  // ---------------------------------------------------------------------
  // One block of 2^k: the level form is the recursive form

  lemma {:induction false} CleanLevelsRec(s: seq<int>, k: nat)
    requires |s| == Pow2(k)
    ensures IsPow2(|s|)
    ensures CleanLevels(s, k) == CleanRec(s)
    decreases k, 1
  {
    Pow2IsPow2(k);
    if k > 0 {
      LevelBlock(HalfStage, s);
      CleanLevelsHalves(HalfStage(s), k);
      CleanRecTop(s, k);
    }
  }

  /** The levels below the top one, on a block of 2^k, are CleanRec on each half. */
  lemma CleanLevelsHalves(x: seq<int>, k: nat)
    requires k >= 1 && |x| == Pow2(k)
    ensures IsPow2(Pow2(k - 1))
    ensures CleanLevels(x, k - 1) == CleanRec(x[..Pow2(k - 1)]) + CleanRec(x[Pow2(k - 1)..])
    decreases k, 0
  {
    var h := Pow2(k - 1);
    var x1, x2 := x[..h], x[h..];
    MultipleSelf(h);
    assert x == x1 + x2;
    CleanLevelsConcat(x1, x2, k - 1);
    CleanLevelsRec(x1, k - 1);
    CleanLevelsRec(x2, k - 1);
  }

  lemma MergeLevelsRec(s: seq<int>, k: nat)
    requires k >= 1 && |s| == Pow2(k)
    ensures IsPow2(|s|) && |s| >= 2
    ensures MergeLevels(s, k) == MergeRec(s)
  {
    LevelBlock(FlipStage, s);
    CleanLevelsHalves(FlipStage(s), k);
    MergeRecTop(s, k);
  }

  // ---------------------------------------------------------------------
  // Permutation

  /** f rearranges every block without changing its elements. */
  ghost predicate KeepsMultiset<T(!new)>(f: seq<T> -> seq<T>)
  {
    forall b :: multiset(f(b)) == multiset(b)
  }

  lemma StagesKeepMultiset()
    ensures KeepsMultiset(FlipStage) && KeepsMultiset(HalfStage)
  {
    forall b: seq<int> ensures multiset(FlipStage(b)) == multiset(b) && multiset(HalfStage(b)) == multiset(b) {
      if |b| % 2 == 0 {
        var h := |b| / 2;
        var lo, hi := b[..h], b[h..];
        assert b == lo + hi;
        FlipMultiset(b);
        RevMultiset(VMax(lo, Rev(hi)));
        MinMaxMultiset(lo, hi);
      }
    }
  }

  lemma {:induction false} LevelMultiset<T(!new)>(f: seq<T> -> seq<T>, s: seq<T>, B: nat)
    requires KeepsMultiset(f)
    ensures multiset(Level(f, s, B)) == multiset(s)
    decreases |s|
  {
    if B > 0 && |s| > B {
      LevelMultiset(f, s[B..], B);
      assert s == s[..B] + s[B..];
    }
  }

  lemma {:induction false} DescendMultiset(f: seq<int> -> seq<int>, s: seq<int>, k: nat)
    requires KeepsMultiset(f)
    ensures multiset(Descend(f, s, k)) == multiset(s)
    decreases k
  {
    if k > 0 {
      LevelMultiset(f, s, Pow2(k));
      DescendMultiset(f, Level(f, s, Pow2(k)), k - 1);
    }
  }

  lemma MergeMultiset(g: seq<int> -> seq<int>, f: seq<int> -> seq<int>, s: seq<int>, k: nat)
    requires KeepsMultiset(g) && KeepsMultiset(f)
    ensures multiset(Merge(g, f, s, k)) == multiset(s)
  {
    if k > 0 {
      LevelMultiset(g, s, Pow2(k));
      DescendMultiset(f, Level(g, s, Pow2(k)), k - 1);
    }
  }

  lemma {:induction false} SorterMultiset(g: seq<int> -> seq<int>, f: seq<int> -> seq<int>, s: seq<int>, k: nat)
    requires KeepsMultiset(g) && KeepsMultiset(f)
    ensures multiset(Sorter(g, f, s, k)) == multiset(s)
  {
    if k > 0 {
      SorterMultiset(g, f, s, k - 1);
      MergeMultiset(g, f, Sorter(g, f, s, k - 1), k);
    }
  }

  /** The half-cleaner levels only rearrange. */
  lemma CleanLevelsMultiset(s: seq<int>, k: nat)
    ensures multiset(CleanLevels(s, k)) == multiset(s)
  {
    StagesKeepMultiset();
    DescendMultiset(HalfStage, s, k);
  }

  /** The merge levels only rearrange. */
  lemma MergeLevelsMultiset(s: seq<int>, k: nat)
    ensures multiset(MergeLevels(s, k)) == multiset(s)
  {
    StagesKeepMultiset();
    MergeMultiset(FlipStage, HalfStage, s, k);
  }

  /** Every level network is a permutation of its input. */
  lemma SortLevelsMultiset(s: seq<int>, k: nat)
    ensures multiset(SortLevels(s, k)) == multiset(s)
  {
    StagesKeepMultiset();
    SorterMultiset(FlipStage, HalfStage, s, k);
  }

  // ---------------------------------------------------------------------
  // The sorter sorts

  /** The half-cleaner levels on a bitonic block of 2^k sort it. */
  lemma CleanLevelsSortsBitonic(s: seq<int>, k: nat)
    requires |s| == Pow2(k) && IsBitonic(s)
    ensures Sorted(CleanLevels(s, k))
  {
    CleanLevelsRec(s, k);
    CleanRecSortsBitonic(s);
  }

  /** Merges of g then f with blocks up to 2^k sort any two sorted halves. */
  ghost predicate MergesSorted(g: seq<int> -> seq<int>, f: seq<int> -> seq<int>, k: nat)
  {
    forall j: nat, a: seq<int>, b: seq<int> ::
      1 <= j <= k && |a| == |b| == Pow2(j - 1) && Sorted(a) && Sorted(b) ==> Sorted(Merge(g, f, a + b, j))
  }

  lemma {:induction false} SorterSorted(g: seq<int> -> seq<int>, f: seq<int> -> seq<int>, s: seq<int>, k: nat)
    requires KeepsLength(g) && KeepsLength(f) && MergesSorted(g, f, k) && |s| == Pow2(k)
    ensures Sorted(Sorter(g, f, s, k))
  {
    if k > 0 {
      var h := Pow2(k - 1);
      var s1, s2 := s[..h], s[h..];
      assert |s1| == |s2| == h;
      assert MergesSorted(g, f, k - 1);
      SorterSorted(g, f, s1, k - 1);
      SorterSorted(g, f, s2, k - 1);
      SorterHalves(g, f, s, k);
      var a, b := Sorter(g, f, s1, k - 1), Sorter(g, f, s2, k - 1);
      assert Sorted(Merge(g, f, a + b, k));
    }
  }

  /** The sorter on a block of 2^k merges the sorters of its two halves. */
  lemma SorterHalves(g: seq<int> -> seq<int>, f: seq<int> -> seq<int>, s: seq<int>, k: nat)
    requires KeepsLength(g) && KeepsLength(f) && k > 0 && |s| == Pow2(k)
    ensures Sorter(g, f, s, k)
         == Merge(g, f, Sorter(g, f, s[..Pow2(k - 1)], k - 1) + Sorter(g, f, s[Pow2(k - 1)..], k - 1), k)
  {
    var h := Pow2(k - 1);
    var s1, s2 := s[..h], s[h..];
    assert s == s1 + s2;
    MultipleSelf(h);
    SorterConcat(g, f, s1, s2, k - 1);
  }

  /** The sort levels on a block of 2^k sort it. */
  lemma SortLevelsSorted(s: seq<int>, k: nat)
    requires |s| == Pow2(k)
    ensures Sorted(SortLevels(s, k))
  {
    StagesKeepLength();
    forall j: nat, a: seq<int>, b: seq<int> | 1 <= j <= k && |a| == |b| == Pow2(j - 1) && Sorted(a) && Sorted(b)
      ensures Sorted(Merge(FlipStage, HalfStage, a + b, j))
    {
      MergeLevelsSortedHalves(a, b, j);
    }
    SorterSorted(FlipStage, HalfStage, s, k);
  }

  /** The merge levels on two sorted halves of a block of 2^k sort the block. */
  lemma MergeLevelsSortedHalves(a: seq<int>, b: seq<int>, k: nat)
    requires k >= 1 && |a| == |b| == Pow2(k - 1) && Sorted(a) && Sorted(b)
    ensures Sorted(MergeLevels(a + b, k))
  {
    MergeLevelsRec(a + b, k);
    MergeSortedHalves(a, b);
  }

  /** CleanRec on a block of 2^k is CleanRec on both halves of its half-cleaner stage. */
  lemma CleanRecTop(s: seq<int>, k: nat)
    requires k >= 1 && |s| == Pow2(k)
    ensures IsPow2(|s|) && IsPow2(Pow2(k - 1))
    ensures CleanRec(s) == CleanRec(HalfStage(s)[..Pow2(k - 1)]) + CleanRec(HalfStage(s)[Pow2(k - 1)..])
  {
    Pow2IsPow2(k);
    Pow2IsPow2(k - 1);
    var h := Pow2(k - 1);
    assert |s| / 2 == h;
    var x := HalfStage(s);
    assert x[..h] == VMin(s[..h], s[h..]);
    assert x[h..] == VMax(s[..h], s[h..]);
  }

  lemma MergeRecTop(s: seq<int>, k: nat)
    requires k >= 1 && |s| == Pow2(k)
    ensures IsPow2(|s|) && |s| >= 2 && IsPow2(Pow2(k - 1))
    ensures MergeRec(s) == CleanRec(FlipStage(s)[..Pow2(k - 1)]) + CleanRec(FlipStage(s)[Pow2(k - 1)..])
  {
    Pow2IsPow2(k);
    Pow2IsPow2(k - 1);
    var h := Pow2(k - 1);
    assert |s| / 2 == h;
    var x, rhi := FlipStage(s), Rev(s[h..]);
    assert x[..h] == VMin(s[..h], rhi);
    assert x[h..] == Rev(VMax(s[..h], rhi));
  }
}
