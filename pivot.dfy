/**
 * Pivot selection of xss-pivot-selection.hpp: the eight-sample median
 * get_pivot, the block-sampling get_pivot_blocks with its five-register
 * median network, get_pivot_smart with its special cases for unlucky
 * samples, and get_pivot_near_constant, which scans the range for up to
 * three distinct values.
 */
module Pivot {
  import opened Simd
  import opened Bitonic
  import opened Exchange
  import opened RegNetworks
  import opened Sorting
  import opened NetworkSort
  import opened Comparators

  /** pivot_result_t: what pivot selection learned about the range. */
  datatype PivotResultT = Normal | Sorted | Only2Values

  /** pivot_results<type_t>. */
  datatype PivotResults = PivotResults(pivot: int, result: PivotResultT)

  /** vtype::all_false: no lane of the mask is set. */
  predicate AllFalse(m: Mask)
  {
    forall i :: 0 <= i < |m| ==> !m[i]
  }

  /** i strides of delta go no further than k strides. */
  lemma {:induction false} StrideBound(i: nat, delta: nat, k: nat)
    requires i <= k
    ensures delta * i <= delta * k
    decreases k - i
  {
    if i < k {
      StrideBound(i + 1, delta, k);
      assert delta * (i + 1) == delta * i + delta;
    }
  }

  /** n strides of width / n fit in width. */
  lemma StridesFit(width: nat, n: nat)
    requires n > 0
    ensures (width / n) * n <= width && n * (width / n) <= width
  {
    assert width == (width / n) * n + width % n;
  }

  // ---------------------------------------------------------------- get_pivot

  /** The lanes get_pivot loads: numlanes elements, (right - left) / numlanes apart, from left. */
  function Samples(a: seq<int>, left: nat, right: nat): (r: seq<int>)
    requires left <= right < |a|
    ensures |r| == NUMLANES
  {
    var delta := (right - left) / NUMLANES;
    seq(NUMLANES, i requires 0 <= i < NUMLANES =>
      StrideBound(i, delta, NUMLANES - 1); a[left + delta * i])
  }

  /** Every sample is an element of a[left..right]. */
  lemma SamplesIn(a: seq<int>, left: nat, right: nat, x: int)
    requires left <= right < |a| && x in Samples(a, left, right)
    ensures x in a[left..right + 1]
  {
    var delta := (right - left) / NUMLANES;
    var i :| 0 <= i < NUMLANES && Samples(a, left, right)[i] == x;
    StrideBound(i, delta, NUMLANES - 1);
    assert a[left..right + 1][delta * i] == x;
  }

  /**
   * get_pivot: lane numlanes / 2 of the sorted samples, that is the upper
   * median of the eight samples; it is an element of the range.
   */
  method GetPivot(arr: array<int>, left: nat, right: nat) returns (pivot: int)
    requires left <= right < arr.Length
    ensures pivot == SortSeq(Samples(arr[..], left, right))[NUMLANES / 2]
    ensures pivot in arr[left..right + 1]
  {
    var samples := new int[NUMLANES];
    var delta := (right - left) / NUMLANES;
    for i := 0 to NUMLANES
      invariant forall k :: 0 <= k < i ==> samples[k] == Samples(arr[..], left, right)[k]
    {
      StrideBound(i, delta, NUMLANES - 1);
      samples[i] := arr[left + delta * i];
    }
    ghost var S := Samples(arr[..], left, right);
    assert samples[..] == S;
    var sort := SortReg8Lanes(samples[..]);
    pivot := sort[NUMLANES / 2];
    SortReg8LanesSorts(S);
    SortedIsSortSeq(S, sort);
    assert pivot in multiset(S) by {
      assert pivot in multiset(sort);
    }
    SamplesIn(arr[..], left, right, pivot);
  }

  // --------------------------------------------------------- get_pivot_blocks

  /** A scalar compare-exchange of positions i < j. */
  function CE(s: seq<int>, i: nat, j: nat): (r: seq<int>)
    requires i < j < |s|
    ensures |r| == |s|
  {
    s[i := Min(s[i], s[j])][j := Max(s[i], s[j])]
  }

  lemma CEMultiset(s: seq<int>, i: nat, j: nat)
    requires i < j < |s|
    ensures multiset(CE(s, i, j)) == multiset(s)
  {
    var t := s[i := Min(s[i], s[j])];
    assert multiset(t) == multiset(s) - multiset{s[i]} + multiset{Min(s[i], s[j])};
    assert multiset(CE(s, i, j)) == multiset(t) - multiset{t[j]} + multiset{Max(s[i], s[j])};
  }

  /** The nine-comparator network of get_pivot_blocks on one lane of the five registers. */
  function Sort5(s: seq<int>): (r: seq<int>)
    requires |s| == 5
    ensures |r| == 5
  {
    var s1 := CE(CE(s, 0, 3), 1, 4);
    var s2 := CE(CE(s1, 0, 2), 1, 3);
    var s3 := CE(CE(s2, 0, 1), 2, 4);
    var s4 := CE(CE(s3, 1, 2), 3, 4);
    CE(s4, 2, 3)
  }

  /** The five-input network sorts. */
  lemma Sort5Sorted(s: seq<int>)
    requires |s| == 5
    ensures Simd.Sorted(Sort5(s))
  {
    var r := Sort5(s);
    assert r[0] <= r[1] <= r[2] <= r[3] <= r[4];
  }

  /** Every step of the network is a compare-exchange, so it only rearranges. */
  lemma Sort5Multiset(s: seq<int>)
    requires |s| == 5
    ensures multiset(Sort5(s)) == multiset(s)
  {
    var s1 := CE(s, 0, 3);
    var s2 := CE(s1, 1, 4);
    var s3 := CE(s2, 0, 2);
    var s4 := CE(s3, 1, 3);
    var s5 := CE(s4, 0, 1);
    var s6 := CE(s5, 2, 4);
    var s7 := CE(s6, 1, 2);
    var s8 := CE(s7, 3, 4);
    assert Sort5(s) == CE(s8, 2, 3);
    CEMultiset(s, 0, 3);
    CEMultiset(s1, 1, 4);
    CEMultiset(s2, 0, 2);
    CEMultiset(s3, 1, 3);
    CEMultiset(s4, 0, 1);
    CEMultiset(s5, 2, 4);
    CEMultiset(s6, 1, 2);
    CEMultiset(s7, 3, 4);
    CEMultiset(s8, 2, 3);
  }

  /** Its middle output is therefore the median of its inputs. */
  lemma Sort5Sorts(s: seq<int>)
    requires |s| == 5
    ensures Sort5(s) == SortSeq(s)
  {
    Sort5Sorted(s);
    Sort5Multiset(s);
    SortedIsSortSeq(s, Sort5(s));
  }

  /** COEX of registers i and j of a register array. */
  lemma ColumnCoexAt(V: seq<Reg>, i: nat, j: nat, l: nat)
    requires Lanes8(V) && i < j < |V| && l < NUMLANES
    ensures Column(CoexAt(V, i, j), l) == CE(Column(V, l), i, j)
  {
  }

  /** The COEX sequence of get_pivot_blocks on the five sample registers. */
  function Network5(V: seq<Reg>): (r: seq<Reg>)
    requires Lanes8(V) && |V| == 5
    ensures |r| == 5 && Lanes8(r)
  {
    var V1 := CoexAt(CoexAt(V, 0, 3), 1, 4);
    var V2 := CoexAt(CoexAt(V1, 0, 2), 1, 3);
    var V3 := CoexAt(CoexAt(V2, 0, 1), 2, 4);
    var V4 := CoexAt(CoexAt(V3, 1, 2), 3, 4);
    CoexAt(V4, 2, 3)
  }

  /** Lane by lane, the register network is the five-input sorting network. */
  lemma {:induction false} Network5Column(V: seq<Reg>, l: nat)
    requires Lanes8(V) && |V| == 5 && l < NUMLANES
    ensures Column(Network5(V), l) == Sort5(Column(V, l))
  {
    var V1 := CoexAt(V, 0, 3);
    var V2 := CoexAt(V1, 1, 4);
    var V3 := CoexAt(V2, 0, 2);
    var V4 := CoexAt(V3, 1, 3);
    var V5 := CoexAt(V4, 0, 1);
    var V6 := CoexAt(V5, 2, 4);
    var V7 := CoexAt(V6, 1, 2);
    var V8 := CoexAt(V7, 3, 4);
    ColumnCoexAt(V, 0, 3, l);
    ColumnCoexAt(V1, 1, 4, l);
    ColumnCoexAt(V2, 0, 2, l);
    ColumnCoexAt(V3, 1, 3, l);
    ColumnCoexAt(V4, 0, 1, l);
    ColumnCoexAt(V5, 2, 4, l);
    ColumnCoexAt(V6, 1, 2, l);
    ColumnCoexAt(V7, 3, 4, l);
    ColumnCoexAt(V8, 2, 3, l);
  }

  /** Lane l of the result: the median of lane l of the five inputs. */
  function LaneMedians(V: seq<Reg>): (r: Reg)
    requires Lanes8(V) && |V| == 5
    ensures |r| == NUMLANES
  {
    seq(NUMLANES, l requires 0 <= l < NUMLANES => SortSeq(Column(V, l))[2])
  }

  /** The five-register network leaves the lane-wise medians in vecs[2]. */
  lemma Network5Median(V: seq<Reg>)
    requires Lanes8(V) && |V| == 5
    ensures Network5(V)[2] == LaneMedians(V)
  {
    forall l | 0 <= l < NUMLANES
      ensures Network5(V)[2][l] == LaneMedians(V)[l]
    {
      Network5Column(V, l);
      Sort5Sorts(Column(V, l));
    }
  }

  /** The registers get_pivot_blocks / get_pivot_smart load: numVecs blocks, delta apart. */
  function BlockLoads(a: seq<int>, left: nat, right: nat, numVecs: nat): (V: seq<Reg>)
    requires numVecs > 0 && left + NUMLANES <= right < |a|
    ensures |V| == numVecs && Lanes8(V)
  {
    var delta := ((right - NUMLANES) - left) / numVecs;
    StridesFit((right - NUMLANES) - left, numVecs);
    seq(numVecs, i requires 0 <= i < numVecs =>
      StrideBound(i, delta, numVecs); Load(a, left + delta * i))
  }

  /** vtype::loadu: the register of numlanes elements from position at. */
  function Load(a: seq<int>, at: nat): (v: Reg)
    requires at + NUMLANES <= |a|
    ensures |v| == NUMLANES
  {
    a[at..at + NUMLANES]
  }

  /** Every loaded lane is an element of a[left..right]. */
  lemma BlockLoadsIn(a: seq<int>, left: nat, right: nat, numVecs: nat, k: nat, l: nat)
    requires numVecs > 0 && left + NUMLANES <= right < |a| && k < numVecs && l < NUMLANES
    ensures BlockLoads(a, left, right, numVecs)[k][l] in a[left..right + 1]
  {
    var delta := ((right - NUMLANES) - left) / numVecs;
    StridesFit((right - NUMLANES) - left, numVecs);
    StrideBound(k, delta, numVecs);
    var V := BlockLoads(a, left, right, numVecs);
    var at := left + delta * k;
    assert V[k] == Load(a, at);
    assert V[k][l] == a[at + l];
    var s := a[left..right + 1];
    assert s[at + l - left] == a[at + l];
  }

  /** Every lane-wise median of the five blocks is an element of a[left..right]. */
  lemma LaneMediansIn(a: seq<int>, left: nat, right: nat, x: int)
    requires left + NUMLANES <= right < |a|
    requires x in LaneMedians(BlockLoads(a, left, right, 5))
    ensures x in a[left..right + 1]
  {
    var V := BlockLoads(a, left, right, 5);
    var l :| 0 <= l < NUMLANES && LaneMedians(V)[l] == x;
    var c := Column(V, l);
    SortSeqMultiset(c);
    assert x in multiset(c) by {
      assert x in multiset(SortSeq(c));
    }
    var k :| 0 <= k < 5 && c[k] == x;
    BlockLoadsIn(a, left, right, 5, k, l);
  }

  /** COEX<vtype>(vecs[i], vecs[j]) on the local register array. */
  /**
   * get_pivot_blocks: get_pivot for ranges of at most 1024 + 1 elements;
   * otherwise the median of the lane-wise medians of five sample blocks. The
   * pivot is always an element of the range.
   */
  method GetPivotBlocks(arr: array<int>, left: nat, right: nat) returns (pivot: int)
    requires left <= right < arr.Length
    ensures right - left <= 1024 ==> pivot == SortSeq(Samples(arr[..], left, right))[NUMLANES / 2]
    ensures right - left > 1024 ==>
      pivot == SortSeq(LaneMedians(BlockLoads(arr[..], left, right, 5)))[NUMLANES / 2]
    ensures pivot in arr[left..right + 1]
  {
    if right - left <= 1024 {
      pivot := GetPivot(arr, left, right);
      return;
    }
    var width := (right - NUMLANES) - left;
    var delta := width / 5;
    ghost var L := BlockLoads(arr[..], left, right, 5);
    var vecs := new Reg[5];
    StridesFit(width, 5);
    for i := 0 to 5
      invariant forall k :: 0 <= k < i ==> vecs[k] == L[k]
    {
      StrideBound(i, delta, 5);
      vecs[i] := Load(arr[..], left + delta * i);
    }
    assert vecs[..] == L;
    CoexVecs(vecs, 0, 3);
    CoexVecs(vecs, 1, 4);
    CoexVecs(vecs, 0, 2);
    CoexVecs(vecs, 1, 3);
    CoexVecs(vecs, 0, 1);
    CoexVecs(vecs, 2, 4);
    CoexVecs(vecs, 1, 2);
    CoexVecs(vecs, 3, 4);
    CoexVecs(vecs, 2, 3);
    assert vecs[..] == Network5(L);
    Network5Median(L);
    var vec := SortReg8Lanes(vecs[2]);
    pivot := vec[NUMLANES / 2];
    ghost var M := LaneMedians(L);
    SortReg8LanesSorts(M);
    SortedIsSortSeq(M, vec);
    assert pivot in multiset(M) by {
      assert pivot in multiset(vec);
    }
    LaneMediansIn(arr[..], left, right, pivot);
  }

  // ------------------------------------------------- get_pivot_near_constant

  /** std::max(a, b, comparator::STDSortComparator): b when a sorts before b. */
  function StdMax(descend: bool, a: int, b: int): (r: int)
    ensures r == a || r == b
    ensures !StdSortComparator(descend, r, a) && !StdSortComparator(descend, r, b)
  {
    if StdSortComparator(descend, a, b) then b else a
  }

  /** std::max(std::min(v1, v2), std::min(std::max(v1, v2), c)) under comparison_func. */
  function Median3(a: int, b: int, c: int): int
  {
    Max(Min(a, b), Min(Max(a, b), c))
  }

  /** The median of three distinct values is one of them and lies strictly between the other two. */
  lemma Median3Between(a: int, b: int, c: int)
    requires a != b && b != c && a != c
    ensures Median3(a, b, c) == a || Median3(a, b, c) == b || Median3(a, b, c) == c
    ensures Min(a, Min(b, c)) < Median3(a, b, c) < Max(a, Max(b, c))
  {
  }

  /** s holds exactly two values, c and v. */
  ghost predicate TwoValues(s: seq<int>, c: int, v: int)
  {
    v != c && v in s && forall k :: 0 <= k < |s| ==> s[k] == c || s[k] == v
  }

  /** s holds two distinct values that both differ from c. */
  ghost predicate ThreeValues(s: seq<int>, c: int)
  {
    exists i, j :: 0 <= i < j < |s| && s[i] != c && s[j] != c && s[i] != s[j]
  }

  /** What get_pivot_near_constant promises about the range s and the common value c. */
  ghost predicate NearConstantOutcome(s: seq<int>, c: int, descend: bool, r: PivotResults)
  {
    (r.result == Sorted <==> AllEq(s, c))
    && (r.result == Sorted ==> r.pivot == c)
    && (r.result == Normal <==> ThreeValues(s, c))
    && (r.result == Only2Values ==> exists v :: TwoValues(s, c, v) && r.pivot == StdMax(descend, v, c))
    && (r.result == Normal ==>
         exists i, j :: 0 <= i < j < |s| && s[i] != c && s[j] != c && s[i] != s[j]
                        && r.pivot == Median3(s[i], s[j], c))
  }

  /**
   * With exactly two values and ascending order the pivot is the larger one:
   * every element below it is the smaller value and every other element is
   * the pivot, so both sides of the partition are constant.
   */
  lemma TwoValuesPartition(s: seq<int>, c: int, v: int)
    requires TwoValues(s, c, v)
    ensures forall k :: 0 <= k < |s| && s[k] < StdMax(false, v, c) ==> s[k] == Min(v, c)
    ensures forall k :: 0 <= k < |s| && s[k] >= StdMax(false, v, c) ==> s[k] == StdMax(false, v, c)
    ensures StdMax(false, v, c) == Max(v, c)
  {
  }

  lemma {:induction false} OutcomeSorted(a: seq<int>, left: nat, right: nat, c: int, descend: bool)
    requires left <= right < |a|
    requires forall k :: left <= k < right + 1 ==> a[k] == c
    ensures NearConstantOutcome(a[left..right + 1], c, descend, PivotResults(c, Sorted))
  {
    var s := a[left..right + 1];
    assert AllEq(s, c) by {
      forall k | 0 <= k < |s| ensures s[k] == c {
        assert s[k] == a[left + k];
      }
    }
    assert !ThreeValues(s, c);
  }

  lemma {:induction false} OutcomeTwo(a: seq<int>, left: nat, right: nat, c: int, v: int, i1: nat, descend: bool)
    requires left <= i1 <= right < |a| && a[i1] == v && v != c
    requires forall k :: left <= k < right + 1 ==> a[k] == c || a[k] == v
    ensures NearConstantOutcome(a[left..right + 1], c, descend, PivotResults(StdMax(descend, v, c), Only2Values))
  {
    var s := a[left..right + 1];
    assert s[i1 - left] == v;
    assert TwoValues(s, c, v) by {
      forall k | 0 <= k < |s| ensures s[k] == c || s[k] == v {
        assert s[k] == a[left + k];
      }
    }
    assert !ThreeValues(s, c);
  }

  lemma {:induction false} OutcomeThree(a: seq<int>, left: nat, right: nat, c: int, v1: int, v2: int,
                                        i1: nat, i2: nat, descend: bool)
    requires left <= i1 < i2 <= right < |a| && a[i1] == v1 && a[i2] == v2
    requires v1 != c && v2 != c && v2 != v1
    ensures NearConstantOutcome(a[left..right + 1], c, descend, PivotResults(Median3(v1, v2, c), Normal))
  {
    var s := a[left..right + 1];
    assert s[i1 - left] == v1 && s[i2 - left] == v2;
    assert ThreeValues(s, c);
    assert !AllEq(s, c);
  }

  /**
   * get_pivot_near_constant: finds the first element that differs from
   * commonValue and then the first that differs from both. No other value:
   * Sorted; one other value: Only2Values with the one the comparator sorts
   * last; otherwise the median of the three values found.
   */
  method GetPivotNearConstant(arr: array<int>, commonValue: int, left: nat, right: nat, descend: bool)
    returns (r: PivotResults)
    requires left <= right < arr.Length && NUMLANES <= right
    ensures NearConstantOutcome(arr[left..right + 1], commonValue, descend, r)
  {
    var index := left;
    var value1, value2 := 0, 0;
    var commonVec := Set1(commonValue, NUMLANES);
    while index <= right - NUMLANES
      invariant left <= index <= right + 1
      invariant forall k :: left <= k < index ==> arr[k] == commonValue
      decreases right + 1 - index
    {
      var data := arr[index..index + NUMLANES];
      if !AllFalse(KNot(Eq(data, commonVec))) {
        break;
      }
      forall k | index <= k < index + NUMLANES
        ensures arr[k] == commonValue
      {
        assert !KNot(Eq(data, commonVec))[k - index];
      }
      index := index + NUMLANES;
    }
    while index <= right
      invariant left <= index <= right + 1
      invariant forall k :: left <= k < index ==> arr[k] == commonValue
      decreases right + 1 - index
    {
      if arr[index] != commonValue {
        value1 := arr[index];
        break;
      }
      index := index + 1;
    }
    if index == right + 1 {
      r := PivotResults(commonValue, Sorted);
      OutcomeSorted(arr[..], left, right, commonValue, descend);
      return;
    }
    ghost var i1 := index;
    var value1Vec := Set1(value1, NUMLANES);
    while index <= right - NUMLANES
      invariant i1 <= index <= right + 1
      invariant forall k :: left <= k < index ==> arr[k] == commonValue || arr[k] == value1
      decreases right + 1 - index
    {
      var data := arr[index..index + NUMLANES];
      if !AllFalse(KNot(Eq(data, commonVec))) && !AllFalse(KNot(Eq(data, value1Vec))) {
        break;
      }
      forall k | index <= k < index + NUMLANES
        ensures arr[k] == commonValue || arr[k] == value1
      {
        if AllFalse(KNot(Eq(data, commonVec))) {
          assert !KNot(Eq(data, commonVec))[k - index];
        } else {
          assert !KNot(Eq(data, value1Vec))[k - index];
        }
      }
      index := index + NUMLANES;
    }
    while index <= right
      invariant i1 <= index <= right + 1
      invariant forall k :: left <= k < index ==> arr[k] == commonValue || arr[k] == value1
      decreases right + 1 - index
    {
      if arr[index] != commonValue && arr[index] != value1 {
        value2 := arr[index];
        break;
      }
      index := index + 1;
    }
    if index == right + 1 {
      r := PivotResults(StdMax(descend, value1, commonValue), Only2Values);
      OutcomeTwo(arr[..], left, right, commonValue, value1, i1, descend);
      return;
    }
    r := PivotResults(Median3(value1, value2, commonValue), Normal);
    OutcomeThree(arr[..], left, right, commonValue, value1, value2, i1, index, descend);
  }

  // ---------------------------------------------------------- get_pivot_smart

  /**
   * get_pivot_smart: get_pivot for ranges of at most 128 elements; otherwise
   * the 32 lanes of four sample blocks, sorted. A constant sample defers to
   * get_pivot_near_constant with the sample median; a median that differs
   * from the smallest and the largest sample is the pivot; otherwise the
   * comparator's choosePivotMedianIsSmallest / choosePivotMedianIsLargest.
   */
  method GetPivotSmart(arr: array<int>, left: nat, right: nat, descend: bool) returns (r: PivotResults)
    requires left <= right < arr.Length && InRange(arr[left..right + 1])
    ensures right - left + 1 <= 4 * 4 * NUMLANES ==>
      r == PivotResults(SortSeq(Samples(arr[..], left, right))[NUMLANES / 2], Normal)
    ensures right - left + 1 > 4 * 4 * NUMLANES ==>
      var S := SmartSamples(arr[..], left, right);
      (S[0] == S[31] ==> NearConstantOutcome(arr[left..right + 1], S[16], descend, r))
      && (S[0] != S[31] ==> r.result == Normal)
      && (S[16] != S[0] && S[16] != S[31] ==> r.pivot == S[16])
      && (S[0] != S[31] && S[16] == S[0] ==> r.pivot == ChoosePivotMedianIsSmallest(descend, S[16]))
      && (S[0] != S[31] && S[16] == S[31] ==> r.pivot == ChoosePivotMedianIsLargest(descend, S[16]))
  {
    if right - left + 1 <= 4 * 4 * NUMLANES {
      var p := GetPivot(arr, left, right);
      return PivotResults(p, Normal);
    }
    var numVecs := 4;
    var width := (right - NUMLANES) - left;
    var delta := width / numVecs;
    ghost var L := BlockLoads(arr[..], left, right, 4);
    var vecs := new Reg[numVecs];
    StridesFit(width, 4);
    for i := 0 to numVecs
      invariant forall k :: 0 <= k < i ==> vecs[k] == L[k]
    {
      StrideBound(i, delta, 4);
      vecs[i] := Load(arr[..], left + delta * i);
    }
    assert vecs[..] == L;
    var samples := SortSeq(Flat(vecs[..]));
    assert samples == SmartSamples(arr[..], left, right);
    var smallest := samples[0];
    var largest := samples[31];
    var median := samples[16];
    if smallest == largest {
      r := GetPivotNearConstant(arr, median, left, right, descend);
    } else if median != smallest && median != largest {
      r := PivotResults(median, Normal);
    } else if median == smallest {
      r := PivotResults(ChoosePivotMedianIsSmallest(descend, median), Normal);
    } else {
      r := PivotResults(ChoosePivotMedianIsLargest(descend, median), Normal);
    }
  }

  /**
   * The 32 samples of get_pivot_smart, sorted (sort_vectors is not part of
   * this model: it is taken to sort the four registers' lanes).
   */
  function SmartSamples(a: seq<int>, left: nat, right: nat): (S: seq<int>)
    requires left + NUMLANES <= right < |a| && InRange(a[left..right + 1])
    ensures |S| == 32 && InRange(S) && Simd.Sorted(S)
  {
    var S := SortSeq(Flat(BlockLoads(a, left, right, 4)));
    SamplesRange(a, left, right);
    SortSeqSorted(Flat(BlockLoads(a, left, right, 4)));
    S
  }

  lemma SamplesRange(a: seq<int>, left: nat, right: nat)
    requires left + NUMLANES <= right < |a| && InRange(a[left..right + 1])
    ensures InRange(SortSeq(Flat(BlockLoads(a, left, right, 4))))
  {
    var S := SortSeq(Flat(BlockLoads(a, left, right, 4)));
    forall i | 0 <= i < |S| ensures TYPE_MIN <= S[i] <= TYPE_MAX {
      SortedSamplesInRange(a, left, right, S[i]);
    }
  }

  /** Every sorted sample of get_pivot_smart is an element of the range, so in range. */
  lemma SortedSamplesInRange(a: seq<int>, left: nat, right: nat, x: int)
    requires left + NUMLANES <= right < |a| && InRange(a[left..right + 1])
    requires x in SortSeq(Flat(BlockLoads(a, left, right, 4)))
    ensures TYPE_MIN <= x <= TYPE_MAX
  {
    var L := BlockLoads(a, left, right, 4);
    SortSeqMultiset(Flat(L));
    assert x in multiset(Flat(L)) by {
      assert x in multiset(SortSeq(Flat(L)));
    }
    var idx :| 0 <= idx < |Flat(L)| && Flat(L)[idx] == x;
    FlatIndex(L, idx);
    BlockLoadsIn(a, left, right, 4, idx / NUMLANES, idx % NUMLANES);
    var s := a[left..right + 1];
    var m :| 0 <= m < |s| && s[m] == x;
  }
}
