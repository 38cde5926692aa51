/**
 * The comparator helpers of xss-common-comparators.hpp for an integer
 * element type: the saturating neighbours prev_value / next_value, and the
 * Comparator<vtype, descend> policy the pivot code is parameterised by.
 * `descend` is the template flag; the vector type is the 8-lane int64 type.
 */
module Comparators {
  import opened Simd
  import opened Exchange

  /** prev_value: one less, except at the smallest representable value. */
  function PrevValue(v: int): (r: int)
    requires TYPE_MIN <= v <= TYPE_MAX
    ensures TYPE_MIN <= r <= v
    ensures r == v <==> v == TYPE_MIN
    ensures v - r <= 1
  {
    if v > TYPE_MIN then v - 1 else v
  }

  /** next_value: one more, except at the largest representable value. */
  function NextValue(v: int): (r: int)
    requires TYPE_MIN <= v <= TYPE_MAX
    ensures v <= r <= TYPE_MAX
    ensures r == v <==> v == TYPE_MAX
    ensures r - v <= 1
  {
    if v < TYPE_MAX then v + 1 else v
  }

  /** The two neighbours undo each other away from the saturating end. */
  lemma PrevNext(v: int)
    requires TYPE_MIN <= v < TYPE_MAX
    ensures PrevValue(NextValue(v)) == v
    ensures NextValue(v) > TYPE_MIN ==> NextValue(PrevValue(NextValue(v))) == NextValue(v)
  {
  }

  /** comparison_func<vtype>: the ascending order `<`. */
  function ComparisonFunc(a: int, b: int): bool
  {
    a < b
  }

  /**
   * comparison_func is a strict total order, what std::sort and
   * std::nth_element ask of their comparator: irreflexive, asymmetric,
   * transitive, and any two different values are comparable.
   */
  lemma ComparisonFuncStrictTotal(a: int, b: int, c: int)
    ensures !ComparisonFunc(a, a)
    ensures ComparisonFunc(a, b) ==> !ComparisonFunc(b, a)
    ensures ComparisonFunc(a, b) && ComparisonFunc(b, c) ==> ComparisonFunc(a, c)
    ensures a != b ==> ComparisonFunc(a, b) || ComparisonFunc(b, a)
  {
  }

  /** Comparator::STDSortComparator: the arguments of comparison_func swapped when descending. */
  function StdSortComparator(descend: bool, a: int, b: int): bool
  {
    if descend then ComparisonFunc(b, a) else ComparisonFunc(a, b)
  }

  /**
   * The descending comparator is the ascending one with its arguments
   * swapped, and each is a strict order (irreflexive and transitive), so
   * std::sort may use it.
   */
  lemma StdSortComparatorOrder(a: int, b: int, c: int)
    ensures StdSortComparator(true, a, b) == StdSortComparator(false, b, a)
    ensures !StdSortComparator(true, a, a) && !StdSortComparator(false, a, a)
    ensures forall d: bool :: StdSortComparator(d, a, b) && StdSortComparator(d, b, c) ==> StdSortComparator(d, a, c)
  {
  }

  /** Comparator::PartitionComparator: the lanes that belong right of the pivot. */
  function PartitionComparator(descend: bool, a: Reg, b: Reg): (m: Mask)
    requires |a| == |b|
    ensures |m| == |a|
    ensures forall i :: 0 <= i < |a| ==> (m[i] <==> !StdSortComparator(descend, a[i], b[i]))
  {
    if descend then Ge(b, a) else Ge(a, b)
  }

  /**
   * Comparator::COEX: the ascending COEX, with its arguments swapped when
   * descending, so that the first register ends up holding the lanes that
   * sort first in the comparator's order.
   */
  function ComparatorCoex(descend: bool, a: Reg, b: Reg): (r: (Reg, Reg))
    requires |a| == |b|
    ensures |r.0| == |r.1| == |a|
    ensures forall i :: 0 <= i < |a| ==> !StdSortComparator(descend, r.1[i], r.0[i])
    ensures forall i :: 0 <= i < |a| ==>
      (r.0[i] == a[i] && r.1[i] == b[i]) || (r.0[i] == b[i] && r.1[i] == a[i])
  {
    if descend then
      var c := Coex(b, a);
      (c.1, c.0)
    else
      Coex(a, b)
  }

  /** Comparator::rightmostPossibleVec: lanes no value sorts after. */
  function RightmostPossibleVec(descend: bool): (r: Reg)
    ensures |r| == NUMLANES
    ensures forall i, x :: 0 <= i < NUMLANES && TYPE_MIN <= x <= TYPE_MAX ==> !StdSortComparator(descend, r[i], x)
  {
    if descend then Set1(TYPE_MIN, NUMLANES) else Set1(TYPE_MAX, NUMLANES)
  }

  /** Comparator::leftmost: of a smaller and a larger value, the one the comparator puts first. */
  function Leftmost(descend: bool, smaller: int, larger: int): (r: int)
    requires smaller <= larger
    ensures r == smaller || r == larger
    ensures !StdSortComparator(descend, smaller, r) && !StdSortComparator(descend, larger, r)
  {
    if descend then larger else smaller
  }

  /** Comparator::rightmost: of a smaller and a larger value, the one the comparator puts last. */
  function Rightmost(descend: bool, smaller: int, larger: int): (r: int)
    requires smaller <= larger
    ensures r == smaller || r == larger
    ensures !StdSortComparator(descend, r, smaller) && !StdSortComparator(descend, r, larger)
  {
    if descend then smaller else larger
  }

  /** leftmost and rightmost pick different values of a distinct pair. */
  lemma LeftmostRightmost(descend: bool, smaller: int, larger: int)
    requires smaller < larger
    ensures Leftmost(descend, smaller, larger) != Rightmost(descend, smaller, larger)
    ensures StdSortComparator(descend, Leftmost(descend, smaller, larger), Rightmost(descend, smaller, larger))
  {
  }

  /**
   * Comparator::choosePivotMedianIsSmallest: when the sample median is also
   * the smallest sample, ascending order moves the pivot one past it, so that
   * every copy of the median is below the pivot; descending keeps it.
   */
  function ChoosePivotMedianIsSmallest(descend: bool, median: int): (r: int)
    requires TYPE_MIN <= median <= TYPE_MAX
    ensures descend ==> r == median
    ensures !descend ==> r == NextValue(median)
    ensures !descend && median < TYPE_MAX ==> r - median == 1
  {
    if descend then median else NextValue(median)
  }

  /**
   * Comparator::choosePivotMedianIsLargest: the mirror image; descending
   * order moves the pivot one below the median, ascending keeps it.
   */
  function ChoosePivotMedianIsLargest(descend: bool, median: int): (r: int)
    requires TYPE_MIN <= median <= TYPE_MAX
    ensures !descend ==> r == median
    ensures descend ==> r == PrevValue(median)
    ensures descend && median > TYPE_MIN ==> median - r == 1
  {
    if descend then PrevValue(median) else median
  }

  /** choosePivotMedianIsSmallest and choosePivotMedianIsLargest mirror each other. */
  lemma ChoosePivotMirror(median: int)
    requires TYPE_MIN < median < TYPE_MAX
    ensures ChoosePivotMedianIsSmallest(false, median) - median == median - ChoosePivotMedianIsLargest(true, median) == 1
    ensures ChoosePivotMedianIsSmallest(true, median) == ChoosePivotMedianIsLargest(false, median) == median
  {
  }
}
