/**
 * Lane-level model of the vector types the sorting code is written against.
 * A register is a sequence of lanes; every intrinsic the core uses (min, max,
 * blend, compare, reverse, swizzles, compress-store) is a function on lanes.
 * The concrete vector type is the 8-lane zmm_vector<int64_t>.
 */
module Simd {
  /** Lanes per register of zmm_vector<int64_t>. */
  const NUMLANES: nat := 8
  /** type_max() / type_min() of int64_t. */
  const TYPE_MAX: int := 0x7FFF_FFFF_FFFF_FFFF
  const TYPE_MIN: int := -0x8000_0000_0000_0000

  type Reg = seq<int>
  type Mask = seq<bool>

  /** Every element is a representable int64_t. */
  predicate InRange(s: seq<int>)
  {
    forall i :: 0 <= i < |s| ==> TYPE_MIN <= s[i] <= TYPE_MAX
  }

  function Min(a: int, b: int): int { if a <= b then a else b }
  function Max(a: int, b: int): int { if a <= b then b else a }

  /** Ascending order (comparison_func is `<`). */
  predicate Sorted(s: seq<int>)
  {
    forall i, j :: 0 <= i < j < |s| ==> s[i] <= s[j]
  }

  /** Whole-register reversal, vtype::reverse. */
  function Rev<T>(s: seq<T>): (r: seq<T>)
    ensures |r| == |s|
  {
    seq(|s|, i requires 0 <= i < |s| => s[|s| - 1 - i])
  }

  /** vtype::min / vtype::max, lane by lane. */
  function VMin(a: Reg, b: Reg): (r: Reg)
    requires |a| == |b|
    ensures |r| == |a|
  {
    seq(|a|, i requires 0 <= i < |a| => Min(a[i], b[i]))
  }

  function VMax(a: Reg, b: Reg): (r: Reg)
    requires |a| == |b|
    ensures |r| == |a|
  {
    seq(|a|, i requires 0 <= i < |a| => Max(a[i], b[i]))
  }

  /** vtype::mask_mov(a, m, b): lane l is b[l] where m[l] is set, else a[l]. */
  function MaskMov<T>(a: seq<T>, m: Mask, b: seq<T>): (r: seq<T>)
    requires |a| == |m| == |b|
    ensures |r| == |a|
  {
    seq(|a|, i requires 0 <= i < |a| => if m[i] then b[i] else a[i])
  }

  /** vtype::ge and vtype::eq, lane-wise comparisons giving a mask. */
  function Ge(x: Reg, y: Reg): (m: Mask)
    requires |x| == |y|
    ensures |m| == |x|
  {
    seq(|x|, i requires 0 <= i < |x| => x[i] >= y[i])
  }

  function Eq(x: Reg, y: Reg): (m: Mask)
    requires |x| == |y|
    ensures |m| == |x|
  {
    seq(|x|, i requires 0 <= i < |x| => x[i] == y[i])
  }

  function KNot(m: Mask): (r: Mask)
    ensures |r| == |m|
  {
    seq(|m|, i requires 0 <= i < |m| => !m[i])
  }

  /** vtype::set1: every lane holds v. */
  function Set1(v: int, n: nat): (r: Reg)
    ensures |r| == n
  {
    seq(n, i requires 0 <= i < n => v)
  }

  /** The n low bits of an integer mask constant, lane 0 first. */
  function Bits(mask: nat, n: nat): (r: Mask)
    ensures |r| == n
  {
    if n == 0 then [] else [mask % 2 == 1] + Bits(mask / 2, n - 1)
  }

  /** _mm_popcnt_u32 of a mask. */
  function Popcount(m: Mask): nat
  {
    if |m| == 0 then 0 else (if m[0] then 1 else 0) + Popcount(m[1..])
  }

  /** The lanes a compress-store writes: the selected lanes, in lane order. */
  function Compress<T>(v: seq<T>, m: Mask): (r: seq<T>)
    requires |v| == |m|
  {
    if |v| == 0 then [] else (if m[0] then [v[0]] else []) + Compress(v[1..], m[1..])
  }

  /** n is a whole number of k-blocks. */
  predicate Multiple(n: nat, k: nat)
    decreases n
  {
    k > 0 && (n == 0 || (n >= k && Multiple(n - k, k)))
  }

  /** swizzle reverse_n<k>: reverses the order of lanes inside each k-lane block. */
  function ReverseN<T>(v: seq<T>, k: nat): (r: seq<T>)
    requires Multiple(|v|, k)
    ensures |r| == |v|
    decreases |v|
  {
    if |v| == 0 then [] else Rev(v[..k]) + ReverseN(v[k..], k)
  }

  /** swizzle swap_n<k>: swaps the two halves of each k-lane block. */
  function SwapN<T>(v: seq<T>, k: nat): (r: seq<T>)
    requires Multiple(|v|, k) && k % 2 == 0
    ensures |r| == |v|
    decreases |v|
  {
    if |v| == 0 then [] else v[k / 2..k] + v[..k / 2] + SwapN(v[k..], k)
  }

  /** vtype::reducemin / vtype::reducemax: the smallest / largest lane. */
  function ReduceMin(v: Reg): int
    requires |v| > 0
  {
    if |v| == 1 then v[0] else Min(v[0], ReduceMin(v[1..]))
  }

  function ReduceMax(v: Reg): int
    requires |v| > 0
  {
    if |v| == 1 then v[0] else Max(v[0], ReduceMax(v[1..]))
  }

  /** The reduction is a lane, and no lane is beyond it. */
  lemma {:induction false} ReduceMinLanes(v: Reg)
    requires |v| > 0
    ensures ReduceMin(v) in v
    ensures forall i :: 0 <= i < |v| ==> ReduceMin(v) <= v[i]
  {
    if |v| > 1 {
      ReduceMinLanes(v[1..]);
      forall i | 1 <= i < |v| ensures ReduceMin(v) <= v[i] {
        assert v[i] == v[1..][i - 1];
      }
    }
  }

  lemma {:induction false} ReduceMaxLanes(v: Reg)
    requires |v| > 0
    ensures ReduceMax(v) in v
    ensures forall i :: 0 <= i < |v| ==> v[i] <= ReduceMax(v)
  {
    if |v| > 1 {
      ReduceMaxLanes(v[1..]);
      forall i | 1 <= i < |v| ensures v[i] <= ReduceMax(v) {
        assert v[i] == v[1..][i - 1];
      }
    }
  }

  /** A mask and its complement select all lanes between them. */
  lemma {:induction false} PopcountKNot(m: Mask)
    ensures Popcount(KNot(m)) == |m| - Popcount(m)
  {
    if |m| > 0 {
      assert KNot(m)[1..] == KNot(m[1..]);
      PopcountKNot(m[1..]);
    }
  }

  lemma {:induction false} PopcountBound(m: Mask)
    ensures Popcount(m) <= |m|
  {
    if |m| > 0 { PopcountBound(m[1..]); }
  }

  /** A compress-store writes exactly popcount(mask) lanes. */
  lemma {:induction false} CompressLength<T>(v: seq<T>, m: Mask)
    requires |v| == |m|
    ensures |Compress(v, m)| == Popcount(m)
  {
    if |v| > 0 { CompressLength(v[1..], m[1..]); }
  }

  /** The lanes selected by m and by its complement together are the register. */
  lemma CompressSplit<T>(v: seq<T>, m: Mask)
    requires |v| == |m|
    ensures multiset(Compress(v, KNot(m))) + multiset(Compress(v, m)) == multiset(v)
  {
    CompressComplement(v, m, KNot(m));
  }

  lemma {:induction false} CompressComplement<T>(v: seq<T>, m: Mask, n: Mask)
    requires |v| == |m| == |n| && forall i :: 0 <= i < |m| ==> n[i] == !m[i]
    ensures multiset(Compress(v, n)) + multiset(Compress(v, m)) == multiset(v)
    decreases |v|
  {
    if |v| > 0 {
      var v', m', n' := v[1..], m[1..], n[1..];
      assert forall i :: 0 <= i < |m'| ==> n'[i] == !m'[i] by {
        forall i | 0 <= i < |m'| ensures n'[i] == !m'[i] {
          assert n'[i] == n[i + 1] && m'[i] == m[i + 1];
        }
      }
      CompressComplement(v', m', n');
      CompressHead(v, m);
      CompressHead(v, n);
      assert n[0] == !m[0];
      assert multiset(v) == multiset{v[0]} + multiset(v') by {
        assert v == [v[0]] + v';
      }
    }
  }

  /** The first lane is written iff it is selected; the rest follow it. */
  lemma CompressHead<T>(v: seq<T>, m: Mask)
    requires |v| == |m| > 0
    ensures multiset(Compress(v, m))
         == (if m[0] then multiset{v[0]} else multiset{}) + multiset(Compress(v[1..], m[1..]))
  {
  }

  /** Every lane a compress-store writes is a selected lane of the register. */
  lemma {:induction false} CompressElems<T>(v: seq<T>, m: Mask, x: T)
    requires |v| == |m|
    ensures x in Compress(v, m) <==> exists i :: 0 <= i < |v| && m[i] && v[i] == x
  {
    if |v| > 0 {
      CompressElems(v[1..], m[1..], x);
      if x in Compress(v[1..], m[1..]) {
        var i :| 0 <= i < |v| - 1 && m[1..][i] && v[1..][i] == x;
        assert m[i + 1] && v[i + 1] == x;
      }
      if exists i :: 0 <= i < |v| && m[i] && v[i] == x {
        var i :| 0 <= i < |v| && m[i] && v[i] == x;
        if i > 0 { assert m[1..][i - 1] && v[1..][i - 1] == x; }
      }
    }
  }

  lemma {:induction false} RevMultiset<T>(s: seq<T>)
    ensures multiset(Rev(s)) == multiset(s)
  {
    if |s| > 0 {
      RevMultiset(s[1..]);
      assert Rev(s) == Rev(s[1..]) + [s[0]];
      assert s == [s[0]] + s[1..];
    }
  }

  lemma RevRev<T>(s: seq<T>)
    ensures Rev(Rev(s)) == s
  {
  }

  lemma {:induction false} MinMaxMultiset(a: Reg, b: Reg)
    requires |a| == |b|
    ensures multiset(VMin(a, b)) + multiset(VMax(a, b)) == multiset(a) + multiset(b)
  {
    if |a| > 0 {
      MinMaxMultiset(a[1..], b[1..]);
      MinMaxHead(a, b);
      assert a == [a[0]] + a[1..];
      assert b == [b[0]] + b[1..];
      MultisetRearrange(a[0], b[0], multiset(a[1..]), multiset(b[1..]));
    }
  }

  lemma MinMaxHead(a: Reg, b: Reg)
    requires |a| == |b| > 0
    ensures multiset(VMin(a, b)) + multiset(VMax(a, b))
         == multiset{a[0]} + multiset{b[0]} + (multiset(VMin(a[1..], b[1..])) + multiset(VMax(a[1..], b[1..])))
  {
    assert VMin(a, b) == [Min(a[0], b[0])] + VMin(a[1..], b[1..]);
    assert VMax(a, b) == [Max(a[0], b[0])] + VMax(a[1..], b[1..]);
  }

  lemma MultisetRearrange(x: int, y: int, A: multiset<int>, B: multiset<int>)
    ensures multiset{x} + multiset{y} + (A + B) == (multiset{x} + A) + (multiset{y} + B)
  {
  }

  lemma {:induction false} MultipleHalf(n: nat, k: nat)
    requires Multiple(n, k) && k % 2 == 0
    ensures Multiple(n, k / 2)
    decreases n
  {
    if n > 0 {
      MultipleHalf(n - k, k);
      assert Multiple(n - k / 2, k / 2);
    }
  }

  lemma {:induction false} MultipleAdd(n: nat, m: nat, k: nat)
    requires Multiple(n, k) && Multiple(m, k)
    ensures Multiple(n + m, k)
    decreases n
  {
    if n > 0 {
      MultipleAdd(n - k, m, k);
    }
  }

  lemma {:induction false} MultipleSub(n: nat, m: nat, k: nat)
    requires Multiple(n, k) && Multiple(m, k) && m <= n
    ensures Multiple(n - m, k)
    decreases m
  {
    if m > 0 {
      MultipleSub(n - k, m - k, k);
    }
  }
}
