/**
 * The scalar pieces of the 16-bit float sort (avx512-16bit-qsort.hpp) that
 * work on raw bit patterns: the comparison used by the scalar fallbacks,
 * the NaN test, and the padding values type_max / type_min.
 * A half is its 16-bit pattern: sign bit 15, exponent bits 10-14,
 * mantissa bits 0-9.
 */
module Fp16 {
  /** A uint16_t bit pattern. */
  type Half = x: int | 0 <= x < 0x1_0000

  /** type_max(): +infinity. */
  const TYPE_MAX_HALF: Half := 0x7c00
  /** type_min(): -infinity. */
  const TYPE_MIN_HALF: Half := 0xfc00

  // The masks of the source are contiguous bit fields, written here as
  // division and remainder by powers of two.

  /** a & 0x8000. */
  function Sign(a: Half): nat { if a >= 0x8000 then 0x8000 else 0 }
  /** a & 0x7c00. */
  function Exp(a: Half): nat { (a % 0x8000) / 0x400 * 0x400 }
  /** a & 0x3ff. */
  function Mant(a: Half): nat { a % 0x400 }

  /** comparison_func<zmm_vector<float16>>: a < b on bit patterns. */
  function Less(a: Half, b: Half): bool
  {
    if Sign(a) != Sign(b) then a > b
    else if Sign(a) > 0 then
      if Exp(a) != Exp(b) then Exp(a) > Exp(b) else Mant(a) > Mant(b)
    else
      if Exp(a) != Exp(b) then Exp(a) < Exp(b) else Mant(a) < Mant(b)
  }

  /** is_a_nan<uint16_t>: all exponent bits set and a nonzero mantissa. */
  function IsNan(a: Half): bool
  {
    Exp(a) == 0x7c00 && Mant(a) != 0
  }

  /** The magnitude: the pattern without its sign bit (a & 0x7fff). */
  function Magnitude(a: Half): (r: nat)
    ensures r < 0x8000
  {
    a % 0x8000
  }

  /**
   * An independent order key: the magnitude for a positive pattern, one
   * below its negation for a negative pattern (so that -0 sorts just
   * below +0).
   */
  function Key(a: Half): (r: int)
    ensures -0x8000 <= r < 0x8000
  {
    if a >= 0x8000 then -(Magnitude(a) as int) - 1 else Magnitude(a)
  }

  /** The magnitude is exponent then mantissa, in that significance. */
  lemma {:induction false} MagnitudeParts(a: Half)
    ensures Magnitude(a) == Exp(a) + Mant(a)
    ensures Exp(a) <= Magnitude(a) < Exp(a) + 0x400
  {
  }

  /** Within one sign, the order on (exponent, mantissa) is the order of the magnitudes. */
  lemma {:induction false} FieldOrder(a: Half, b: Half)
    ensures Exp(a) != Exp(b) ==> (Exp(a) < Exp(b) <==> Magnitude(a) < Magnitude(b))
    ensures Exp(a) == Exp(b) ==> (Mant(a) < Mant(b) <==> Magnitude(a) < Magnitude(b))
    ensures Exp(a) == Exp(b) ==> (Mant(a) > Mant(b) <==> Magnitude(a) > Magnitude(b))
  {
    MagnitudeParts(a);
    MagnitudeParts(b);
    assert Exp(a) % 0x400 == 0 && Exp(b) % 0x400 == 0;
  }

  /**
   * comparison_func is the order of Key: the comparison is a strict total
   * order on all 65536 patterns (NaN patterns included, ordered by their
   * bits), negatives below positives, -0 below +0.
   */
  lemma {:induction false} LessIsKeyOrder(a: Half, b: Half)
    ensures Less(a, b) <==> Key(a) < Key(b)
  {
    FieldOrder(a, b);
    FieldOrder(b, a);
  }

  /** Key tells every pattern apart. */
  lemma {:induction false} KeyInjective(a: Half, b: Half)
    requires Key(a) == Key(b)
    ensures a == b
  {
  }

  /** cmp(a, a) is false. */
  lemma {:induction false} LessIrreflexive(a: Half)
    ensures !Less(a, a)
  {
    LessIsKeyOrder(a, a);
  }

  /** The comparison is transitive and total on distinct patterns. */
  lemma {:induction false} LessStrictTotal(a: Half, b: Half, c: Half)
    ensures Less(a, b) && Less(b, c) ==> Less(a, c)
    ensures a != b ==> (Less(a, b) || Less(b, a))
    ensures !(Less(a, b) && Less(b, a))
  {
    LessIsKeyOrder(a, b);
    LessIsKeyOrder(b, c);
    LessIsKeyOrder(a, c);
    LessIsKeyOrder(b, a);
    if Key(a) == Key(b) {
      KeyInjective(a, b);
    }
  }

  /** With opposite signs the negative pattern is the smaller. */
  lemma {:induction false} OppositeSigns(a: Half, b: Half)
    requires Sign(a) != 0 && Sign(b) == 0
    ensures Less(a, b) && !Less(b, a)
  {
    LessIsKeyOrder(a, b);
    LessIsKeyOrder(b, a);
  }

  /** Both negative: the larger magnitude is the smaller value. */
  lemma {:induction false} BothNegative(a: Half, b: Half)
    requires Sign(a) != 0 && Sign(b) != 0
    ensures Less(a, b) <==> Magnitude(a) > Magnitude(b)
  {
    FieldOrder(a, b);
    FieldOrder(b, a);
  }

  /** Both positive: the order of the magnitudes, that is of (exponent, mantissa). */
  lemma {:induction false} BothPositive(a: Half, b: Half)
    requires Sign(a) == 0 && Sign(b) == 0
    ensures Less(a, b) <==> Magnitude(a) < Magnitude(b)
  {
    FieldOrder(a, b);
  }

  /** A NaN is exactly a pattern whose magnitude lies above infinity's. */
  lemma {:induction false} NanAboveInfinity(a: Half)
    ensures IsNan(a) <==> Magnitude(a) > Magnitude(TYPE_MAX_HALF)
  {
    MagnitudeParts(a);
  }

  /**
   * type_max and type_min bound every non-NaN pattern in the comparison's
   * order, which is why they serve as the padding of partial registers.
   */
  lemma {:induction false} PaddingBounds(a: Half)
    requires !IsNan(a)
    ensures !Less(TYPE_MAX_HALF, a) && !Less(a, TYPE_MIN_HALF)
  {
    NanAboveInfinity(a);
    LessIsKeyOrder(TYPE_MAX_HALF, a);
    LessIsKeyOrder(a, TYPE_MIN_HALF);
  }
}
