/**
 * The C version: macros and functions over a plain int32 fp_int_t holding
 * value / 2^18, with an int64 fp_int_xl_t for products and scaled dividends.
 * Its arithmetic is the class template's at int32, int64 and 14 integer bits,
 * which is proved here operation by operation; floor, ceil and round are its own
 * and round the magnitude: toward zero, away from zero, and half away from zero.
 */
module FixedPointC {
  import opened CInt
  import FixedPoint

  /** fp_int_t. */
  const IntT := IntType(true, 32)
  /** fp_int_xl_t. */
  const IntXlT := IntType(true, 64)

  /** FP_NUM_BITS. */
  const NumBits: nat := 32
  /** FP_INT_BITS. */
  const IntBits: nat := 14
  /** FP_FRAC_BITS, also FP_SCALE. */
  const FracBits: nat := NumBits - IntBits

  /** FP_SCALE_FACTOR: 1 << FP_SCALE. */
  const ScaleFactor: int := Pow2(FracBits)

  /**
   * FP_INT_MASK: 14 ones shifted above the binary point; the shift runs past
   * the sign bit of int and wraps.
   */
  const IntMask: int := IntT.Cast((Pow2(IntBits) - 1) * Pow2(FracBits))

  /** FP_FRAC_MASK: 18 ones below the binary point. */
  const FracMask: int := Pow2(FracBits) - 1

  /** FP_VAL_ZERO and FP_VAL_HALF. */
  const ValZero: int := 0
  const ValHalf: int := Pow2(FracBits - 1)

  /** The class template instantiated as the C version is: int32, int64, 14 integer bits. */
  const Cfg := FixedPoint.Config(IntT, IntXlT, IntBits)

  /** The largest whole number 8191 as fp_int_t: above it lie only fractions below 8192. */
  const LargestWhole: int := 8191 * Pow2(FracBits)

  lemma PowerValues()
    ensures Pow2(1) == 2 && Pow2(14) == 0x4000 && Pow2(17) == 0x2_0000 && Pow2(18) == 0x4_0000
    ensures Pow2(31) == 0x8000_0000 && Pow2(32) == 0x1_0000_0000
  {
    assert Pow2(2) == 4;
    Pow2Add(2, 1);
    Pow2Add(2, 2);
    Pow2Add(4, 3);
    Pow2Add(4, 4);
    Pow2Add(8, 6);
    Pow2Add(8, 8);
    Pow2Add(16, 1);
    Pow2Add(16, 2);
    Pow2Add(16, 15);
    Pow2Add(16, 16);
    Pow2Add(8, 7);
  }

  /** The C version satisfies the class template's concepts, with room for +1. */
  lemma CfgFacts()
    ensures Cfg.Valid() && Cfg.HasUnit()
    ensures Cfg.FracBits() == FracBits == 18
    ensures IntT.Min() == -0x8000_0000 && IntT.Max() == 0x7FFF_FFFF
    ensures IntXlT.Min() == -0x8000_0000_0000_0000
  {
    PowerValues();
    Pow2Add(32, 31);
  }

  /**
   * The macros' values: FP_FRAC_BITS is 18, FP_FRAC_MASK is 2^18 - 1 and
   * FP_INT_MASK its bitwise complement, -2^18.
   */
  lemma MacroValues()
    ensures FracBits == 18 && ScaleFactor == 0x4_0000 && ValHalf == 0x2_0000
    ensures LargestWhole == 8191 * 0x4_0000
    ensures FracMask == 0x3_FFFF
    ensures IntMask == -0x4_0000 == Not(IntT, FracMask)
    ensures IntMask == FixedPoint.IntMask(Cfg)
    ensures IntT.Pattern(IntMask) == HighMask(FracBits, NumBits)
  {
    PowerValues();
    CfgFacts();
    CastUnique(IntT, (Pow2(IntBits) - 1) * Pow2(FracBits), -0x4_0000) by {
      CongruentByMultiple(-0x4_0000, (Pow2(IntBits) - 1) * Pow2(FracBits), 32, -1);
    }
    PatternUnique(IntT, FracMask, FracMask) by {
      CongruentByMultiple(FracMask, FracMask, 32, 0);
    }
    CastUnique(IntT, Pow2(32) - 1 - FracMask, -0x4_0000) by {
      CongruentByMultiple(-0x4_0000, Pow2(32) - 1 - FracMask, 32, -1);
    }
  }

  // ---------------------------------------------------------------------------
  // Construction, sign
  // ---------------------------------------------------------------------------

  /** The range of fp_int_t. */
  lemma IntRange()
    ensures IntT.Min() == -0x8000_0000 && IntT.Max() == 0x7FFF_FFFF
    ensures ScaleFactor == 0x4_0000 && LargestWhole == 8191 * ScaleFactor
    ensures ValHalf == 0x2_0000
  {
    PowerValues();
  }

  /** FP_FROM_INT(a): a shifted left by FP_SCALE in int, wrapping; exact for every 14-bit a. */
  function FromInt(a: int): (r: int)
    requires IntT.Holds(a)
    ensures IntT.Holds(r)
    ensures -0x2000 <= a < 0x2000 ==> r == a * ScaleFactor
  {
    if -0x2000 <= a < 0x2000 then
      IntRange();
      CastOfValue(IntT, a * Pow2(FracBits));
      IntT.Cast(a * Pow2(FracBits))
    else
      IntT.Cast(a * Pow2(FracBits))
  }

  /** FP_FROM_INT is the class template's integer constructor. */
  lemma FromIntAgrees(a: int)
    requires IntT.Holds(a)
    ensures FromInt(a) == FixedPoint.FromInt(Cfg, a).value
  {
    CfgFacts();
    var h := FixedPoint.FromInt(Cfg, a).value;
    CongruentSymmetric(h, a * Pow2(FracBits), NumBits);
    CastUnique(IntT, a * Pow2(FracBits), h);
  }

  /** Every integer of 14 bits comes back from FP_FROM_INT as its integer part. */
  lemma FromIntRoundTrip(n: int)
    requires -0x2000 <= n < 0x2000
    ensures FixedPoint.IntPart(Cfg, FixedPoint.FromBits(FromInt(n))) == n
  {
    CfgFacts();
    FromIntAgrees(n);
    FixedPoint.IntPartOfFromInt(Cfg, n);
  }

  /** FP_VAL_POS_ONE and FP_VAL_NEG_ONE: +1 and -1 shifted into place. */
  function ValPosOne(): (r: int)
    ensures r == ScaleFactor
  {
    IntRange();
    FromInt(1)
  }

  function ValNegOne(): (r: int)
    ensures r == -ScaleFactor
  {
    IntRange();
    FromInt(-1)
  }

  /** FP_VAL_ZERO, FP_VAL_HALF, FP_VAL_POS_ONE and FP_VAL_NEG_ONE are the class template's constants. */
  lemma ConstantsAgree()
    ensures ValZero == FixedPoint.Zero(Cfg).value
    ensures ValHalf == FixedPoint.Half(Cfg).value
    ensures ValPosOne() == FixedPoint.PosOne(Cfg).value
    ensures ValNegOne() == FixedPoint.NegOne(Cfg).value
  {
    CfgFacts();
    FixedPoint.ConstantValues(Cfg);
  }

  /** FP_SIGN_BIT(a): the top bit, shifted down arithmetically and masked. */
  function SignBit(a: int): (r: int)
    requires IntT.Holds(a)
    ensures r == if a < 0 then 1 else 0
  {
    var top := ShiftRight(a, NumBits - 1);
    assert top == if a < 0 then -1 else 0 by {
      if a < 0 {
        DivModUnique(a, Pow2(NumBits - 1), -1, a + Pow2(NumBits - 1));
      } else {
        DivModUnique(a, Pow2(NumBits - 1), 0, a);
      }
    }
    PowerValues();
    AndLowBits(IntT, top, 1, 1);
    And(IntT, top, 1)
  }

  /** FP_SIGN(a): +1 when the sign bit is clear, zero included, else -1. */
  function Sign(a: int): (r: int)
    requires IntT.Holds(a)
    ensures r == if a < 0 then -ScaleFactor else ScaleFactor
  {
    if SignBit(a) == ValZero then ValPosOne() else ValNegOne()
  }

  /** FP_SIGN is the class template's Sign: +1.0 or -1.0. */
  lemma SignAgrees(a: int)
    requires IntT.Holds(a)
    ensures Sign(a) == FixedPoint.Sign(Cfg, FixedPoint.FromBits(a)).value
    ensures FixedPoint.ToReal(Cfg, FixedPoint.FromBits(Sign(a))) == if a < 0 then -1.0 else 1.0
  {
    CfgFacts();
    ConstantsAgree();
    FixedPoint.ConstantMeanings(Cfg);
  }

  // ---------------------------------------------------------------------------
  // Arithmetic
  // ---------------------------------------------------------------------------

  /** fp_mul: the int64 product shifted right by 18, returned as int. */
  function Mul(a: int, b: int): (r: int)
    requires IntT.Holds(a) && IntT.Holds(b)
    ensures r == FixedPoint.Mul(Cfg, FixedPoint.FromBits(a), FixedPoint.FromBits(b)).value
    ensures r == IntT.Cast(ShiftRight(a * b, FracBits))
  {
    CfgFacts();
    IntT.Cast(ShiftRight(IntXlT.Cast(IntXlT.Cast(a) * IntXlT.Cast(b)), FracBits))
  }

  /** fp_div: a widened and shifted left by 18, divided by b in int64, returned as int. */
  function Div(a: int, b: int): (r: int)
    requires IntT.Holds(a) && IntT.Holds(b) && b != 0
    ensures r == FixedPoint.Div(Cfg, FixedPoint.FromBits(a), FixedPoint.FromBits(b)).value
    ensures r == IntT.Cast(TruncDiv(a * ScaleFactor, b))
  {
    CfgFacts();
    IntT.Cast(TruncDiv(IntXlT.Cast(IntXlT.Cast(a) * Pow2(FracBits)), IntXlT.Cast(b)))
  }

  /**
   * fp_abs: a when the sign bit is clear, else ~a + 1, the two's-complement
   * negation; the minimum negates to itself, as the class template's Abs does.
   */
  function Abs(a: int): (r: int)
    requires IntT.Holds(a)
    ensures a != IntT.Min() ==> r == AbsInt(a) && r >= 0
    ensures a == IntT.Min() ==> r == a
  {
    IntRange();
    NotPlusOne(IntT, a);
    CastOfNegation(IntT, a);
    if SignBit(a) == 0 then a else IntT.Cast(Not(IntT, a) + 1)
  }

  /** fp_abs is the class template's Abs. */
  lemma AbsAgrees(a: int)
    requires IntT.Holds(a)
    ensures Abs(a) == FixedPoint.Abs(Cfg, FixedPoint.FromBits(a)).value
  {
    CfgFacts();
  }

  /** fp_frac: the low 18 bits of fp_abs(a), the magnitude's distance below a whole. */
  function Frac(a: int): (r: int)
    requires IntT.Holds(a)
    ensures r == AbsInt(a) % ScaleFactor && 0 <= r < ScaleFactor
  {
    var m := Abs(a);
    IntRange();
    AndLowBits(IntT, m, FracBits, FracMask);
    assert m % ScaleFactor == AbsInt(a) % ScaleFactor by {
      if a == IntT.Min() {
        MultipleMod(-8192, ScaleFactor);
        MultipleMod(8192, ScaleFactor);
        assert m == -8192 * ScaleFactor && AbsInt(a) == 8192 * ScaleFactor;
      } else {
        assert m == AbsInt(a);
      }
    }
    And(IntT, m, FracMask)
  }

  /** fp_frac is the class template's FracPart. */
  lemma FracAgrees(a: int)
    requires IntT.Holds(a)
    ensures Frac(a) == FixedPoint.FracPart(Cfg, FixedPoint.FromBits(a)).value
  {
    CfgFacts();
  }

  // ---------------------------------------------------------------------------
  // Rounding to a whole number
  // ---------------------------------------------------------------------------

  /**
   * fp_floor: a when its fraction is zero; else the fraction bits cleared,
   * which rounds down, plus one for a negative a: the magnitude rounded down
   * to a whole number, that is, a rounded toward zero.
   */
  function Floor(a: int): (r: int)
    requires IntT.Holds(a)
    ensures IntT.Holds(r)
    ensures AbsInt(r) % ScaleFactor == 0
    ensures AbsInt(r) == AbsInt(a) - AbsInt(a) % ScaleFactor
    ensures AbsInt(r) <= AbsInt(a) < AbsInt(r) + ScaleFactor
    ensures r == 0 || (r < 0 <==> a < 0)
  {
    var frac, cleared, one := Frac(a), And(IntT, IntMask, a), ValPosOne();
    var r := if frac == 0 then a else if SignBit(a) == 0 then cleared else IntT.Cast(cleared + one);
    ClearFraction(a);
    TowardZeroSteps(IntT, a, ScaleFactor, frac, SignBit(a), cleared, one, r);
    r
  }

  /** a & FP_INT_MASK clears the 18 fraction bits: a rounded down to a whole number. */
  lemma ClearFraction(a: int)
    requires IntT.Holds(a)
    ensures And(IntT, IntMask, a) == a - a % ScaleFactor
  {
    MacroValues();
    CfgFacts();
    AndClearsLowBits(IntT, IntMask, a, FracBits);
  }

  /** fp_floor is the C quotient by ONE, scaled back: (a / ONE) * ONE. */
  lemma FloorIsTruncDiv(a: int)
    requires IntT.Holds(a)
    ensures Floor(a) == TruncDiv(a, ScaleFactor) * ScaleFactor
  {
    TowardZeroIsTruncDiv(a, ScaleFactor, Floor(a));
  }

  /**
   * fp_ceil: a when its fraction is zero, else fp_floor(a) + FP_SIGN(a): the
   * magnitude rounded up to a whole number. The sum overflows int for every a
   * above LargestWhole (see CeilWrapsAboveLargestWhole).
   */
  function Ceil(a: int): (r: int)
    requires IntT.Holds(a)
    ensures IntT.Holds(r)
    ensures a <= LargestWhole ==>
              && AbsInt(r) % ScaleFactor == 0
              && AbsInt(a) <= AbsInt(r) < AbsInt(a) + ScaleFactor
              && (r == 0 <==> a == 0) && (r < 0 <==> a < 0)
  {
    var frac := Frac(a);
    if frac == 0 then
        a
    else
      var v := Floor(a) + Sign(a);
      if a <= LargestWhole then
        CeilFits(a, Floor(a), Sign(a), v);
        CastOfValue(IntT, v);
        IntT.Cast(v)
      else
        IntT.Cast(v)
  }

  /**
   * Off the grid and at most LargestWhole, the magnitude rounded down (f) plus
   * the sign (s) moves one whole outward and fits int.
   */
  lemma CeilFits(a: int, f: int, s: int, v: int)
    requires IntT.Holds(a) && a <= LargestWhole && AbsInt(a) % ScaleFactor != 0
    requires AbsInt(f) % ScaleFactor == 0 && AbsInt(f) == AbsInt(a) - AbsInt(a) % ScaleFactor
    requires f == 0 || (f < 0 <==> a < 0)
    requires s == (if a < 0 then -ScaleFactor else ScaleFactor) && v == f + s
    ensures IntT.Holds(v) && AbsInt(v) % ScaleFactor == 0
    ensures AbsInt(v) == AbsInt(f) + ScaleFactor
    ensures AbsInt(a) < AbsInt(v) < AbsInt(a) + ScaleFactor
    ensures v != 0 && (v < 0 <==> a < 0)
  {
    IntRange();
    AwayFromZeroFits(IntT, a, ScaleFactor, 8191, f, s, v);
  }

  /**
   * The ceiling of a number above LargestWhole is 8192, one past the range:
   * fp_ceil's sum overflows (undefined in C) and, wrapping, gives the minimum.
   */
  lemma CeilWrapsAboveLargestWhole(a: int)
    requires IntT.Holds(a) && a > LargestWhole
    ensures Ceil(a) == IntT.Min()
    ensures FixedPoint.ToReal(Cfg, FixedPoint.FromBits(Ceil(a))) == -8192.0
  {
    var p := ScaleFactor;
    IntRange();
    DivModUnique(a, p, 8191, a - LargestWhole);
    var f := Floor(a);
    assert f == LargestWhole;
    CastUnique(IntT, f + p, IntT.Min()) by {
      CongruentByMultiple(IntT.Min(), f + p, 32, -1);
    }
    MinimumReal();
  }

  /** The minimum of int stands for -8192, the most negative number of the format. */
  lemma MinimumReal()
    ensures FixedPoint.ToReal(Cfg, FixedPoint.FromBits(IntT.Min())) == -8192.0
  {
    IntRange();
    CfgFacts();
    FixedPoint.RealMultiple(-8192, ScaleFactor);
  }

  /**
   * fp_round: fp_ceil(a) when the fraction is at least one half, else
   * fp_floor(a): the nearest whole number, halves rounded away from zero.
   */
  function Round(a: int): (r: int)
    requires IntT.Holds(a)
    ensures IntT.Holds(r)
    ensures a <= LargestWhole ==>
              && AbsInt(r) % ScaleFactor == 0
              && AbsInt(r) - ValHalf <= AbsInt(a) < AbsInt(r) + ValHalf
              && (r == 0 || (r < 0 <==> a < 0))
  {
    var frac := Frac(a);
    IntRange();
    if frac >= ValHalf then
      if a <= LargestWhole then
        var v := Floor(a) + Sign(a);
        CeilFits(a, Floor(a), Sign(a), v);
        CastOfValue(IntT, v);
        assert Ceil(a) == v;
        Ceil(a)
      else
        Ceil(a)
    else
      Floor(a)
  }
}
