/**
 * fp::Number<IntType, WideType, NumIntBits>: a binary fixed-point number held in
 * one integer `value_` of the storage type, standing for value_ / 2^f where
 * f = W - NumIntBits fractional bits follow the NumIntBits integer bits of the
 * W-bit storage. Products and scaled dividends are formed in the wider type and
 * narrowed back.
 *
 * The class template is modelled once for every instantiation: a `Config`
 * carries the template arguments, and every operation takes it.
 */
module FixedPoint {
  import opened CInt

  /** The template arguments: the storage type, the wide type, NumIntBits. */
  datatype Config = Config(storage: IntType, wide: IntType, intBits: nat)
  {
    /**
     * The concepts on the template (same signedness, a strictly larger wide
     * type, NumIntBits below the storage's value bits, a wide type of at most
     * 64 value bits), and at least one integer bit so that no shift below is by
     * the full width of its operand.
     */
    predicate Valid()
    {
      && storage.Standard() && wide.Standard()
      && storage.signed == wide.signed
      && wide.bits > storage.bits
      && intBits < storage.Digits()
      && wide.Digits() <= 64
      && intBits >= 1
    }

    /** kNumFracBits: the storage bits below the binary point. */
    function FracBits(): nat
      requires Valid()
    {
      storage.bits - intBits
    }

    /**
     * The integer bits leave room for +1: a signed storage spends one of them on
     * the sign, so it needs two.
     */
    predicate HasUnit()
    {
      intBits >= (if storage.signed then 2 else 1)
    }

    /** The integers whose scaled value fits: those of an intBits-wide integer type. */
    predicate IntFits(n: int)
      requires Valid()
    {
      IntType(storage.signed, intBits).Holds(n)
    }
  }

  /** The widths a valid configuration guarantees. */
  lemma ConfigFacts(cfg: Config)
    requires cfg.Valid()
    ensures 1 <= cfg.FracBits() <= cfg.storage.Digits()
    ensures cfg.HasUnit() ==> cfg.FracBits() < cfg.storage.Digits()
    ensures 2 * cfg.storage.bits <= cfg.wide.bits
  {
  }

  /** A fixed-point number: its raw value_, standing for value_ / 2^f. */
  datatype Number = FromBits(value: int)

  /** a is a value of the instantiation: value_ fits the storage type. */
  predicate Holds(cfg: Config, a: Number)
    requires cfg.Valid()
  {
    cfg.storage.Holds(a.value)
  }

  /** The rational number a stands for. */
  ghost function ToReal(cfg: Config, a: Number): (r: real)
    requires cfg.Valid()
    ensures r == 0.0 <==> a.value == 0
  {
    a.value as real / Pow2(cfg.FracBits()) as real
  }

  /** The distance 2^-f between neighbouring representable values. */
  ghost function Resolution(cfg: Config): real
    requires cfg.Valid()
  {
    1.0 / Pow2(cfg.FracBits()) as real
  }

  /** A value over a positive denominator d is 0, 1/2, 1 or -1 when it is 0, d/2, d or -d. */
  lemma RealFraction(v: int, d: int)
    requires d > 0
    ensures v == 0 ==> v as real / d as real == 0.0
    ensures 2 * v == d ==> v as real / d as real == 0.5
    ensures v == d ==> v as real / d as real == 1.0
    ensures v == -d ==> v as real / d as real == -1.0
  {
  }

  // ---------------------------------------------------------------------------
  // Constants and masks
  // ---------------------------------------------------------------------------

  /** kScaleFactor: 1 shifted left by f in the wide type, narrowed to the storage type. */
  function ScaleFactor(cfg: Config): (r: int)
    requires cfg.Valid()
    ensures cfg.storage.Holds(r)
    ensures cfg.HasUnit() ==> r == Pow2(cfg.FracBits())
  {
    ConfigFacts(cfg);
    PowerFits(cfg.wide, cfg.FracBits());
    CastOfValue(cfg.wide, Pow2(cfg.FracBits()));
    PowerFits(cfg.storage, cfg.FracBits());
    var r := cfg.storage.Cast(cfg.wide.Cast(Pow2(cfg.FracBits())));
    if cfg.HasUnit() then CastOfValue(cfg.storage, Pow2(cfg.FracBits())); r else r
  }

  /** IntMask(): NumIntBits ones shifted above the binary point. */
  function IntMask(cfg: Config): (r: int)
    requires cfg.Valid()
    ensures cfg.storage.Holds(r)
    ensures cfg.storage.Pattern(r) == HighMask(cfg.FracBits(), cfg.storage.bits)
  {
    var f, w := cfg.FracBits(), cfg.storage.bits;
    var x := (Pow2(cfg.intBits) - 1) * Pow2(f);
    var r := cfg.storage.Cast(x);
    HighMaskProduct(cfg.intBits, f, w);
    CongruentSymmetric(r, x, w);
    PatternUnique(cfg.storage, r, x);
    r
  }

  /** FracMask(): f ones below the binary point. */
  function FracMask(cfg: Config): (r: int)
    requires cfg.Valid()
    ensures r == Pow2(cfg.FracBits()) - 1 && cfg.storage.Holds(r)
  {
    var m := Pow2(cfg.FracBits()) - 1;
    PowerFits(cfg.storage, cfg.FracBits());
    CastOfValue(cfg.storage, m);
    cfg.storage.Cast(m)
  }

  /** The two masks split the W bits of the storage: no bit in both, every bit in one. */
  lemma MasksPartition(cfg: Config)
    requires cfg.Valid()
    ensures And(cfg.storage, IntMask(cfg), FracMask(cfg)) == 0
    ensures cfg.storage.Pattern(IntMask(cfg)) + cfg.storage.Pattern(FracMask(cfg))
         == Pow2(cfg.storage.bits) - 1
  {
    MasksDisjoint(cfg.storage, IntMask(cfg), FracMask(cfg), cfg.FracBits());
  }

  function Zero(cfg: Config): Number
  {
    FromBits(0)
  }

  /** Half(): 1 shifted to the first bit below the binary point. */
  function Half(cfg: Config): Number
    requires cfg.Valid()
  {
    FromBits(cfg.storage.Cast(Pow2(cfg.FracBits() - 1)))
  }

  function PosOne(cfg: Config): Number
    requires cfg.Valid()
  {
    FromBits(ScaleFactor(cfg))
  }

  /** NegOne(): -kScaleFactor; the template rejects it for unsigned storage. */
  function NegOne(cfg: Config): Number
    requires cfg.Valid() && cfg.storage.signed
  {
    FromBits(cfg.storage.Cast(-ScaleFactor(cfg)))
  }

  /** The raw values of the named constants: 0, 2^(f-1), 2^f and -2^f. */
  lemma ConstantValues(cfg: Config)
    requires cfg.Valid()
    ensures Zero(cfg).value == 0
    ensures Half(cfg).value == Pow2(cfg.FracBits() - 1)
    ensures cfg.HasUnit() ==> PosOne(cfg).value == Pow2(cfg.FracBits())
    ensures cfg.HasUnit() && cfg.storage.signed ==> NegOne(cfg).value == -Pow2(cfg.FracBits())
    ensures Holds(cfg, Zero(cfg)) && Holds(cfg, Half(cfg)) && Holds(cfg, PosOne(cfg))
    ensures cfg.storage.signed ==> Holds(cfg, NegOne(cfg))
  {
    HalfValue(cfg);
    if cfg.HasUnit() && cfg.storage.signed {
      NegOneValue(cfg);
    }
  }

  lemma HalfValue(cfg: Config)
    requires cfg.Valid()
    ensures Half(cfg).value == Pow2(cfg.FracBits() - 1) && Holds(cfg, Half(cfg))
  {
    var k := cfg.FracBits() - 1;
    PowerFits(cfg.storage, k);
    CastOfValue(cfg.storage, Pow2(k));
  }

  lemma NegOneValue(cfg: Config)
    requires cfg.Valid() && cfg.HasUnit() && cfg.storage.signed
    ensures NegOne(cfg).value == -Pow2(cfg.FracBits())
  {
    var f := cfg.FracBits();
    PowerFits(cfg.storage, f);
    var sf := ScaleFactor(cfg);
    assert sf == Pow2(f);
    CastOfValue(cfg.storage, -sf);
  }

  /** The named constants stand for 0, 1/2, +1 and -1. */
  lemma ConstantMeanings(cfg: Config)
    requires cfg.Valid()
    ensures ToReal(cfg, Zero(cfg)) == 0.0
    ensures ToReal(cfg, Half(cfg)) == 0.5
    ensures cfg.HasUnit() ==> ToReal(cfg, PosOne(cfg)) == 1.0
    ensures cfg.HasUnit() && cfg.storage.signed ==> ToReal(cfg, NegOne(cfg)) == -1.0
  {
    var p := Pow2(cfg.FracBits());
    HalfValue(cfg);
    assert p == 2 * Pow2(cfg.FracBits() - 1);
    RealFraction(Zero(cfg).value, p);
    RealFraction(Half(cfg).value, p);
    if cfg.HasUnit() {
      RealFraction(PosOne(cfg).value, p);
      if cfg.storage.signed {
        NegOneValue(cfg);
        RealFraction(NegOne(cfg).value, p);
      }
    }
  }

  // ---------------------------------------------------------------------------
  // Construction from an integer, integer and fractional parts
  // ---------------------------------------------------------------------------

  /**
   * The constructor Number(T i): i converted to the wide type, shifted left by f
   * there, and narrowed to the storage type. An integer that fits NumIntBits
   * bits is represented exactly; any other is reduced modulo 2^W.
   */
  function FromInt(cfg: Config, n: int): (r: Number)
    requires cfg.Valid()
    ensures Holds(cfg, r)
    ensures Congruent(r.value, n * Pow2(cfg.FracBits()), cfg.storage.bits)
    ensures cfg.IntFits(n) ==> r.value == n * Pow2(cfg.FracBits())
  {
    var f, w := cfg.FracBits(), cfg.storage.bits;
    var shifted := cfg.wide.Cast(cfg.wide.Cast(n) * Pow2(f));
    var r := FromBits(cfg.storage.Cast(shifted));
    CongruentScale(cfg.wide.Cast(n), n, cfg.wide.bits, Pow2(f));
    CongruentTransitive(shifted, cfg.wide.Cast(n) * Pow2(f), n * Pow2(f), cfg.wide.bits);
    CongruentWeaken(shifted, n * Pow2(f), cfg.wide.bits, w);
    CastCongruent(cfg.storage, shifted, n * Pow2(f));
    if cfg.IntFits(n) then
      ScaledHolds(cfg.storage, cfg.intBits, f, n);
      CastOfValue(cfg.storage, n * Pow2(f));
      r
    else
      r
  }

  /**
   * IntPart(): value_ shifted right by f, an arithmetic shift: the floor of the
   * number, which always fits NumIntBits bits.
   */
  function IntPart(cfg: Config, a: Number): (r: int)
    requires cfg.Valid() && Holds(cfg, a)
    ensures r * Pow2(cfg.FracBits()) <= a.value < r * Pow2(cfg.FracBits()) + Pow2(cfg.FracBits())
    ensures cfg.IntFits(r)
  {
    var r := ShiftRight(a.value, cfg.FracBits());
    ShiftRightHolds(cfg.storage, a.value, cfg.FracBits(), r);
    r
  }

  /** Constructing from an integer that fits and reading IntPart() gives the integer back. */
  lemma {:induction false} IntPartOfFromInt(cfg: Config, n: int)
    requires cfg.Valid() && cfg.IntFits(n)
    ensures IntPart(cfg, FromInt(cfg, n)) == n
    ensures ToReal(cfg, FromInt(cfg, n)) == n as real
  {
    ShiftRightOfMultiple(n, cfg.FracBits());
    RealMultiple(n, Pow2(cfg.FracBits()));
  }

  lemma RealMultiple(n: int, k: int)
    requires k > 0
    ensures (n * k) as real / k as real == n as real
  {
  }

  /** Every value of the storage type is a value of the wide type. */
  lemma WideHolds(cfg: Config, x: int)
    requires cfg.Valid() && cfg.storage.Holds(x)
    ensures cfg.wide.Holds(x) && cfg.wide.Cast(x) == x
  {
    ConfigFacts(cfg);
    Pow2Le(cfg.storage.bits, cfg.wide.bits - 1);
    Pow2Le(cfg.storage.bits - 1, cfg.storage.bits);
    CastOfValue(cfg.wide, x);
  }

  /**
   * SignBit(a): bit W-1 of value_, read by shifting it down and masking it with 1;
   * always false for unsigned storage.
   */
  function SignBit(cfg: Config, a: Number): (r: bool)
    requires cfg.Valid() && Holds(cfg, a)
    ensures r <==> cfg.storage.signed && a.value < 0
  {
    if cfg.storage.signed then
      var w := cfg.storage.bits;
      var top := ShiftRight(a.value, w - 1);
      assert top == if a.value < 0 then -1 else 0 by {
        if a.value < 0 {
          DivModUnique(a.value, Pow2(w - 1), -1, a.value + Pow2(w - 1));
        } else {
          DivModUnique(a.value, Pow2(w - 1), 0, a.value);
        }
      }
      AndLowBits(cfg.storage, top, 1, 1);
      And(cfg.storage, top, 1) != 0
    else
      false
  }

  /**
   * Sign(a): for signed storage NegOne() when the sign bit is set and PosOne()
   * otherwise, zero included; for unsigned storage Zero() for zero and PosOne()
   * otherwise.
   */
  function Sign(cfg: Config, a: Number): (r: Number)
    requires cfg.Valid() && Holds(cfg, a)
    ensures Holds(cfg, r)
    ensures cfg.HasUnit() ==>
              ToReal(cfg, r) == if cfg.storage.signed then (if a.value < 0 then -1.0 else 1.0)
                                else (if a.value == 0 then 0.0 else 1.0)
  {
    ConstantValues(cfg);
    ConstantMeanings(cfg);
    if cfg.storage.signed then
      if SignBit(cfg, a) then NegOne(cfg) else PosOne(cfg)
    else
      if a.value == 0 then Zero(cfg) else PosOne(cfg)
  }

  /** Sign and SignBit agree: Sign(a) is NegOne() exactly when the sign bit is set. */
  lemma SignMatchesSignBit(cfg: Config, a: Number)
    requires cfg.Valid() && cfg.HasUnit() && Holds(cfg, a)
    ensures cfg.storage.signed ==> (Sign(cfg, a) == NegOne(cfg) <==> SignBit(cfg, a))
    ensures !cfg.storage.signed ==> (Sign(cfg, a) == Zero(cfg) <==> a.value == 0)
    ensures !cfg.storage.signed ==> !SignBit(cfg, a)
  {
    ConstantValues(cfg);
  }

  /**
   * Abs(a): for signed storage, value_ widened, negated there when the sign bit
   * is set, and narrowed back; the identity for unsigned storage. The minimum
   * value has no positive counterpart in W bits and is narrowed back to itself.
   */
  function Abs(cfg: Config, a: Number): (r: Number)
    requires cfg.Valid() && Holds(cfg, a)
    ensures Holds(cfg, r)
    ensures !cfg.storage.signed ==> r == a
    ensures cfg.storage.signed && a.value != cfg.storage.Min() ==> r.value == AbsInt(a.value)
    ensures cfg.storage.signed && a.value == cfg.storage.Min() ==> r == a
  {
    if cfg.storage.signed then
      var raw := cfg.wide.Cast(a.value);
      var abs := if SignBit(cfg, a) then -raw else raw;
      WideHolds(cfg, a.value);
      CastOfMagnitude(cfg.storage, a.value, abs);
      FromBits(cfg.storage.Cast(abs))
    else
      a
  }

  /**
   * FracPart(a): the low f bits of Abs(a), the distance of a from the integer
   * next to it toward zero; a magnitude in [0, 1), never a signed residue.
   */
  function FracPart(cfg: Config, a: Number): (r: Number)
    requires cfg.Valid() && Holds(cfg, a)
    ensures Holds(cfg, r)
    ensures r.value == AbsInt(a.value) % Pow2(cfg.FracBits())
    ensures 0 <= r.value < Pow2(cfg.FracBits())
  {
    var abs := Abs(cfg, a).value;
    FracPartValue(cfg, a, abs);
    FromBits(And(cfg.storage, abs, FracMask(cfg)))
  }

  /** The low f bits of Abs(a) are the magnitude of a modulo 2^f, the minimum value included. */
  lemma FracPartValue(cfg: Config, a: Number, abs: int)
    requires cfg.Valid() && Holds(cfg, a) && abs == Abs(cfg, a).value
    ensures And(cfg.storage, abs, FracMask(cfg)) == AbsInt(a.value) % Pow2(cfg.FracBits())
    ensures cfg.storage.Holds(AbsInt(a.value) % Pow2(cfg.FracBits()))
  {
    var f := cfg.FracBits();
    ConfigFacts(cfg);
    AndLowBits(cfg.storage, abs, f, FracMask(cfg));
    assert abs == AbsInt(a.value) || (cfg.storage.signed && a.value == cfg.storage.Min() && abs == a.value);
    MagnitudeLowBits(cfg.storage, a.value, abs, f);
    PowerFits(cfg.storage, f);
  }

  /** Unary minus: -value_, for signed storage only; the minimum value wraps to itself. */
  function Neg(cfg: Config, a: Number): (r: Number)
    requires cfg.Valid() && cfg.storage.signed && Holds(cfg, a)
    ensures Holds(cfg, r)
    ensures a.value != cfg.storage.Min() ==> r.value == -a.value
    ensures a.value == cfg.storage.Min() ==> r == a
  {
    CastOfNegation(cfg.storage, a.value);
    FromBits(cfg.storage.Cast(-a.value))
  }

  // ---------------------------------------------------------------------------
  // Arithmetic
  // ---------------------------------------------------------------------------

  /**
   * A storage value times a factor no larger in magnitude than the storage's
   * range fits the wide type: the reason the wide type is there.
   */
  lemma ProductFits(cfg: Config, x: int, y: int)
    requires cfg.Valid() && cfg.storage.Holds(x)
    requires if cfg.storage.signed then AbsInt(y) <= Pow2(cfg.storage.bits - 1)
             else 0 <= y < Pow2(cfg.storage.bits)
    ensures cfg.wide.Holds(x * y)
  {
    FactorsFit(cfg, x);
    ConfigFacts(cfg);
    if cfg.storage.signed {
      SignedProductBound(x, y, cfg.storage.bits, cfg.wide.bits);
    } else {
      UnsignedProductBound(x, y, cfg.storage.bits, cfg.wide.bits);
    }
  }

  /** Two factors of magnitude at most 2^(w-1) have a product inside a signed wb-bit range. */
  lemma SignedProductBound(x: int, y: int, w: nat, wb: nat)
    requires 1 <= w && 2 * w <= wb
    requires AbsInt(x) <= Pow2(w - 1) && AbsInt(y) <= Pow2(w - 1)
    ensures -Pow2(wb - 1) <= x * y <= Pow2(wb - 1) - 1
  {
    ProductMagnitude(x, y, Pow2(w - 1));
    Pow2Add(w - 1, w - 1);
    Pow2Le(2 * w - 2, wb - 2);
    assert Pow2(wb - 1) == 2 * Pow2(wb - 2);
  }

  /** Two factors below 2^w have a product inside an unsigned wb-bit range. */
  lemma UnsignedProductBound(x: int, y: int, w: nat, wb: nat)
    requires 2 * w <= wb
    requires 0 <= x < Pow2(w) && 0 <= y < Pow2(w)
    ensures 0 <= x * y <= Pow2(wb) - 1
  {
    ProductBelow(x, y, Pow2(w));
    Pow2Add(w, w);
    Pow2Le(2 * w, wb);
  }

  /** Storage values and 2^f are factors that fit: see ProductFits. */
  lemma FactorsFit(cfg: Config, x: int)
    requires cfg.Valid() && cfg.storage.Holds(x)
    ensures if cfg.storage.signed then AbsInt(x) <= Pow2(cfg.storage.bits - 1)
            else 0 <= x < Pow2(cfg.storage.bits)
    ensures if cfg.storage.signed then AbsInt(Pow2(cfg.FracBits())) <= Pow2(cfg.storage.bits - 1)
            else 0 <= Pow2(cfg.FracBits()) < Pow2(cfg.storage.bits)
  {
    ConfigFacts(cfg);
    Pow2Le(cfg.FracBits(), cfg.storage.bits - 1);
    assert Pow2(cfg.storage.bits) == 2 * Pow2(cfg.storage.bits - 1);
  }

  /** operator+: raw addition, wrapping modulo 2^W. */
  function Add(cfg: Config, a: Number, b: Number): (r: Number)
    requires cfg.Valid() && Holds(cfg, a) && Holds(cfg, b)
    ensures Holds(cfg, r)
    ensures Congruent(r.value, a.value + b.value, cfg.storage.bits)
    ensures cfg.storage.Holds(a.value + b.value) ==> r.value == a.value + b.value
  {
    CastOfFitting(cfg.storage, a.value + b.value);
    FromBits(cfg.storage.Cast(a.value + b.value))
  }

  /** operator-: raw subtraction, wrapping modulo 2^W. */
  function Sub(cfg: Config, a: Number, b: Number): (r: Number)
    requires cfg.Valid() && Holds(cfg, a) && Holds(cfg, b)
    ensures Holds(cfg, r)
    ensures Congruent(r.value, a.value - b.value, cfg.storage.bits)
    ensures cfg.storage.Holds(a.value - b.value) ==> r.value == a.value - b.value
  {
    CastOfFitting(cfg.storage, a.value - b.value);
    FromBits(cfg.storage.Cast(a.value - b.value))
  }

  /**
   * operator*: both raw values widened, multiplied in the wide type, shifted
   * right by f there and narrowed. The wide product never overflows, so the
   * result is the floor of a * b / 2^f reduced modulo 2^W.
   */
  function Mul(cfg: Config, a: Number, b: Number): (r: Number)
    requires cfg.Valid() && Holds(cfg, a) && Holds(cfg, b)
    ensures Holds(cfg, r)
    ensures r.value == cfg.storage.Cast(ShiftRight(a.value * b.value, cfg.FracBits()))
  {
    var x, y := cfg.wide.Cast(a.value), cfg.wide.Cast(b.value);
    var product := cfg.wide.Cast(x * y);
    WideHolds(cfg, a.value);
    WideHolds(cfg, b.value);
    FactorsFit(cfg, b.value);
    ProductFits(cfg, a.value, b.value);
    CastOfValue(cfg.wide, a.value * b.value);
    FromBits(cfg.storage.Cast(ShiftRight(product, cfg.FracBits())))
  }

  /**
   * operator/: the dividend widened and shifted left by f in the wide type, then
   * divided, truncating toward zero, by the widened divisor, and narrowed. A zero
   * divisor is undefined behaviour in the source and excluded here.
   */
  function Div(cfg: Config, a: Number, b: Number): (r: Number)
    requires cfg.Valid() && Holds(cfg, a) && Holds(cfg, b) && b.value != 0
    ensures Holds(cfg, r)
    ensures r.value == cfg.storage.Cast(TruncDiv(a.value * Pow2(cfg.FracBits()), b.value))
  {
    var dividend := cfg.wide.Cast(cfg.wide.Cast(a.value) * Pow2(cfg.FracBits()));
    var divisor := cfg.wide.Cast(b.value);
    WideHolds(cfg, a.value);
    WideHolds(cfg, b.value);
    FactorsFit(cfg, a.value);
    ProductFits(cfg, a.value, Pow2(cfg.FracBits()));
    CastOfValue(cfg.wide, a.value * Pow2(cfg.FracBits()));
    FromBits(cfg.storage.Cast(TruncDiv(dividend, divisor)))
  }

  // ---------------------------------------------------------------------------
  // What the arithmetic means
  // ---------------------------------------------------------------------------

  lemma RealSum(x: int, y: int, k: int)
    requires k > 0
    ensures (x + y) as real / k as real == x as real / k as real + y as real / k as real
    ensures (x - y) as real / k as real == x as real / k as real - y as real / k as real
  {
  }

  /** Dividing by a positive integer keeps the order of two integers. */
  lemma RealOrder(x: int, y: int, k: int)
    requires k > 0
    ensures x < y <==> x as real / k as real < y as real / k as real
    ensures x == y <==> x as real / k as real == y as real / k as real
  {
  }

  /** Without overflow, addition is exact on the represented reals. */
  lemma AddIsExact(cfg: Config, a: Number, b: Number)
    requires cfg.Valid() && Holds(cfg, a) && Holds(cfg, b)
    requires cfg.storage.Holds(a.value + b.value)
    ensures ToReal(cfg, Add(cfg, a, b)) == ToReal(cfg, a) + ToReal(cfg, b)
  {
    RealSum(a.value, b.value, Pow2(cfg.FracBits()));
  }

  /** Without overflow, subtraction is exact on the represented reals. */
  lemma SubIsExact(cfg: Config, a: Number, b: Number)
    requires cfg.Valid() && Holds(cfg, a) && Holds(cfg, b)
    requires cfg.storage.Holds(a.value - b.value)
    ensures ToReal(cfg, Sub(cfg, a, b)) == ToReal(cfg, a) - ToReal(cfg, b)
  {
    RealSum(a.value, b.value, Pow2(cfg.FracBits()));
  }

  /** Subtraction undoes addition, overflow or not: both wrap modulo 2^W. */
  lemma AddSubInverse(cfg: Config, a: Number, b: Number)
    requires cfg.Valid() && Holds(cfg, a) && Holds(cfg, b)
    ensures Sub(cfg, Add(cfg, a, b), b) == a
  {
    CastUndoesAdd(cfg.storage, a.value, b.value, Add(cfg, a, b).value);
  }

  /** Addition undoes subtraction, overflow or not. */
  lemma SubAddInverse(cfg: Config, a: Number, b: Number)
    requires cfg.Valid() && Holds(cfg, a) && Holds(cfg, b)
    ensures Add(cfg, Sub(cfg, a, b), b) == a
  {
    CastUndoesSub(cfg.storage, a.value, b.value, Sub(cfg, a, b).value);
  }

  /** Subtracting is adding the negation, overflow or not. */
  lemma SubIsAddNeg(cfg: Config, a: Number, b: Number)
    requires cfg.Valid() && cfg.storage.signed && Holds(cfg, a) && Holds(cfg, b)
    ensures Sub(cfg, a, b) == Add(cfg, a, Neg(cfg, b))
  {
    var n := Neg(cfg, b);
    CastSubIsAddNeg(cfg.storage, a.value, b.value, n.value);
    assert Add(cfg, a, n) == FromBits(cfg.storage.Cast(a.value + n.value));
  }

  /** operator- on a number: negating twice gives the number back. */
  lemma NegInvolutive(cfg: Config, a: Number)
    requires cfg.Valid() && cfg.storage.signed && Holds(cfg, a)
    ensures Neg(cfg, Neg(cfg, a)) == a
  {
  }

  /** Negating a whole number gives the negated whole number when both fit. */
  lemma NegOfFromInt(cfg: Config, n: int)
    requires cfg.Valid() && cfg.storage.signed && cfg.IntFits(n) && cfg.IntFits(-n)
    ensures Neg(cfg, FromInt(cfg, n)) == FromInt(cfg, -n)
  {
    ScaledAboveMin(cfg.storage, cfg.intBits, cfg.FracBits(), n);
  }

  /** The integer part of a negated whole number is the negated integer. */
  lemma IntPartOfNegated(cfg: Config, n: int)
    requires cfg.Valid() && cfg.storage.signed && cfg.IntFits(n) && cfg.IntFits(-n)
    ensures IntPart(cfg, Neg(cfg, FromInt(cfg, n))) == -n
  {
    NegOfFromInt(cfg, n);
    ShiftRightOfMultiple(-n, cfg.FracBits());
  }

  /** A positive real has a positive square. */
  lemma RealSquarePositive(k: real)
    requires k > 0.0
    ensures k * k > 0.0
  {
  }

  /** Dividing a product by one of its factors gives the other factor. */
  lemma RealDivOfProduct(c: real, d: real)
    requires d != 0.0
    ensures (c * d) / d == c
  {
  }

  /** Scaling both factors by k scales their product by d == k * k. */
  lemma RealProductScale(a: real, b: real, k: real, x: real, y: real, d: real)
    requires x == a * k && y == b * k && d == k * k
    ensures x * y == (a * b) * d
  {
  }

  /** Two quotients by k multiply to a quotient by d == k * k. */
  lemma RealProductOver(x: real, y: real, k: real, d: real)
    requires k > 0.0 && d == k * k && d > 0.0
    ensures (x / k) * (y / k) == (x * y) / d
  {
    var a, b := x / k, y / k;
    assert x == a * k && y == b * k;
    RealProductScale(a, b, k, x, y, d);
    RealDivOfProduct(a * b, d);
  }

  /** (q * k) / d == q / k and (q * k + k) / d == q / k + 1 / k, for d == k * k. */
  lemma RealCancel(q: real, k: real, d: real)
    requires k > 0.0 && d == k * k && d > 0.0
    ensures (q * k) / d == q / k
    ensures (q * k + k) / d == q / k + 1.0 / k
  {
    var c := q / k;
    assert q == c * k;
    assert q * k == c * d;
    RealDivOfProduct(c, d);
    var e := 1.0 / k;
    assert 1.0 == e * k;
    assert k == e * d;
    RealDivOfProduct(e, d);
  }

  /** Dividing by a positive real keeps the order. */
  lemma RealDivMono(x: real, y: real, d: real)
    requires d > 0.0
    ensures x <= y ==> x / d <= y / d
    ensures x < y ==> x / d < y / d
  {
  }

  /** q * k <= x * y < q * k + k, divided through by k * k. */
  lemma RealQuotientBounds(x: real, y: real, q: real, k: real, d: real, p: real)
    requires k > 0.0 && d == k * k && d > 0.0 && p == x * y
    requires q * k <= p < q * k + k
    ensures q / k <= (x / k) * (y / k) < q / k + 1.0 / k
  {
    RealProductOver(x, y, k, d);
    RealCancel(q, k, d);
    RealDivMono(q * k, p, d);
    RealDivMono(p, q * k + k, d);
  }

  /** The integer bounds q * k <= x * y < q * k + k carry over to the reals. */
  lemma RealProductBounds(x: int, y: int, q: int, k: int)
    requires q * k <= x * y < q * k + k
    ensures (q as real) * (k as real) <= (x as real) * (y as real) < (q as real) * (k as real) + k as real
  {
    assert ((x * y) as real) == (x as real) * (y as real);
    assert ((q * k) as real) == (q as real) * (k as real);
  }

  /** q * k <= x * y < q * k + k, read on the reals x / k, y / k and q / k. */
  lemma RealFloorProduct(x: int, y: int, q: int, k: int, rx: real, ry: real, rq: real, eps: real)
    requires k > 0 && q * k <= x * y < q * k + k
    requires rx == x as real / k as real && ry == y as real / k as real && rq == q as real / k as real
    requires eps == 1.0 / k as real
    ensures rq <= rx * ry
    ensures rx * ry < rq + eps
  {
    var X, Y, Q, K := x as real, y as real, q as real, k as real;
    RealProductBounds(x, y, q, k);
    RealSquarePositive(K);
    RealQuotientBounds(X, Y, Q, K, K * K, X * Y);
  }

  /**
   * Without overflow, the product rounds the exact product of the represented
   * reals down to the next multiple of 2^-f.
   */
  lemma MulRoundsDown(cfg: Config, a: Number, b: Number)
    requires cfg.Valid() && Holds(cfg, a) && Holds(cfg, b)
    requires cfg.storage.Holds(ShiftRight(a.value * b.value, cfg.FracBits()))
    ensures ToReal(cfg, Mul(cfg, a, b)) <= ToReal(cfg, a) * ToReal(cfg, b)
    ensures ToReal(cfg, a) * ToReal(cfg, b) < ToReal(cfg, Mul(cfg, a, b)) + Resolution(cfg)
  {
    CastOfValue(cfg.storage, ShiftRight(a.value * b.value, cfg.FracBits()));
    RoundedDown(cfg, a, b, Mul(cfg, a, b));
  }

  lemma RoundedDown(cfg: Config, a: Number, b: Number, m: Number)
    requires cfg.Valid()
    requires m.value * Pow2(cfg.FracBits()) <= a.value * b.value < m.value * Pow2(cfg.FracBits()) + Pow2(cfg.FracBits())
    ensures ToReal(cfg, m) <= ToReal(cfg, a) * ToReal(cfg, b) < ToReal(cfg, m) + Resolution(cfg)
  {
    RealFloorProduct(a.value, b.value, m.value, Pow2(cfg.FracBits()),
                     ToReal(cfg, a), ToReal(cfg, b), ToReal(cfg, m), Resolution(cfg));
  }

  /** PosOne is a two-sided identity of the product. */
  lemma MulByOne(cfg: Config, a: Number)
    requires cfg.Valid() && cfg.HasUnit() && Holds(cfg, a)
    ensures Mul(cfg, a, PosOne(cfg)) == a
    ensures Mul(cfg, PosOne(cfg), a) == a
  {
    ConstantValues(cfg);
    ShiftRightOfMultiple(a.value, cfg.FracBits());
    CastOfValue(cfg.storage, a.value);
  }

  /** PosOne is a right identity of the quotient. */
  lemma DivByOne(cfg: Config, a: Number)
    requires cfg.Valid() && cfg.HasUnit() && Holds(cfg, a)
    ensures Div(cfg, a, PosOne(cfg)) == a
  {
    ConstantValues(cfg);
    TruncDivExact(a.value, Pow2(cfg.FracBits()));
    CastOfValue(cfg.storage, a.value);
  }

  /** A nonzero number divided by itself is PosOne, whatever PosOne wraps to. */
  lemma DivBySelf(cfg: Config, a: Number)
    requires cfg.Valid() && Holds(cfg, a) && a.value != 0
    ensures Div(cfg, a, a) == PosOne(cfg)
  {
    var p := Pow2(cfg.FracBits());
    TruncDivExact(p, a.value);
    assert a.value * p == p * a.value;
    ConfigFacts(cfg);
    PowerFits(cfg.wide, cfg.FracBits());
    CastOfValue(cfg.wide, p);
  }

  ghost function RealAbs(x: real): real
  {
    if x < 0.0 then -x else x
  }

  lemma RealRatio(q: int, a: int, d: int, k: int)
    requires k > 0 && d > 0 && q >= 0 && a >= 0
    requires q * d <= a * k < q * d + d
    ensures q as real / k as real <= a as real / d as real < (q + 1) as real / k as real
  {
    var Q, A, D, K := q as real, a as real, d as real, k as real;
    assert Q / K == (Q * D) / (K * D);
    assert A / D == (A * K) / (K * D);
    assert (Q + 1.0) / K == ((Q + 1.0) * D) / (K * D);
  }

  lemma RealQuotient(a: int, b: int, k: int)
    requires k > 0 && b != 0
    ensures (a as real / k as real) / (b as real / k as real) == a as real / b as real
    ensures RealAbs(a as real / b as real) == AbsInt(a) as real / AbsInt(b) as real
    ensures a as real / b as real < 0.0 <==> (a < 0) != (b < 0) && a != 0
  {
    var A, B, K := a as real, b as real, k as real;
    assert (A / K) / (B / K) == A / B;
    if b < 0 {
      assert A / B == (-A) / (-B);
    }
  }

  /**
   * Without overflow, the quotient truncates the exact quotient of the
   * represented reals toward zero, to a multiple of 2^-f.
   */
  lemma DivTruncates(cfg: Config, a: Number, b: Number)
    requires cfg.Valid() && Holds(cfg, a) && Holds(cfg, b) && b.value != 0
    requires cfg.storage.Holds(TruncDiv(a.value * Pow2(cfg.FracBits()), b.value))
    ensures var r, exact := ToReal(cfg, Div(cfg, a, b)), ToReal(cfg, a) / ToReal(cfg, b);
            RealAbs(r) <= RealAbs(exact) < RealAbs(r) + Resolution(cfg) &&
            (r == 0.0 || (r < 0.0 <==> exact < 0.0))
  {
    var k := Pow2(cfg.FracBits());
    CastOfValue(cfg.storage, TruncDiv(a.value * k, b.value));
    AbsOfScaled(a.value, k);
    TruncatedOnReals(cfg, a, b, Div(cfg, a, b));
  }

  lemma TruncatedOnReals(cfg: Config, a: Number, b: Number, m: Number)
    requires cfg.Valid() && b.value != 0
    requires var k := Pow2(cfg.FracBits());
             AbsInt(m.value) * AbsInt(b.value) <= AbsInt(a.value) * k < AbsInt(m.value) * AbsInt(b.value) + AbsInt(b.value)
    requires m.value == 0 || (m.value < 0 <==> (a.value < 0) != (b.value < 0))
    ensures var r, exact := ToReal(cfg, m), ToReal(cfg, a) / ToReal(cfg, b);
            RealAbs(r) <= RealAbs(exact) < RealAbs(r) + Resolution(cfg) &&
            (r == 0.0 || (r < 0.0 <==> exact < 0.0))
  {
    var k := Pow2(cfg.FracBits());
    var q := m.value;
    RealRatio(AbsInt(q), AbsInt(a.value), AbsInt(b.value), k);
    RealQuotient(a.value, b.value, k);
    RealSum(AbsInt(q), 1, k);
    assert RealAbs(q as real / k as real) == AbsInt(q) as real / k as real;
    RealOrder(q, 0, k);
    RealOrder(0, q, k);
  }

  // ---------------------------------------------------------------------------
  // Magnitude and fractional part, on the reals
  // ---------------------------------------------------------------------------

  /** Abs is the magnitude of every number but the storage minimum. */
  lemma AbsIsMagnitude(cfg: Config, a: Number)
    requires cfg.Valid() && Holds(cfg, a)
    requires !cfg.storage.signed || a.value != cfg.storage.Min()
    ensures ToReal(cfg, Abs(cfg, a)) == RealAbs(ToReal(cfg, a))
  {
    RealOrder(a.value, 0, Pow2(cfg.FracBits()));
    RealSum(0, a.value, Pow2(cfg.FracBits()));
  }

  /** For signed storage, Abs of a negative number is its negation narrowed to the storage type. */
  lemma AbsIsNarrowNegation(cfg: Config, a: Number)
    requires cfg.Valid() && Holds(cfg, a) && cfg.storage.signed && a.value < 0
    ensures Abs(cfg, a) == FromBits(cfg.storage.Cast(-a.value))
  {
    CastOfNegation(cfg.storage, a.value);
  }

  /** The storage minimum has no positive counterpart: Abs leaves it negative. */
  lemma AbsOfMinimum(cfg: Config)
    requires cfg.Valid() && cfg.storage.signed
    ensures Abs(cfg, FromBits(cfg.storage.Min())) == FromBits(cfg.storage.Min())
    ensures ToReal(cfg, Abs(cfg, FromBits(cfg.storage.Min()))) < 0.0
  {
    var m := FromBits(cfg.storage.Min());
    assert Holds(cfg, m);
    assert Abs(cfg, m) == m;
    assert m.value < 0;
    RealOrder(m.value, 0, Pow2(cfg.FracBits()));
    RealFraction(0, Pow2(cfg.FracBits()));
  }

  /** A nonnegative number is its integer part plus its fractional part. */
  lemma IntPartPlusFracPart(cfg: Config, a: Number)
    requires cfg.Valid() && Holds(cfg, a) && a.value >= 0
    ensures a.value == IntPart(cfg, a) * Pow2(cfg.FracBits()) + FracPart(cfg, a).value
    ensures ToReal(cfg, a) == IntPart(cfg, a) as real + ToReal(cfg, FracPart(cfg, a))
  {
    var k, i, r := Pow2(cfg.FracBits()), IntPart(cfg, a), FracPart(cfg, a).value;
    DivModUnique(a.value, k, i, a.value - i * k);
    RealSplit(a.value, i, r, k);
  }

  /** v == i * k + r over a positive k is the integer i plus the fraction r / k. */
  lemma RealSplit(v: int, i: int, r: int, k: int)
    requires k > 0 && v == i * k + r
    ensures v as real / k as real == i as real + r as real / k as real
  {
    RealSum(i * k, r, k);
    RealMultiple(i, k);
  }

  // ---------------------------------------------------------------------------
  // Comparison
  // ---------------------------------------------------------------------------

  /** The three results of operator<=> on numbers (std::strong_ordering). */
  datatype Ordering = Less | Equal | Greater

  /** operator<=>, defaulted: compares the raw values. */
  function Compare(cfg: Config, a: Number, b: Number): (r: Ordering)
    requires cfg.Valid()
    ensures r == Less <==> ToReal(cfg, a) < ToReal(cfg, b)
    ensures r == Equal <==> ToReal(cfg, a) == ToReal(cfg, b)
    ensures r == Greater <==> ToReal(cfg, b) < ToReal(cfg, a)
  {
    RealOrder(a.value, b.value, Pow2(cfg.FracBits()));
    RealOrder(b.value, a.value, Pow2(cfg.FracBits()));
    if a.value < b.value then Less else if a.value == b.value then Equal else Greater
  }

  /** operator==, defaulted: equal raw values, so equal represented reals. */
  function Equals(cfg: Config, a: Number, b: Number): (r: bool)
    requires cfg.Valid()
    ensures r <==> a == b
    ensures r <==> ToReal(cfg, a) == ToReal(cfg, b)
  {
    RealOrder(a.value, b.value, Pow2(cfg.FracBits()));
    a.value == b.value
  }

  /** The ordering is the one of the reals, so it agrees with Equals. */
  lemma CompareAgreesWithEquals(cfg: Config, a: Number, b: Number)
    requires cfg.Valid()
    ensures Compare(cfg, a, b) == Equal <==> Equals(cfg, a, b)
    ensures Compare(cfg, a, b) == Less <==> Compare(cfg, b, a) == Greater
  {
  }

  // ---------------------------------------------------------------------------
  // The signed instantiation with a single integer bit
  // ---------------------------------------------------------------------------

  /**
   * A signed storage with NumIntBits == 1 satisfies the template's concepts, but
   * its one integer bit is the sign bit: 2^f is one more than the storage
   * maximum, so kScaleFactor wraps to the minimum and PosOne() stands for -1,
   * the same number as NegOne().
   */
  lemma OneIntBitPosOneWraps(cfg: Config)
    requires cfg.Valid() && cfg.storage.signed && cfg.intBits == 1
    ensures PosOne(cfg).value == cfg.storage.Min()
    ensures PosOne(cfg) == NegOne(cfg)
    ensures ToReal(cfg, PosOne(cfg)) == -1.0
  {
    var p := Pow2(cfg.FracBits());
    ScaleFactorWraps(cfg);
    NegOneOfMinimum(cfg);
    assert cfg.storage.Min() == -p;
    RealFraction(PosOne(cfg).value, p);
  }

  /** NegOne() negates kScaleFactor, and a kScaleFactor at the minimum negates to itself. */
  lemma NegOneOfMinimum(cfg: Config)
    requires cfg.Valid() && cfg.storage.signed && ScaleFactor(cfg) == cfg.storage.Min()
    ensures NegOne(cfg).value == cfg.storage.Min()
  {
    CastOfNegation(cfg.storage, cfg.storage.Min());
  }

  /** With one signed integer bit, 2^f is 2^(W-1) and narrows to the storage minimum. */
  lemma ScaleFactorWraps(cfg: Config)
    requires cfg.Valid() && cfg.storage.signed && cfg.intBits == 1
    ensures ScaleFactor(cfg) == cfg.storage.Min()
  {
    var f := cfg.FracBits();
    ConfigFacts(cfg);
    PowerFits(cfg.wide, f);
    CastOfValue(cfg.wide, Pow2(f));
    CastOfMinMagnitude(cfg.storage, Pow2(f));
  }

  /**
   * The concepts alone also admit NumIntBits == 0, outside `Config.Valid`.
   * Then f = W: kScaleFactor, the wide 2^W narrowed to the storage, is 0, so
   * PosOne() is Zero(); and for signed storage Half()'s 2^(W-1) narrows to the
   * minimum, which stands for -1/2.
   */
  lemma NoIntBitsScaleFactorVanishes(cfg: Config)
    requires cfg.storage.Standard() && cfg.wide.Standard()
    requires cfg.storage.signed == cfg.wide.signed && cfg.wide.bits > cfg.storage.bits
    requires cfg.intBits == 0
    ensures cfg.wide.Holds(Pow2(cfg.storage.bits))
    ensures cfg.storage.Cast(cfg.wide.Cast(Pow2(cfg.storage.bits))) == 0
    ensures cfg.storage.signed ==> cfg.storage.Cast(Pow2(cfg.storage.bits - 1)) == cfg.storage.Min()
  {
    var t := cfg.storage;
    FullPowerFitsWider(t, cfg.wide);
    FullPowerNarrowsToZero(t, cfg.wide);
    if t.signed {
      CastOfMinMagnitude(t, Pow2(t.bits - 1));
    }
  }

  /** 2^W, formed in a type where it fits, narrows to 0 in W bits. */
  lemma FullPowerNarrowsToZero(t: IntType, u: IntType)
    requires t.bits > 0 && u.bits > 0 && u.Holds(Pow2(t.bits))
    ensures t.Cast(u.Cast(Pow2(t.bits))) == 0
  {
    var w := t.bits;
    CastOfValue(u, Pow2(w));
    CongruentByMultiple(Pow2(w), 0, w, 1);
    CastCongruent(t, Pow2(w), 0);
    CastOfValue(t, 0);
  }

  /** 2^W, one past every storage pattern, still fits a standard type that is wider. */
  lemma FullPowerFitsWider(t: IntType, u: IntType)
    requires t.Standard() && u.Standard() && u.bits > t.bits
    ensures u.Holds(Pow2(t.bits))
  {
    assert t.bits < u.Digits();
    PowerFits(u, t.bits);
  }

  // ---------------------------------------------------------------------------
  // Compound assignment
  // ---------------------------------------------------------------------------

  /**
   * A Number object seen as a variable: the compound assignment operators
   * overwrite its value_ in place and hand back the object itself.
   */
  class NumberVar {
    const cfg: Config
    var value: int

    ghost predicate Valid()
      reads this
    {
      cfg.Valid() && cfg.storage.Holds(value)
    }

    /** The number the object holds now. */
    function Get(): Number
      reads this
    {
      FromBits(value)
    }

    /** Number(): value_ starts at zero. */
    constructor (cfg: Config)
      requires cfg.Valid()
      ensures Valid() && this.cfg == cfg && Get() == Zero(cfg)
    {
      this.cfg := cfg;
      value := 0;
    }

    /** operator+=: the object becomes old value + other, as operator+ gives it. */
    method AddAssign(other: Number) returns (self: NumberVar)
      requires Valid() && Holds(cfg, other)
      modifies this
      ensures Valid() && self == this
      ensures Get() == Add(cfg, old(Get()), other)
    {
      value := cfg.storage.Cast(value + other.value);
      self := this;
    }

    /** operator-=: the object becomes old value - other, as operator- gives it. */
    method SubAssign(other: Number) returns (self: NumberVar)
      requires Valid() && Holds(cfg, other)
      modifies this
      ensures Valid() && self == this
      ensures Get() == Sub(cfg, old(Get()), other)
    {
      value := cfg.storage.Cast(value - other.value);
      self := this;
    }

    /** operator*=: the product formed in the wide type, as operator* forms it. */
    method MulAssign(other: Number) returns (self: NumberVar)
      requires Valid() && Holds(cfg, other)
      modifies this
      ensures Valid() && self == this
      ensures Get() == Mul(cfg, old(Get()), other)
    {
      var thisWide := cfg.wide.Cast(value);
      var otherWide := cfg.wide.Cast(other.value);
      WideHolds(cfg, value);
      WideHolds(cfg, other.value);
      FactorsFit(cfg, other.value);
      ProductFits(cfg, value, other.value);
      CastOfValue(cfg.wide, value * other.value);
      value := cfg.storage.Cast(ShiftRight(cfg.wide.Cast(thisWide * otherWide), cfg.FracBits()));
      self := this;
    }

    /** operator/=: the scaled dividend formed in the wide type, as operator/ forms it. */
    method DivAssign(other: Number) returns (self: NumberVar)
      requires Valid() && Holds(cfg, other) && other.value != 0
      modifies this
      ensures Valid() && self == this
      ensures Get() == Div(cfg, old(Get()), other)
    {
      var thisWide := cfg.wide.Cast(cfg.wide.Cast(value) * Pow2(cfg.FracBits()));
      var otherWide := cfg.wide.Cast(other.value);
      WideHolds(cfg, value);
      WideHolds(cfg, other.value);
      FactorsFit(cfg, value);
      ProductFits(cfg, value, Pow2(cfg.FracBits()));
      CastOfValue(cfg.wide, value * Pow2(cfg.FracBits()));
      value := cfg.storage.Cast(TruncDiv(thisWide, otherWide));
      self := this;
    }
  }
}
