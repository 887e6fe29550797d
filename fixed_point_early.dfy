/**
 * The earlier fp::Number<IntType, IntBits>: the same representation, with the
 * wide type fixed to XLType (int64 or uint64 by signedness) and no concepts on
 * the template. Two operations are written differently from the later class:
 * the integer constructor shifts in the narrow type, and Abs negates without
 * widening. Every operation is proved to agree with the later class
 * instantiated with XLType as its wide type, so what is proved there holds here.
 */
module FixedPointEarly {
  import opened CInt
  import FixedPoint

  type Number = FixedPoint.Number

  /** The template arguments IntType and IntBits. */
  datatype Config = Config(storage: IntType, intBits: nat)
  {
    /**
     * A standard integer type of at most 32 bits (the class assumes int32 or
     * uint32 is the widest), and at least one and fewer than its value bits as
     * integer bits, as in the later class.
     */
    predicate Valid()
    {
      storage.Standard() && storage.bits <= 32 && 1 <= intBits < storage.Digits()
    }

    /** XLType: int64 for a signed IntType, uint64 for an unsigned one. */
    function XLType(): IntType
    {
      IntType(storage.signed, 64)
    }

    /** kFracBits. */
    function FracBits(): nat
      requires Valid()
    {
      storage.bits - intBits
    }
  }

  /** The later class template instantiated with XLType as WideType. */
  function Header(cfg: Config): (h: FixedPoint.Config)
    requires cfg.Valid()
    ensures h.Valid()
    ensures h.storage == cfg.storage && h.wide == cfg.XLType() && h.intBits == cfg.intBits
    ensures h.FracBits() == cfg.FracBits()
  {
    FixedPoint.Config(cfg.storage, cfg.XLType(), cfg.intBits)
  }

  predicate Holds(cfg: Config, a: Number)
    requires cfg.Valid()
  {
    cfg.storage.Holds(a.value)
  }

  // ---------------------------------------------------------------------------
  // Constants
  // ---------------------------------------------------------------------------

  /** kScaleFactor: 1 shifted left by kFracBits in XLType, narrowed. */
  function ScaleFactor(cfg: Config): (r: int)
    requires cfg.Valid()
    ensures r == FixedPoint.ScaleFactor(Header(cfg))
  {
    cfg.storage.Cast(cfg.XLType().Cast(Pow2(cfg.FracBits())))
  }

  /** kIntMask: IntBits ones shifted above the binary point. */
  function IntMask(cfg: Config): (r: int)
    requires cfg.Valid()
    ensures r == FixedPoint.IntMask(Header(cfg))
  {
    cfg.storage.Cast((Pow2(cfg.intBits) - 1) * Pow2(cfg.FracBits()))
  }

  /** kFracMask: kFracBits ones below the binary point. */
  function FracMask(cfg: Config): (r: int)
    requires cfg.Valid()
    ensures r == FixedPoint.FracMask(Header(cfg))
  {
    cfg.storage.Cast(Pow2(cfg.FracBits()) - 1)
  }

  function Zero(cfg: Config): (r: Number)
    requires cfg.Valid()
    ensures r == FixedPoint.Zero(Header(cfg))
  {
    FixedPoint.FromBits(0)
  }

  function Half(cfg: Config): (r: Number)
    requires cfg.Valid()
    ensures r == FixedPoint.Half(Header(cfg))
  {
    FixedPoint.FromBits(cfg.storage.Cast(Pow2(cfg.FracBits() - 1)))
  }

  function PosOne(cfg: Config): (r: Number)
    requires cfg.Valid()
    ensures r == FixedPoint.PosOne(Header(cfg))
  {
    FixedPoint.FromBits(ScaleFactor(cfg))
  }

  function NegOne(cfg: Config): (r: Number)
    requires cfg.Valid() && cfg.storage.signed
    ensures r == FixedPoint.NegOne(Header(cfg))
  {
    FixedPoint.FromBits(cfg.storage.Cast(-ScaleFactor(cfg)))
  }

  /**
   * The raw values 0, 2^(f-1), 2^f and -2^f of the constants, for every
   * configuration with room for +1 (see FixedPoint.OneIntBitPosOneWraps).
   */
  lemma ConstantValues(cfg: Config)
    requires cfg.Valid()
    ensures Zero(cfg).value == 0
    ensures Half(cfg).value == Pow2(cfg.FracBits() - 1)
    ensures Header(cfg).HasUnit() ==> PosOne(cfg).value == Pow2(cfg.FracBits())
    ensures Header(cfg).HasUnit() && cfg.storage.signed ==> NegOne(cfg).value == -Pow2(cfg.FracBits())
    ensures FracMask(cfg) == Pow2(cfg.FracBits()) - 1
    ensures cfg.storage.Pattern(IntMask(cfg)) == HighMask(cfg.FracBits(), cfg.storage.bits)
  {
    var h := Header(cfg);
    FixedPoint.ConstantValues(h);
    assert Half(cfg) == FixedPoint.Half(h);
    assert h.FracBits() == cfg.FracBits();
  }

  // ---------------------------------------------------------------------------
  // Construction
  // ---------------------------------------------------------------------------

  /**
   * Number(T i): i narrowed to IntType and shifted left by kFracBits there.
   * Shifting in the narrow type loses only bits that narrowing the wide shift
   * loses too, so the result is the later class's for every integer.
   */
  function FromInt(cfg: Config, n: int): (r: Number)
    requires cfg.Valid()
    ensures r == FixedPoint.FromInt(Header(cfg), n)
  {
    var t, p := cfg.storage, Pow2(cfg.FracBits());
    var r := FixedPoint.FromBits(t.Cast(t.Cast(n) * p));
    var h := FixedPoint.FromInt(Header(cfg), n).value;
    CongruentScale(t.Cast(n), n, t.bits, p);
    CongruentSymmetric(h, n * p, t.bits);
    CongruentTransitive(t.Cast(n) * p, n * p, h, t.bits);
    CongruentSymmetric(t.Cast(n) * p, h, t.bits);
    CastUnique(t, t.Cast(n) * p, h);
    r
  }

  /** Constructing from an integer of IntBits bits and reading it back gives it. */
  lemma FromIntRoundTrip(cfg: Config, n: int)
    requires cfg.Valid() && Header(cfg).IntFits(n)
    ensures FixedPoint.IntPart(Header(cfg), FromInt(cfg, n)) == n
    ensures FromInt(cfg, n).value == n * Pow2(cfg.FracBits())
  {
    FixedPoint.IntPartOfFromInt(Header(cfg), n);
  }

  // ---------------------------------------------------------------------------
  // Arithmetic
  // ---------------------------------------------------------------------------

  /** Unary operator-. */
  function Neg(cfg: Config, a: Number): (r: Number)
    requires cfg.Valid() && cfg.storage.signed && Holds(cfg, a)
    ensures r == FixedPoint.Neg(Header(cfg), a)
  {
    FixedPoint.FromBits(cfg.storage.Cast(-a.value))
  }

  function Add(cfg: Config, a: Number, b: Number): (r: Number)
    requires cfg.Valid() && Holds(cfg, a) && Holds(cfg, b)
    ensures r == FixedPoint.Add(Header(cfg), a, b)
  {
    FixedPoint.FromBits(cfg.storage.Cast(a.value + b.value))
  }

  function Sub(cfg: Config, a: Number, b: Number): (r: Number)
    requires cfg.Valid() && Holds(cfg, a) && Holds(cfg, b)
    ensures r == FixedPoint.Sub(Header(cfg), a, b)
  {
    FixedPoint.FromBits(cfg.storage.Cast(a.value - b.value))
  }

  /** operator*: the product formed in XLType, shifted right there and narrowed. */
  function Mul(cfg: Config, a: Number, b: Number): (r: Number)
    requires cfg.Valid() && Holds(cfg, a) && Holds(cfg, b)
    ensures r == FixedPoint.Mul(Header(cfg), a, b)
  {
    var xl := cfg.XLType();
    var product := xl.Cast(xl.Cast(a.value) * xl.Cast(b.value));
    FixedPoint.FromBits(cfg.storage.Cast(ShiftRight(product, cfg.FracBits())))
  }

  /** operator/: the dividend shifted left in XLType, divided there and narrowed. */
  function Div(cfg: Config, a: Number, b: Number): (r: Number)
    requires cfg.Valid() && Holds(cfg, a) && Holds(cfg, b) && b.value != 0
    ensures r == FixedPoint.Div(Header(cfg), a, b)
  {
    var xl := cfg.XLType();
    var dividend := xl.Cast(xl.Cast(a.value) * Pow2(cfg.FracBits()));
    QuotientOperands(cfg, a, b);
    FixedPoint.FromBits(cfg.storage.Cast(TruncDiv(dividend, xl.Cast(b.value))))
  }

  /** The operands of the quotient in XLType are exact. */
  lemma QuotientOperands(cfg: Config, a: Number, b: Number)
    requires cfg.Valid() && Holds(cfg, a) && Holds(cfg, b)
    ensures var xl := cfg.XLType();
            xl.Cast(xl.Cast(a.value) * Pow2(cfg.FracBits())) == a.value * Pow2(cfg.FracBits()) &&
            xl.Cast(b.value) == b.value
  {
    var h := Header(cfg);
    FixedPoint.WideHolds(h, a.value);
    FixedPoint.WideHolds(h, b.value);
    FixedPoint.FactorsFit(h, a.value);
    FixedPoint.ProductFits(h, a.value, Pow2(cfg.FracBits()));
    CastOfValue(h.wide, a.value * Pow2(cfg.FracBits()));
  }

  /** Subtraction undoes addition here too. */
  lemma AddSubInverse(cfg: Config, a: Number, b: Number)
    requires cfg.Valid() && Holds(cfg, a) && Holds(cfg, b)
    ensures Sub(cfg, Add(cfg, a, b), b) == a
  {
    FixedPoint.AddSubInverse(Header(cfg), a, b);
  }

  // ---------------------------------------------------------------------------
  // Comparison, sign, magnitude
  // ---------------------------------------------------------------------------

  /** operator<=>, defaulted: the raw values compared. */
  function Compare(cfg: Config, a: Number, b: Number): (r: FixedPoint.Ordering)
    requires cfg.Valid()
    ensures r == FixedPoint.Compare(Header(cfg), a, b)
  {
    if a.value < b.value then FixedPoint.Less
    else if a.value == b.value then FixedPoint.Equal
    else FixedPoint.Greater
  }

  /** operator==, defaulted. */
  function Equals(cfg: Config, a: Number, b: Number): (r: bool)
    requires cfg.Valid()
    ensures r == FixedPoint.Equals(Header(cfg), a, b)
  {
    a.value == b.value
  }

  function SignBit(cfg: Config, a: Number): (r: bool)
    requires cfg.Valid() && Holds(cfg, a)
    ensures r == FixedPoint.SignBit(Header(cfg), a)
  {
    if cfg.storage.signed then
      And(cfg.storage, ShiftRight(a.value, cfg.storage.bits - 1), 1) != 0
    else
      false
  }

  function Sign(cfg: Config, a: Number): (r: Number)
    requires cfg.Valid() && Holds(cfg, a)
    ensures r == FixedPoint.Sign(Header(cfg), a)
  {
    if cfg.storage.signed then
      if SignBit(cfg, a) then NegOne(cfg) else PosOne(cfg)
    else
      if a.value == 0 then Zero(cfg) else PosOne(cfg)
  }

  /**
   * Abs: -value_ in the storage type when the sign bit is set. Negating the
   * minimum in the narrow type wraps back to the minimum, as narrowing the wide
   * negation does, so the result is the later class's for every number.
   */
  function Abs(cfg: Config, a: Number): (r: Number)
    requires cfg.Valid() && Holds(cfg, a)
    ensures r == FixedPoint.Abs(Header(cfg), a)
  {
    var r := if !cfg.storage.signed then a
             else if SignBit(cfg, a) then FixedPoint.FromBits(cfg.storage.Cast(-a.value)) else a;
    NarrowNegationAgrees(cfg, a, r);
    r
  }

  /** Negating in the narrow type gives the later class's Abs, the minimum value included. */
  lemma NarrowNegationAgrees(cfg: Config, a: Number, r: Number)
    requires cfg.Valid() && Holds(cfg, a)
    requires r == if !cfg.storage.signed then a
                  else if SignBit(cfg, a) then FixedPoint.FromBits(cfg.storage.Cast(-a.value)) else a
    ensures r == FixedPoint.Abs(Header(cfg), a)
  {
    var h := Header(cfg);
    var b := FixedPoint.Abs(h, a);
    if !cfg.storage.signed {
      assert r == a == b;
    } else if a.value < 0 {
      assert SignBit(cfg, a);
      FixedPoint.AbsIsNarrowNegation(h, a);
    } else {
      assert !SignBit(cfg, a);
      assert r == a == b;
    }
  }

  /** Abs is the magnitude away from the minimum, which it maps to itself. */
  lemma AbsIsMagnitude(cfg: Config, a: Number)
    requires cfg.Valid() && Holds(cfg, a)
    ensures !cfg.storage.signed || a.value != cfg.storage.Min() ==> Abs(cfg, a).value == AbsInt(a.value)
    ensures cfg.storage.signed && a.value == cfg.storage.Min() ==> Abs(cfg, a) == a
  {
  }

  /** Frac(a): Abs(a) masked with kFracMask. */
  function Frac(cfg: Config, a: Number): (r: Number)
    requires cfg.Valid() && Holds(cfg, a)
    ensures r == FixedPoint.FracPart(Header(cfg), a)
    ensures 0 <= r.value < Pow2(cfg.FracBits())
  {
    FixedPoint.FromBits(And(cfg.storage, Abs(cfg, a).value, FracMask(cfg)))
  }

  // ---------------------------------------------------------------------------
  // Compound assignment
  // ---------------------------------------------------------------------------

  /** A Number object of the earlier class, updated in place by += -= *= /=. */
  class NumberVar {
    const cfg: Config
    var value: int

    ghost predicate Valid()
      reads this
    {
      cfg.Valid() && cfg.storage.Holds(value)
    }

    function Get(): Number
      reads this
    {
      FixedPoint.FromBits(value)
    }

    /** Number(): value_ starts at zero. */
    constructor (cfg: Config)
      requires cfg.Valid()
      ensures Valid() && this.cfg == cfg && Get() == Zero(cfg)
    {
      this.cfg := cfg;
      value := 0;
    }

    method AddAssign(other: Number) returns (self: NumberVar)
      requires Valid() && Holds(cfg, other)
      modifies this
      ensures Valid() && self == this
      ensures Get() == Add(cfg, old(Get()), other)
    {
      value := cfg.storage.Cast(value + other.value);
      self := this;
    }

    method SubAssign(other: Number) returns (self: NumberVar)
      requires Valid() && Holds(cfg, other)
      modifies this
      ensures Valid() && self == this
      ensures Get() == Sub(cfg, old(Get()), other)
    {
      value := cfg.storage.Cast(value - other.value);
      self := this;
    }

    method MulAssign(other: Number) returns (self: NumberVar)
      requires Valid() && Holds(cfg, other)
      modifies this
      ensures Valid() && self == this
      ensures Get() == Mul(cfg, old(Get()), other)
    {
      var xl := cfg.XLType();
      var thisXl := xl.Cast(value);
      var otherXl := xl.Cast(other.value);
      value := cfg.storage.Cast(ShiftRight(xl.Cast(thisXl * otherXl), cfg.FracBits()));
      self := this;
    }

    method DivAssign(other: Number) returns (self: NumberVar)
      requires Valid() && Holds(cfg, other) && other.value != 0
      modifies this
      ensures Valid() && self == this
      ensures Get() == Div(cfg, old(Get()), other)
    {
      var xl := cfg.XLType();
      var thisXl := xl.Cast(xl.Cast(value) * Pow2(cfg.FracBits()));
      var otherXl := xl.Cast(other.value);
      QuotientOperands(cfg, Get(), other);
      value := cfg.storage.Cast(TruncDiv(thisXl, otherXl));
      self := this;
    }
  }
}
