/**
 * The integer semantics of C and C++20 that the fixed-point types are built from:
 * powers of two, conversion of an integer to a fixed-width integer type
 * (reduction modulo 2^bits), division truncating toward zero, arithmetic
 * right shift, and bitwise AND and NOT on two's-complement bit patterns.
 *
 * Values are unbounded `int`s; a value "of type T" is one for which `T.Holds`.
 */
module CInt {

  function Pow2(n: nat): (r: int)
    ensures r >= 1
  {
    if n == 0 then 1 else 2 * Pow2(n - 1)
  }

  lemma {:induction false} Pow2Add(a: nat, b: nat)
    ensures Pow2(a + b) == Pow2(a) * Pow2(b)
  {
    if a > 0 {
      Pow2Add(a - 1, b);
      assert Pow2(a + b) == 2 * Pow2(a - 1 + b);
    }
  }

  lemma Pow2Le(a: nat, b: nat)
    requires a <= b
    ensures Pow2(a) <= Pow2(b)
    ensures Pow2(b) == Pow2(a) * Pow2(b - a)
  {
    Pow2Add(a, b - a);
  }

  function AbsInt(x: int): nat
  {
    if x < 0 then -x else x
  }

  // ---------------------------------------------------------------------------
  // Euclidean division and congruence modulo a power of two
  // ---------------------------------------------------------------------------

  /** Dafny's `/` and `%` are determined by the equation x == q * m + r with 0 <= r < m. */
  lemma DivModUnique(x: int, m: int, q: int, r: int)
    requires m > 0 && 0 <= r < m && x == q * m + r
    ensures x / m == q && x % m == r
  {
    var q', r' := x / m, x % m;
    assert x == q' * m + r';
    if q' < q {
      MulLe(q' + 1, q, m);
      assert false;
    } else if q < q' {
      MulLe(q + 1, q', m);
      assert false;
    }
  }

  lemma MulLe(a: int, b: int, m: int)
    requires a <= b && m > 0
    ensures a * m <= b * m
  {
  }

  lemma DivBounds(x: int, m: int)
    requires m > 0
    ensures (x / m) * m <= x < (x / m) * m + m
    ensures x >= 0 ==> x / m >= 0
  {
    assert x == (x / m) * m + x % m;
    if x >= 0 && x / m < 0 {
      MulLe(x / m, -1, m);
    }
  }

  lemma MulAddOne(a: int, m: int)
    ensures (a + 1) * m == a * m + m
    ensures (a - 1) * m == a * m - m
    ensures (-a) * m == -(a * m)
  {
  }

  lemma MulMono(a: int, b: int, c: int, d: int)
    requires 0 <= a <= b && 0 <= c <= d
    ensures a * c <= b * d
  {
    if c > 0 {
      MulLe(a, b, c);
    }
    if b > 0 {
      MulLe(c, d, b);
    }
  }

  /** A product of factors bounded in magnitude by h is bounded by h * h. */
  lemma ProductMagnitude(x: int, y: int, h: int)
    requires AbsInt(x) <= h && AbsInt(y) <= h
    ensures -(h * h) <= x * y <= h * h
  {
    MulMono(AbsInt(x), h, AbsInt(y), h);
    assert AbsInt(x * y) == AbsInt(x) * AbsInt(y);
  }

  /** A product of two naturals below p is below p * p. */
  lemma ProductBelow(x: int, y: int, p: int)
    requires 0 <= x < p && 0 <= y < p
    ensures 0 <= x * y < p * p
  {
    MulMono(x, p - 1, y, p - 1);
    MulMono(p - 1, p, p - 1, p);
  }

  lemma AbsOfScaled(x: int, k: int)
    requires k > 0
    ensures AbsInt(x * k) == AbsInt(x) * k
    ensures x * k < 0 <==> x < 0
  {
    MulAddOne(x, k);
    if x < 0 {
      MulLe(x, -1, k);
    } else {
      MulLe(0, x, k);
    }
  }

  lemma MulLtCancel(a: int, b: int, m: int)
    requires m > 0 && a * m < b * m
    ensures a < b
  {
    if b <= a {
      MulLe(b, a, m);
    }
  }

  lemma MultipleMod(k: int, m: int)
    requires m > 0
    ensures (k * m) % m == 0 && (k * m) / m == k
  {
    DivModUnique(k * m, m, k, 0);
  }

  /** x and y agree in their low n bits. */
  predicate Congruent(x: int, y: int, n: nat)
  {
    (x - y) % Pow2(n) == 0
  }

  lemma CongruentByMultiple(x: int, y: int, n: nat, k: int)
    requires x - y == k * Pow2(n)
    ensures Congruent(x, y, n)
  {
    MultipleMod(k, Pow2(n));
  }

  lemma CongruentMultiple(x: int, y: int, n: nat) returns (k: int)
    requires Congruent(x, y, n)
    ensures x - y == k * Pow2(n)
  {
    k := (x - y) / Pow2(n);
  }

  lemma CongruentSymmetric(x: int, y: int, n: nat)
    requires Congruent(x, y, n)
    ensures Congruent(y, x, n)
  {
    var k := CongruentMultiple(x, y, n);
    CongruentByMultiple(y, x, n, -k);
  }

  lemma CongruentTransitive(x: int, y: int, z: int, n: nat)
    requires Congruent(x, y, n) && Congruent(y, z, n)
    ensures Congruent(x, z, n)
  {
    var k1 := CongruentMultiple(x, y, n);
    var k2 := CongruentMultiple(y, z, n);
    CongruentByMultiple(x, z, n, k1 + k2);
  }

  /** Agreeing in the low m bits implies agreeing in the low n <= m bits. */
  lemma CongruentWeaken(x: int, y: int, m: nat, n: nat)
    requires n <= m && Congruent(x, y, m)
    ensures Congruent(x, y, n)
  {
    var k := CongruentMultiple(x, y, m);
    Pow2Le(n, m);
    CongruentByMultiple(x, y, n, k * Pow2(m - n));
  }

  lemma CongruentScale(x: int, y: int, n: nat, c: int)
    requires Congruent(x, y, n)
    ensures Congruent(x * c, y * c, n)
  {
    var k := CongruentMultiple(x, y, n);
    assert x * c - y * c == (x - y) * c;
    CongruentByMultiple(x * c, y * c, n, k * c);
  }

  lemma CongruentAdd(x: int, y: int, u: int, v: int, n: nat)
    requires Congruent(x, y, n) && Congruent(u, v, n)
    ensures Congruent(x + u, y + v, n)
  {
    var k1 := CongruentMultiple(x, y, n);
    var k2 := CongruentMultiple(u, v, n);
    CongruentByMultiple(x + u, y + v, n, k1 + k2);
  }

  /** Two numbers that agree in their low n bits and lie less than 2^n apart are equal. */
  lemma CongruentClose(x: int, y: int, n: nat)
    requires Congruent(x, y, n) && -Pow2(n) < x - y < Pow2(n)
    ensures x == y
  {
    var k := CongruentMultiple(x, y, n);
    if k > 0 {
      MulLe(1, k, Pow2(n));
    } else if k < 0 {
      MulLe(k, -1, Pow2(n));
    }
  }

  // ---------------------------------------------------------------------------
  // Fixed-width integer types
  // ---------------------------------------------------------------------------

  /** A C integer type: its signedness and its width in bits. */
  datatype IntType = IntType(signed: bool, bits: nat)
  {
    /** One of std::int8_t ... std::int64_t, std::uint8_t ... std::uint64_t. */
    predicate Standard()
    {
      bits == 8 || bits == 16 || bits == 32 || bits == 64
    }

    /** std::numeric_limits<T>::digits: the value bits, the sign bit left out. */
    function Digits(): int
    {
      if signed then bits - 1 else bits
    }

    function Min(): int
      requires bits > 0
    {
      if signed then -Pow2(bits - 1) else 0
    }

    function Max(): int
      requires bits > 0
    {
      if signed then Pow2(bits - 1) - 1 else Pow2(bits) - 1
    }

    /** x is a value of this type. */
    predicate Holds(x: int)
      requires bits > 0
    {
      Min() <= x <= Max()
    }

    /**
     * static_cast<T>(x), and every implicit conversion to T: the one value of T
     * that agrees with x in the low `bits` bits. C++20 requires this for every
     * conversion; in C, a conversion to a signed type that cannot hold x is
     * implementation-defined, and this is what mainstream compilers do.
     */
    function Cast(x: int): (r: int)
      requires bits > 0
      ensures Holds(r)
      ensures Congruent(r, x, bits)
    {
      var p := Pow2(bits);
      var r := (x - Min()) % p + Min();
      CongruentByMultiple(r, x, bits, -((x - Min()) / p));
      r
    }

    /** The bit pattern of x as the unsigned number it spells in `bits` bits. */
    function Pattern(x: int): (p: nat)
      requires bits > 0
      ensures p < Pow2(bits) && Congruent(p, x, bits)
    {
      var p := x % Pow2(bits);
      CongruentByMultiple(p, x, bits, -(x / Pow2(bits)));
      p
    }
  }

  /** A value of T congruent to x is the cast of x: casting is reduction modulo 2^bits. */
  lemma {:induction false} CastUnique(t: IntType, x: int, y: int)
    requires t.bits > 0 && t.Holds(y) && Congruent(y, x, t.bits)
    ensures t.Cast(x) == y
  {
    var r := t.Cast(x);
    CongruentSymmetric(y, x, t.bits);
    CongruentTransitive(r, x, y, t.bits);
    assert t.Max() - t.Min() < Pow2(t.bits);
    CongruentClose(r, y, t.bits);
  }

  /** Narrowing changes a value only when it does not fit. */
  lemma CastOfFitting(t: IntType, x: int)
    requires t.bits > 0
    ensures t.Holds(x) ==> t.Cast(x) == x
  {
    if t.Holds(x) {
      CastOfValue(t, x);
    }
  }

  lemma CastOfValue(t: IntType, x: int)
    requires t.bits > 0 && t.Holds(x)
    ensures t.Cast(x) == x
  {
    CastUnique(t, x, x);
  }

  lemma CastCongruent(t: IntType, x: int, y: int)
    requires t.bits > 0 && Congruent(x, y, t.bits)
    ensures t.Cast(x) == t.Cast(y)
  {
    CongruentSymmetric(x, y, t.bits);
    CongruentTransitive(t.Cast(y), y, x, t.bits);
    CastUnique(t, x, t.Cast(y));
  }

  /** Narrowing an intermediate sum does not change the narrowed total. */
  lemma CastOfSum(t: IntType, x: int, y: int)
    requires t.bits > 0
    ensures t.Cast(t.Cast(x) + y) == t.Cast(x + y)
  {
    CongruentByMultiple(y, y, t.bits, 0);
    CongruentAdd(t.Cast(x), x, y, y, t.bits);
    CastCongruent(t, t.Cast(x) + y, x + y);
  }

  /** Subtracting y undoes adding y, both narrowed to T. */
  lemma CastUndoesAdd(t: IntType, x: int, y: int, s: int)
    requires t.bits > 0 && t.Holds(x) && s == t.Cast(x + y)
    ensures t.Cast(s - y) == x
  {
    CastOfSum(t, x + y, -y);
    CastOfValue(t, x);
  }

  /** Adding y undoes subtracting y, both narrowed to T. */
  lemma CastUndoesSub(t: IntType, x: int, y: int, s: int)
    requires t.bits > 0 && t.Holds(x) && s == t.Cast(x - y)
    ensures t.Cast(s + y) == x
  {
    CastOfSum(t, x - y, y);
    CastOfValue(t, x);
  }

  /** The pattern of x is the one number below 2^bits agreeing with x in those bits. */
  lemma PatternUnique(t: IntType, x: int, p: int)
    requires t.bits > 0 && 0 <= p < Pow2(t.bits) && Congruent(p, x, t.bits)
    ensures t.Pattern(x) == p
  {
    CongruentSymmetric(p, x, t.bits);
    CongruentTransitive(t.Pattern(x), x, p, t.bits);
    CongruentClose(t.Pattern(x), p, t.bits);
  }

  /** Numbers that agree in their low k bits leave the same remainder modulo 2^k. */
  lemma CongruentMod(x: int, y: int, k: nat)
    requires Congruent(x, y, k)
    ensures x % Pow2(k) == y % Pow2(k)
  {
    var m := CongruentMultiple(x, y, k);
    DivBounds(y, Pow2(k));
    DivModUnique(x, Pow2(k), y / Pow2(k) + m, y % Pow2(k));
  }

  /** 2^k - 1 and, for signed T, -2^k are values of T when k <= digits; 2^k is one when k < digits. */
  lemma PowerFits(t: IntType, k: nat)
    requires t.bits > 0 && k <= t.Digits()
    ensures t.Holds(Pow2(k) - 1)
    ensures t.signed ==> t.Holds(-Pow2(k))
    ensures k < t.Digits() ==> t.Holds(Pow2(k))
  {
    Pow2Le(k, t.Digits());
    if t.signed {
      assert Pow2(t.bits) == 2 * Pow2(t.bits - 1);
    }
  }

  // ---------------------------------------------------------------------------
  // Operators
  // ---------------------------------------------------------------------------

  /** C's `/` on integers: the quotient truncated toward zero. */
  function TruncDiv(n: int, d: int): (q: int)
    requires d != 0
    ensures AbsInt(q) * AbsInt(d) <= AbsInt(n) < AbsInt(q) * AbsInt(d) + AbsInt(d)
    ensures q == 0 || (q < 0 <==> (n < 0) != (d < 0))
  {
    var m := AbsInt(n) / AbsInt(d);
    DivBounds(AbsInt(n), AbsInt(d));
    if (n < 0) == (d < 0) then m else -m
  }

  /** Dividing an exact multiple leaves no remainder to truncate. */
  lemma TruncDivExact(k: int, d: int)
    requires d != 0
    ensures TruncDiv(k * d, d) == k
  {
    assert AbsInt(k * d) == AbsInt(k) * AbsInt(d);
    MultipleMod(AbsInt(k), AbsInt(d));
  }

  // ---------------------------------------------------------------------------
  // Rounding to multiples
  // ---------------------------------------------------------------------------

  /** A number is a multiple of p exactly when its magnitude is. */
  lemma MagnitudeMod(a: int, p: int)
    requires p > 0
    ensures a % p == 0 <==> AbsInt(a) % p == 0
  {
    if a < 0 {
      var q, s := a / p, a % p;
      MulAddOne(-q, p);
      MulAddOne(q, p);
      if s == 0 {
        DivModUnique(-a, p, -q, 0);
      } else {
        DivModUnique(-a, p, -q - 1, p - s);
      }
    }
  }

  /**
   * For a negative a off the multiples of p, rounding down and adding p gives
   * the magnitude rounded down, negated.
   */
  lemma NegativeRoundDown(a: int, p: int)
    requires p > 0 && a < 0 && a % p != 0
    ensures var v := a - a % p + p;
            a < v <= 0 && AbsInt(v) == AbsInt(a) - AbsInt(a) % p
  {
    var q, s := a / p, a % p;
    MulAddOne(-q, p);
    MulAddOne(q, p);
    DivModUnique(-a, p, -q - 1, p - s);
    if q >= 0 {
      MulLe(0, q, p);
    }
  }

  /**
   * A negative value of t off the multiples of p, rounded down to c and moved
   * up by p, stays within t.
   */
  lemma NegativeRoundDownHolds(t: IntType, a: int, p: int, c: int)
    requires t.bits > 0 && t.Holds(a) && p > 0 && a < 0 && a % p != 0 && c == a - a % p
    ensures t.Cast(c + p) == c + p
  {
    NegativeRoundDown(a, p);
    CastOfValue(t, c + p);
  }

  /**
   * Rounding toward zero to a multiple of p: a on the grid, else rounded down
   * when non-negative, rounded down and moved up by p when negative. The result
   * is the magnitude rounded down, with a's sign.
   */
  lemma TowardZeroFacts(a: int, p: int, r: int)
    requires p > 0
    requires r == if AbsInt(a) % p == 0 then a else if a >= 0 then a - a % p else a - a % p + p
    ensures AbsInt(r) % p == 0
    ensures AbsInt(r) == AbsInt(a) - AbsInt(a) % p
    ensures AbsInt(r) <= AbsInt(a) < AbsInt(r) + p
    ensures r == 0 || (r < 0 <==> a < 0)
  {
    var n := AbsInt(a);
    var m, s := n / p, n % p;
    assert n == m * p + s;
    MultipleMod(m, p);
    if a < 0 && s != 0 {
      MulAddOne(-m, p);
      MulAddOne(m, p);
      DivModUnique(a, p, -m - 1, p - s);
      assert r == -(m * p);
      if m < 0 {
        MulLe(m, -1, p);
      }
    } else {
      assert AbsInt(r) == m * p;
    }
  }

  /**
   * The steps of a round toward zero on a value of t: keep a when its
   * magnitude is on the grid; else clear the remainder, and when a is negative
   * move the cleared value up by p.
   */
  lemma TowardZeroSteps(t: IntType, a: int, p: int, frac: int, sign: int, cleared: int, one: int, r: int)
    requires t.bits > 0 && t.Holds(a) && p > 0 && one == p
    requires frac == AbsInt(a) % p && sign == (if a < 0 then 1 else 0) && cleared == a - a % p
    requires r == if frac == 0 then a else if sign == 0 then cleared else t.Cast(cleared + one)
    ensures t.Holds(r)
    ensures AbsInt(r) % p == 0
    ensures AbsInt(r) == AbsInt(a) - AbsInt(a) % p
    ensures AbsInt(r) <= AbsInt(a) < AbsInt(r) + p
    ensures r == 0 || (r < 0 <==> a < 0)
  {
    MagnitudeMod(a, p);
    if frac != 0 && sign != 0 {
      NegativeRoundDownHolds(t, a, p, cleared);
    }
    TowardZeroFacts(a, p, r);
  }

  /** Rounding toward zero to a multiple of p is C's quotient by p, scaled back. */
  lemma TowardZeroIsTruncDiv(a: int, p: int, r: int)
    requires p > 0 && AbsInt(r) % p == 0 && AbsInt(r) <= AbsInt(a) < AbsInt(r) + p
    requires r == 0 || (r < 0 <==> a < 0)
    ensures r == TruncDiv(a, p) * p
  {
    var m := AbsInt(r) / p;
    assert AbsInt(r) == m * p;
    DivModUnique(AbsInt(a), p, m, AbsInt(a) - AbsInt(r));
    assert TruncDiv(a, p) == if a < 0 then -m else m;
    if a < 0 {
      MulAddOne(m, p);
      assert r == (-m) * p;
    } else {
      assert r == m * p;
    }
  }

  /**
   * Moving a rounded-toward-zero f of an a off the grid one p further from
   * zero rounds a away from zero: the magnitude rounded up, with a's sign.
   */
  lemma AwayFromZeroFacts(a: int, p: int, f: int, r: int)
    requires p > 0 && AbsInt(a) % p != 0
    requires AbsInt(f) % p == 0 && AbsInt(f) == AbsInt(a) - AbsInt(a) % p
    requires f == 0 || (f < 0 <==> a < 0)
    requires r == f + (if a < 0 then -p else p)
    ensures AbsInt(r) % p == 0
    ensures AbsInt(r) == AbsInt(f) + p
    ensures AbsInt(a) < AbsInt(r) < AbsInt(a) + p
    ensures r != 0 && (r < 0 <==> a < 0)
  {
    var k := AbsInt(f) / p;
    assert AbsInt(f) == k * p;
    assert AbsInt(r) == AbsInt(f) + p;
    MulAddOne(k + 1, p);
    MultipleMod(k + 1, p);
  }

  /** A non-negative multiple of p below (k + 1) * p is at most k * p. */
  lemma MultipleBelow(x: int, p: int, k: int)
    requires p > 0 && x >= 0 && x % p == 0 && x < (k + 1) * p
    ensures x <= k * p
  {
    var m := x / p;
    DivModUnique(x, p, m, 0);
    MulAddOne(k + 1, p);
    MulLtCancel(m, k + 1, p);
    MulLe(m, k, p);
  }

  /**
   * Rounding away from zero stays within t when a is at most the largest
   * whole multiple k * p that t holds and t's minimum is the next multiple
   * below zero.
   */
  lemma AwayFromZeroFits(t: IntType, a: int, p: int, k: int, f: int, s: int, v: int)
    requires t.bits > 0 && t.Holds(a) && p > 0 && AbsInt(a) % p != 0
    requires AbsInt(f) % p == 0 && AbsInt(f) == AbsInt(a) - AbsInt(a) % p
    requires f == 0 || (f < 0 <==> a < 0)
    requires s == (if a < 0 then -p else p) && v == f + s
    requires a <= k * p && k * p <= t.Max() && t.Min() == -((k + 1) * p)
    ensures t.Holds(v)
    ensures AbsInt(v) % p == 0
    ensures AbsInt(v) == AbsInt(f) + p
    ensures AbsInt(a) < AbsInt(v) < AbsInt(a) + p
    ensures v != 0 && (v < 0 <==> a < 0)
  {
    AwayFromZeroFacts(a, p, f, v);
    MulAddOne(k, p);
    MulAddOne(k + 1, p);
    if a >= 0 {
      MultipleBelow(AbsInt(v), p, k);
    } else {
      MultipleBelow(AbsInt(v), p, k + 1);
    }
  }

  /**
   * `x >> k` on a value of a signed or unsigned type: arithmetic shift, the
   * floor of x / 2^k (sign-extending for negative x, as C++20 requires).
   */
  function ShiftRight(x: int, k: nat): (r: int)
    ensures r * Pow2(k) <= x < r * Pow2(k) + Pow2(k)
  {
    x / Pow2(k)
  }

  /** A value of the `i`-bit type, shifted left by k = bits - i, is a value of T. */
  lemma ScaledHolds(t: IntType, i: nat, k: nat, n: int)
    requires i >= 1 && i + k == t.bits && IntType(t.signed, i).Holds(n)
    ensures t.Holds(n * Pow2(k))
  {
    var p := Pow2(k);
    if t.signed {
      var h := Pow2(i - 1);
      Pow2Add(i - 1, k);
      assert Pow2(t.bits - 1) == h * p;
      MulLe(-h, n, p);
      MulLe(n, h - 1, p);
      MulAddOne(h, p);
    } else {
      var h := Pow2(i);
      Pow2Add(i, k);
      assert Pow2(t.bits) == h * p;
      MulLe(0, n, p);
      MulLe(n, h - 1, p);
      MulAddOne(h, p);
    }
  }

  /**
   * A value of the signed `i`-bit type whose negation fits too, shifted left by
   * k = bits - i, lies above the minimum of T, and shifting commutes with negation.
   */
  lemma ScaledAboveMin(t: IntType, i: nat, k: nat, n: int)
    requires t.signed && i >= 1 && i + k == t.bits
    requires IntType(true, i).Holds(n) && IntType(true, i).Holds(-n)
    ensures n * Pow2(k) != t.Min() && (-n) * Pow2(k) == -(n * Pow2(k))
  {
    var p, h := Pow2(k), Pow2(i - 1);
    Pow2Add(i - 1, k);
    assert Pow2(t.bits - 1) == h * p;
    MulLe(-h + 1, n, p);
    MulAddOne(-h, p);
    MulAddOne(h, p);
    MulAddOne(n, p);
  }

  /** Shifting a value of T right by k leaves a value of the type with `bits - k` bits. */
  lemma ShiftRightHolds(t: IntType, x: int, k: nat, r: int)
    requires 0 < k < t.bits && t.Holds(x) && r == ShiftRight(x, k)
    ensures IntType(t.signed, t.bits - k).Holds(r)
  {
    var p, n := Pow2(k), t.bits - k;
    MulAddOne(r, p);
    if t.signed {
      var h := Pow2(n - 1);
      Pow2Add(n - 1, k);
      assert Pow2(t.bits - 1) == h * p;
      MulAddOne(h, p);
      MulLtCancel(-h, r + 1, p);
      MulLtCancel(r, h, p);
    } else {
      var h := Pow2(n);
      Pow2Add(n, k);
      assert Pow2(t.bits) == h * p;
      MulLtCancel(0, r + 1, p);
      MulLtCancel(r, h, p);
    }
  }

  lemma ShiftRightOfMultiple(x: int, k: nat)
    ensures ShiftRight(x * Pow2(k), k) == x
  {
    MultipleMod(x, Pow2(k));
  }

  /** The AND of the low n bits of two bit patterns. */
  function AndBits(a: nat, b: nat, n: nat): (r: nat)
    ensures r < Pow2(n)
  {
    if n == 0 then 0
    else 2 * AndBits(a / 2, b / 2, n - 1) + (if a % 2 == 1 && b % 2 == 1 then 1 else 0)
  }

  /** `x & y` on two values of type t. */
  function And(t: IntType, x: int, y: int): int
    requires t.bits > 0
  {
    t.Cast(AndBits(t.Pattern(x), t.Pattern(y), t.bits))
  }

  /** `~x` on a value of type t: every one of its `bits` bits flipped. */
  function Not(t: IntType, x: int): int
    requires t.bits > 0
  {
    t.Cast(Pow2(t.bits) - 1 - t.Pattern(x))
  }

  lemma {:induction false} AndBitsCommutes(a: nat, b: nat, n: nat)
    ensures AndBits(a, b, n) == AndBits(b, a, n)
  {
    if n > 0 {
      AndBitsCommutes(a / 2, b / 2, n - 1);
    }
  }

  /** The low k bits of a number, split off its lowest bit. */
  lemma ModTwice(a: int, m: int)
    requires m > 0
    ensures a % (2 * m) == 2 * ((a / 2) % m) + a % 2
    ensures a / (2 * m) == (a / 2) / m
  {
    var h, q := a / 2, (a / 2) / m;
    assert a == 2 * h + a % 2;
    assert h == q * m + h % m;
    DivModUnique(a, 2 * m, q, 2 * (h % m) + a % 2);
  }

  /** Masking with 2^k - 1 keeps the low k bits: `a & (2^k - 1) == a mod 2^k`. */
  lemma {:induction false} AndLowMask(a: nat, k: nat, n: nat)
    requires k <= n
    ensures AndBits(a, Pow2(k) - 1, n) == a % Pow2(k)
  {
    if n == 0 {
      assert Pow2(k) == 1;
    } else if k == 0 {
      AndLowMask(a / 2, 0, n - 1);
      assert AndBits(a, 0, n) == 2 * AndBits(a / 2, 0, n - 1);
    } else {
      AndLowMask(a / 2, k - 1, n - 1);
      AndLowMaskStep(a, k, n);
    }
  }

  /** One bit of AndLowMask: the low bit of 2^k - 1 is set, the rest is 2^(k-1) - 1. */
  lemma AndLowMaskStep(a: nat, k: nat, n: nat)
    requires 0 < k <= n
    requires AndBits(a / 2, Pow2(k - 1) - 1, n - 1) == (a / 2) % Pow2(k - 1)
    ensures AndBits(a, Pow2(k) - 1, n) == a % Pow2(k)
  {
    var m, h := Pow2(k) - 1, Pow2(k - 1);
    assert Pow2(k) == 2 * h;
    DivModUnique(m, 2, h - 1, 1);
    assert AndBits(a, m, n) == 2 * AndBits(a / 2, h - 1, n - 1) + a % 2;
    ModTwice(a, h);
  }

  /** The n-bit pattern whose top n - k bits are set and low k bits clear. */
  function HighMask(k: nat, n: nat): (m: nat)
    requires k <= n
    ensures m == Pow2(n) - Pow2(k)
  {
    Pow2Le(k, n);
    Pow2(n) - Pow2(k)
  }

  /** i ones shifted left by k fill the bits k .. n-1 of an n-bit pattern, n == i + k. */
  lemma HighMaskProduct(i: nat, k: nat, n: nat)
    requires i + k == n
    ensures (Pow2(i) - 1) * Pow2(k) == HighMask(k, n)
  {
    Pow2Add(i, k);
    MulAddOne(Pow2(i) - 1, Pow2(k));
  }

  /**
   * A mask with the bits from k up set and the mask 2^k - 1 share no bit, and
   * together they set every bit of T.
   */
  lemma MasksDisjoint(t: IntType, hi: int, lo: int, k: nat)
    requires 0 < t.bits && k <= t.bits && t.Pattern(hi) == HighMask(k, t.bits) && lo == Pow2(k) - 1
    ensures And(t, hi, lo) == 0
    ensures t.Pattern(hi) + t.Pattern(lo) == Pow2(t.bits) - 1
  {
    var n := t.bits;
    Pow2Le(k, n);
    CongruentByMultiple(lo, lo, n, 0);
    PatternUnique(t, lo, lo);
    AndLowMask(HighMask(k, n), k, n);
    HighMaskProduct(n - k, k, n);
    MultipleMod(Pow2(n - k) - 1, Pow2(k));
    CastOfValue(t, 0);
  }

  /** Masking with 2^n - 2^k clears the low k bits: `a & ~(2^k - 1) == a - a mod 2^k`. */
  lemma {:induction false} AndHighMask(a: nat, k: nat, n: nat)
    requires k <= n && a < Pow2(n)
    ensures AndBits(a, HighMask(k, n), n) == a - a % Pow2(k)
  {
    if k == 0 {
      AndLowMask(a, n, n);
      DivModUnique(a, Pow2(n), 0, a);
    } else {
      var m := HighMask(k, n);
      Pow2Le(k, n);
      DivModUnique(m, 2, HighMask(k - 1, n - 1), 0);
      DivModUnique(a, 2, a / 2, a % 2);
      AndHighMask(a / 2, k - 1, n - 1);
      ModTwice(a, Pow2(k - 1));
    }
  }

  /** `x & (2^k - 1)`, masking the low k bits, is x modulo 2^k. */
  lemma AndLowBits(t: IntType, x: int, k: nat, m: int)
    requires t.bits > 0 && k <= t.Digits() && m == Pow2(k) - 1
    ensures And(t, x, m) == x % Pow2(k)
  {
    PowerFits(t, k);
    Pow2Le(k, t.bits);
    CongruentByMultiple(Pow2(k) - 1, Pow2(k) - 1, t.bits, 0);
    PatternUnique(t, Pow2(k) - 1, Pow2(k) - 1);
    AndLowMask(t.Pattern(x), k, t.bits);
    CongruentWeaken(t.Pattern(x), x, t.bits, k);
    CongruentMod(t.Pattern(x), x, k);
    CastOfValue(t, x % Pow2(k));
  }

  /** Rounding a value of T down to a multiple of 2^k, k < bits, stays in T. */
  lemma RoundDownHolds(t: IntType, x: int, k: nat)
    requires 0 <= k < t.bits && t.Holds(x)
    ensures t.Holds(x - x % Pow2(k))
  {
    var n, kk := t.bits, Pow2(k);
    DivBounds(x, kk);
    assert x - x % kk == (x / kk) * kk;
    if t.signed {
      // the minimum -2^(n-1) is itself a multiple of 2^k
      var h := Pow2(n - 1 - k);
      Pow2Add(n - 1 - k, k);
      MulAddOne(h, kk);
      if x / kk < -h {
        MulLe(x / kk, -h - 1, kk);
        MulAddOne(-h, kk);
        assert false;
      }
      MulLe(-h, x / kk, kk);
    } else {
      MulLe(0, x / kk, kk);
    }
  }

  /**
   * `m & x` for a mask m whose pattern has the bits from k up set clears the low
   * k bits of x: it rounds x down to a multiple of 2^k, in two's complement too.
   */
  lemma AndClearsLowBits(t: IntType, m: int, x: int, k: nat)
    requires 0 <= k < t.bits && t.Holds(x) && t.Pattern(m) == HighMask(k, t.bits)
    ensures And(t, m, x) == x - x % Pow2(k)
  {
    var n, p := t.bits, t.Pattern(x);
    AndBitsCommutes(HighMask(k, n), p, n);
    AndHighMask(p, k, n);
    PatternRoundDown(t, x, k, p);
  }

  /** Rounding x's bit pattern down to a multiple of 2^k narrows to x rounded down. */
  lemma PatternRoundDown(t: IntType, x: int, k: nat, p: int)
    requires 0 <= k < t.bits && t.Holds(x) && p == t.Pattern(x)
    ensures t.Cast(p - p % Pow2(k)) == x - x % Pow2(k)
  {
    var n, kk := t.bits, Pow2(k);
    CongruentWeaken(p, x, n, k);
    CongruentMod(p, x, k);
    var d := p % kk;
    CongruentByMultiple(-d, -d, n, 0);
    CongruentAdd(p, x, -d, -d, n);
    assert d == x % kk;
    CongruentSymmetric(p - d, x - d, n);
    RoundDownHolds(t, x, k);
    CastUnique(t, p - d, x - d);
  }

  /** `~x + 1` is two's-complement negation: it narrows like -x. */
  lemma NotPlusOne(t: IntType, x: int)
    requires t.bits > 0
    ensures t.Cast(Not(t, x) + 1) == t.Cast(-x)
  {
    var n, p := t.bits, t.Pattern(x);
    var m := Pow2(n) - 1 - p;
    // Not(t, x) agrees with 2^n - 1 - p, and that with -1 - x, in the low n bits
    var k := CongruentMultiple(p, x, n);
    CongruentByMultiple(m + 1, -x, n, 1 - k);
    CongruentByMultiple(1, 1, n, 0);
    CongruentAdd(Not(t, x), m, 1, 1, n);
    CongruentTransitive(Not(t, x) + 1, m + 1, -x, n);
    CastCongruent(t, Not(t, x) + 1, -x);
  }

  /** For signed T, 2^(bits-1) is one past the maximum and wraps to the minimum. */
  lemma CastOfMinMagnitude(t: IntType, x: int)
    requires t.bits > 0 && t.signed && x == -t.Min()
    ensures t.Cast(x) == t.Min()
  {
    assert Pow2(t.bits) == 2 * Pow2(t.bits - 1);
    CongruentByMultiple(t.Min(), Pow2(t.bits - 1), t.bits, -1);
    CastUnique(t, Pow2(t.bits - 1), t.Min());
  }

  /** Negation narrowed back to a signed T: exact, except that the minimum wraps to itself. */
  lemma CastOfNegation(t: IntType, x: int)
    requires t.bits > 0 && t.signed && t.Holds(x)
    ensures x != t.Min() ==> t.Cast(-x) == -x
    ensures x == t.Min() ==> t.Cast(-x) == x
  {
    if x == t.Min() {
      CastOfMinMagnitude(t, -x);
    } else {
      CastOfValue(t, -x);
    }
  }

  /** Subtracting y is adding y's negation narrowed to T: y itself at the minimum, where -y wraps. */
  lemma CastSubIsAddNeg(t: IntType, x: int, y: int, m: int)
    requires t.bits > 0 && t.signed && t.Holds(y) && m == if y == t.Min() then y else -y
    ensures t.Cast(x - y) == t.Cast(x + m)
  {
    if y == t.Min() {
      // -Min wraps to Min: x - Min and x + Min differ by 2^bits
      assert Pow2(t.bits) == 2 * Pow2(t.bits - 1);
      CongruentByMultiple(x - y, x + m, t.bits, 1);
    } else {
      CongruentByMultiple(x - y, x + m, t.bits, 0);
    }
    CastCongruent(t, x - y, x + m);
  }

  /** The magnitude narrowed back to a signed T: exact, except that the minimum wraps to itself. */
  lemma CastOfMagnitude(t: IntType, x: int, m: int)
    requires t.bits > 0 && t.signed && t.Holds(x) && m == if x < 0 then -x else x
    ensures x != t.Min() ==> t.Cast(m) == AbsInt(x)
    ensures x == t.Min() ==> t.Cast(m) == x
  {
    if x < 0 {
      CastOfNegation(t, x);
    } else {
      CastOfValue(t, x);
    }
  }

  /**
   * The magnitude of x, or x itself when it is the minimum of a signed type (the
   * one value whose negation wraps), has the same low k bits as |x|.
   */
  lemma MagnitudeLowBits(t: IntType, x: int, m: int, k: nat)
    requires t.bits > 0 && t.Holds(x) && k < t.bits
    requires m == AbsInt(x) || (t.signed && x == t.Min() && m == x)
    ensures m % Pow2(k) == AbsInt(x) % Pow2(k)
  {
    if m != AbsInt(x) {
      MinIsMultiple(t, k);
    }
  }

  /** The minimum of a signed type is a multiple of every power of two below its width. */
  lemma MinIsMultiple(t: IntType, k: nat)
    requires t.bits > 0 && t.signed && k < t.bits
    ensures t.Min() % Pow2(k) == 0 && AbsInt(t.Min()) % Pow2(k) == 0
  {
    var n, p := t.bits - 1, Pow2(k);
    var h := Pow2(n - k);
    Pow2Add(n - k, k);
    assert Pow2(n) == h * p;
    MulAddOne(h, p);
    MultipleMod(h, p);
    MultipleMod(-h, p);
  }
}
