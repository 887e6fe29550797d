# Binary fixed-point numbers, modelled in Dafny

The repository implements a binary fixed-point number: one W-bit integer
`value_` that stands for the rational `value_ / 2^f`. The `NumIntBits` integer
bits sit above `f = W - NumIntBits` fractional bits. It comes in three versions,
and each one is a Dafny module here:

- `FixedPoint` (fixed_point.dfy) models the class template
  `fp::Number<IntType, WideType, NumIntBits>` of `src/fixed_point/fixed_point.hpp`.
  - It covers every instantiation at once: a `Config` carries the template
    arguments, and `Config.Valid()` holds the template's concepts.
  - The named constants and masks are functions. So are the integer
    constructor, `IntPart`, `FracPart`, `SignBit`, `Sign` and `Abs`, the
    operators `- + - * /` and the comparisons. They return values, never
    references: a fresh `Number`, or for `IntPart`, `SignBit` and `<=>` an
    integer, a boolean or an ordering.
  - The compound operators `+= -= *= /=` change `value_` in place. They are
    methods of the class `NumberVar`, which holds that field.
  - A ghost `ToReal` gives the rational a number stands for. The contracts use
    it to say what the operations mean: exact sums, products rounded down,
    quotients truncated toward zero, Abs as the magnitude.
- `FixedPointEarly` (fixed_point_early.dfy) models the earlier
  `fp::Number<IntType, IntBits>` of `src/main.cpp`.
  - Its wide type is fixed to `XLType`.
  - Its integer constructor shifts in the narrow type, and its `Abs` negates
    without widening.
  - Every operation is proved equal to the later template instantiated with
    `XLType`, so everything proved about `FixedPoint` holds for it too.
- `FixedPointC` (fixed_point_c.dfy) models the macros and functions of
  `src/main.c`: int32 `fp_int_t`, int64 `fp_int_xl_t`, 14 integer bits and 18
  fractional bits.
  - Each macro and function is proved to agree with the template at that
    instantiation: mul, div, abs, frac and the constants.
  - `fp_floor`, `fp_ceil` and `fp_round` exist only in the C version. They round
    the magnitude: toward zero, away from zero, and half away from zero.
- `CInt` (cint.dfy) holds the C and C++20 integer semantics the three modules
  are built on:
  - `static_cast` to a narrower type is reduction modulo 2^bits;
  - `>>` on a signed value is arithmetic, that is floor division by 2^k;
  - `/` truncates toward zero;
  - `&` and `~` act on two's-complement bit patterns.

Integers are unbounded, and every narrowing is written out as `Cast`. Signed
`+` and `-` can overflow at either end of the type; unary `-` and `~a + 1`
overflow only at the minimum. Where the operands are `int` or wider (int32
storage, and everything in `src/main.c`) that overflow is undefined behaviour;
8- and 16-bit operands are promoted to `int` first, and unsigned arithmetic
wraps by definition. The model gives every such overflow the two's-complement
wrap-around that the narrowing casts have, in every module alike; "## Left out"
lists each place where this goes beyond what C or C++ defines.

The most negative value has no positive counterpart: the widened negation is
narrowed back, and `Abs` returns the minimum itself (`FixedPoint.Abs`,
`FixedPoint.AbsOfMinimum`).

## Model

The constant functions `FixedPoint.Zero`, `FixedPoint.Half`,
`FixedPoint.PosOne` and `FixedPoint.NegOne` carry no contracts of their own: the
`FixedPoint.ConstantValues` and `FixedPoint.ConstantMeanings` rows state what
they hold and what they stand for.

| member | source | states |
|---|---|---|
| CInt.Cast | src/fixed_point/fixed_point.hpp:153 | static_cast to a narrower type gives the one value of that type congruent to its operand modulo 2^bits |
| CInt.ShiftRight | src/fixed_point/fixed_point.hpp:108 | `x >> k` is the floor of x / 2^k, for negative x too |
| CInt.TruncDiv | src/fixed_point/fixed_point.hpp:161 | integer `/` truncates toward zero: \|q\|·\|d\| ≤ \|n\| < (\|q\|+1)·\|d\|, and a nonzero q is negative exactly when n and d have opposite signs |
| CInt.NotPlusOne | src/main.c:58 | `~a + 1` narrows to the same value as -a: it is two's-complement negation |
| FixedPoint.ConfigFacts | src/fixed_point/fixed_point.hpp:24-40 | under the template's concepts there is at least one fractional bit, f fits the storage's value bits, and the wide type has at least twice the storage's bits |
| FixedPoint.ScaleFactor | src/fixed_point/fixed_point.hpp:48 | kScaleFactor is a storage value, and it is 2^f whenever the integer bits leave room for +1 |
| FixedPoint.IntMask | src/fixed_point/fixed_point.hpp:51-54 | IntMask() is a storage value whose bit pattern is NumIntBits ones above f zeros (2^W - 2^f) |
| FixedPoint.FracMask | src/fixed_point/fixed_point.hpp:57-60 | FracMask() is 2^f - 1, f ones, and a storage value |
| FixedPoint.MasksPartition | src/fixed_point/fixed_point.hpp:51-60 | the two masks share no bit (their AND is 0) and together cover all W bits |
| FixedPoint.HalfValue | src/fixed_point/fixed_point.hpp:76-79 | Half() holds 2^(f-1), which fits the storage |
| FixedPoint.NegOneValue | src/fixed_point/fixed_point.hpp:86-90 | NegOne() holds -2^f when +1 is representable |
| FixedPoint.ConstantValues | src/fixed_point/fixed_point.hpp:71-90 | Zero, Half, PosOne and NegOne hold 0, 2^(f-1), 2^f and -2^f, all storage values (PosOne and NegOne when +1 is representable) |
| FixedPoint.ConstantMeanings | src/fixed_point/fixed_point.hpp:71-90 | Zero, Half, PosOne and NegOne stand for 0, 1/2, +1 and -1 (PosOne and NegOne when +1 is representable) |
| FixedPoint.FromInt | src/fixed_point/fixed_point.hpp:101-103 | Number(i) holds i·2^f reduced modulo 2^W, and exactly i·2^f when i fits NumIntBits bits |
| FixedPoint.IntPart | src/fixed_point/fixed_point.hpp:105-109 | IntPart() is the floor of value_/2^f and fits an integer of NumIntBits bits |
| FixedPoint.IntPartOfFromInt | src/fixed_point/fixed_point.hpp:101-109 | for every integer that fits, IntPart(Number(n)) == n and Number(n) stands for n |
| FixedPoint.SignBit | src/fixed_point/fixed_point.hpp:202-214 | SignBit is true exactly when the storage is signed and value_ < 0 |
| FixedPoint.Sign | src/fixed_point/fixed_point.hpp:216-228 | Sign is a storage value; when +1 is representable it stands for -1 for a negative signed number, +1 for any other signed one (zero included), and for unsigned 0 for zero and +1 otherwise |
| FixedPoint.SignMatchesSignBit | src/fixed_point/fixed_point.hpp:216-228 | when +1 is representable, signed: Sign(a) is NegOne() exactly when SignBit(a); unsigned: Sign(a) is Zero() exactly when a is zero, and SignBit is always false |
| FixedPoint.Abs | src/fixed_point/fixed_point.hpp:230-244 | unsigned: the identity; signed: the magnitude of value_, except that the storage minimum maps to itself |
| FixedPoint.AbsIsNarrowNegation | src/fixed_point/fixed_point.hpp:233-237 | for a negative signed number, negating in the wide type and narrowing gives the same value as negating in the storage type |
| FixedPoint.AbsIsMagnitude | src/fixed_point/fixed_point.hpp:230-244 | away from the signed minimum, Abs(a) stands for the absolute value of the rational a stands for |
| FixedPoint.AbsOfMinimum | src/fixed_point/fixed_point.hpp:230-244 | Abs of the signed minimum is the minimum itself, which stands for a negative rational |
| FixedPoint.FracPart | src/fixed_point/fixed_point.hpp:111-115 | FracPart(a) holds \|value_\| mod 2^f, a magnitude in [0, 2^f), never a signed residue |
| FixedPoint.FracPartValue | src/fixed_point/fixed_point.hpp:111-115 | masking Abs(a) with FracMask() keeps the low f bits of \|value_\|, the signed minimum included |
| FixedPoint.IntPartPlusFracPart | src/fixed_point/fixed_point.hpp:105-115 | a non-negative number is its integer part times 2^f plus its fractional part, as raw values and as rationals |
| FixedPoint.Neg | src/fixed_point/fixed_point.hpp:129-134 | unary minus negates value_, and wraps the signed minimum to itself |
| FixedPoint.NegInvolutive | src/fixed_point/fixed_point.hpp:129-134 | negating twice gives the number back, for every number |
| FixedPoint.NegOfFromInt | src/fixed_point/fixed_point.hpp:101-134 | -Number(n) == Number(-n) when n and -n fit |
| FixedPoint.IntPartOfNegated | src/fixed_point/fixed_point.hpp:101-134 | (-Number(n)).IntPart() == -n when n and -n fit |
| FixedPoint.Add | src/fixed_point/fixed_point.hpp:136-140 | the sum is a storage value congruent to the raw sum modulo 2^W (the defined wrap of unsigned storage), and it is the exact raw sum when that fits |
| FixedPoint.Sub | src/fixed_point/fixed_point.hpp:142-146 | the difference is a storage value congruent to the raw difference modulo 2^W (the defined wrap of unsigned storage), and it is the exact raw difference when that fits |
| FixedPoint.AddIsExact | src/fixed_point/fixed_point.hpp:136-140 | without overflow, a + b stands for the sum of the rationals |
| FixedPoint.SubIsExact | src/fixed_point/fixed_point.hpp:142-146 | without overflow, a - b stands for the difference of the rationals |
| FixedPoint.AddSubInverse | src/fixed_point/fixed_point.hpp:136-146 | (a + b) - b == a for every a and b, overflow included |
| FixedPoint.SubAddInverse | src/fixed_point/fixed_point.hpp:136-146 | (a - b) + b == a for every a and b, overflow included |
| FixedPoint.SubIsAddNeg | src/fixed_point/fixed_point.hpp:129-146 | for signed storage, a - b == a + (-b), the minimum included |
| FixedPoint.ProductFits | src/fixed_point/fixed_point.hpp:151-153 | the product of two widened operands never overflows the wide type |
| FixedPoint.Mul | src/fixed_point/fixed_point.hpp:148-154 | a * b is the floor of value_a·value_b / 2^f narrowed to the storage; the wide intermediate never wraps |
| FixedPoint.MulRoundsDown | src/fixed_point/fixed_point.hpp:148-154 | without overflow, a * b is the exact product of the rationals rounded down to a multiple of 2^-f |
| FixedPoint.MulByOne | src/fixed_point/fixed_point.hpp:148-154 | a * PosOne() == PosOne() * a == a (when +1 is representable) |
| FixedPoint.Div | src/fixed_point/fixed_point.hpp:156-162 | for a nonzero divisor, a / b is value_a·2^f divided by value_b with truncation, narrowed to the storage; the wide dividend never wraps |
| FixedPoint.DivTruncates | src/fixed_point/fixed_point.hpp:156-162 | without overflow, a / b is the exact quotient of the rationals truncated toward zero to a multiple of 2^-f, with the quotient's sign |
| FixedPoint.DivByOne | src/fixed_point/fixed_point.hpp:156-162 | a / PosOne() == a (when +1 is representable) |
| FixedPoint.DivBySelf | src/fixed_point/fixed_point.hpp:156-162 | a / a == PosOne() for every nonzero a |
| FixedPoint.Compare | src/fixed_point/fixed_point.hpp:196-197 | operator<=> orders numbers as the rationals they stand for |
| FixedPoint.Equals | src/fixed_point/fixed_point.hpp:199-200 | operator== holds exactly when the raw values are equal, which is exactly when the rationals are equal |
| FixedPoint.CompareAgreesWithEquals | src/fixed_point/fixed_point.hpp:196-200 | <=> answers "equal" exactly when == holds, and is antisymmetric |
| FixedPoint.ScaleFactorWraps | src/fixed_point/fixed_point.hpp:48 | with signed storage and one integer bit, kScaleFactor wraps to the storage minimum |
| FixedPoint.NegOneOfMinimum | src/fixed_point/fixed_point.hpp:86-90 | when kScaleFactor is the storage minimum, NegOne() is that minimum too |
| FixedPoint.NoIntBitsScaleFactorVanishes | src/fixed_point/fixed_point.hpp:26-48 | with no integer bits, which the concepts admit, kScaleFactor narrows to 0, so PosOne() is Zero(); with signed storage Half() narrows to the minimum, standing for -1/2 |
| FixedPoint.OneIntBitPosOneWraps | src/fixed_point/fixed_point.hpp:26 | with signed storage and one integer bit, PosOne() is the storage minimum, equal to NegOne() (for int32 storage only under the wrap of -INT_MIN), and stands for -1 |
| FixedPoint.NumberVar.constructor | src/fixed_point/fixed_point.hpp:93 | the default constructor holds Zero() |
| FixedPoint.NumberVar.AddAssign | src/fixed_point/fixed_point.hpp:164-169 | `+=` sets the number to old + other and returns the object itself |
| FixedPoint.NumberVar.SubAssign | src/fixed_point/fixed_point.hpp:171-176 | `-=` sets the number to old - other and returns the object itself |
| FixedPoint.NumberVar.MulAssign | src/fixed_point/fixed_point.hpp:178-185 | `*=` sets the number to old * other and returns the object itself |
| FixedPoint.NumberVar.DivAssign | src/fixed_point/fixed_point.hpp:187-194 | `/=` sets the number to old / other (nonzero other) and returns the object itself |
| FixedPointEarly.Header | src/main.cpp:20-33 | the earlier template is the later one with XLType as its wide type: a valid configuration with the same storage, integer bits and fractional bits |
| FixedPointEarly.ScaleFactor | src/main.cpp:31 | kScaleFactor equals the later class's |
| FixedPointEarly.IntMask | src/main.cpp:32 | kIntMask equals the later class's IntMask() |
| FixedPointEarly.FracMask | src/main.cpp:33 | kFracMask equals the later class's FracMask() |
| FixedPointEarly.Zero | src/main.cpp:44-47 | Zero() equals the later class's |
| FixedPointEarly.Half | src/main.cpp:49-52 | Half() equals the later class's |
| FixedPointEarly.PosOne | src/main.cpp:54-57 | PosOne() equals the later class's |
| FixedPointEarly.NegOne | src/main.cpp:59-63 | NegOne() equals the later class's |
| FixedPointEarly.ConstantValues | src/main.cpp:31-63 | the constants hold 0, 2^(f-1), 2^f and -2^f (PosOne and NegOne when +1 is representable); kFracMask is 2^f - 1 and kIntMask's pattern is IntBits ones above f zeros |
| FixedPointEarly.FromInt | src/main.cpp:74-76 | shifting in the narrow type gives the later class's Number(i) for every integer i, overflow included |
| FixedPointEarly.FromIntRoundTrip | src/main.cpp:74-76 | for an integer that fits, Number(n) holds n·2^f and its integer part is n |
| FixedPointEarly.Neg | src/main.cpp:90-95 | unary minus equals the later class's |
| FixedPointEarly.Add | src/main.cpp:97-101 | `+` equals the later class's |
| FixedPointEarly.Sub | src/main.cpp:103-107 | `-` equals the later class's |
| FixedPointEarly.AddSubInverse | src/main.cpp:97-107 | (a + b) - b == a |
| FixedPointEarly.Mul | src/main.cpp:109-115 | `*` through XLType equals the later class's |
| FixedPointEarly.Div | src/main.cpp:117-123 | `/` through XLType equals the later class's, for a nonzero divisor |
| FixedPointEarly.QuotientOperands | src/main.cpp:117-123 | the widened, shifted dividend and the widened divisor never wrap in XLType |
| FixedPointEarly.Compare | src/main.cpp:157-158 | `<=>` equals the later class's |
| FixedPointEarly.Equals | src/main.cpp:160-161 | `==` equals the later class's |
| FixedPointEarly.SignBit | src/main.cpp:163-175 | SignBit equals the later class's: set exactly for negative signed numbers |
| FixedPointEarly.Sign | src/main.cpp:177-189 | Sign equals the later class's |
| FixedPointEarly.Abs | src/main.cpp:191-203 | Abs, negating in the narrow type, equals the later class's, which negates in the wide type |
| FixedPointEarly.NarrowNegationAgrees | src/main.cpp:191-203 | the narrow negation gives the later class's Abs for every number, the minimum included |
| FixedPointEarly.AbsIsMagnitude | src/main.cpp:191-203 | Abs is the magnitude of value_ except at the signed minimum, which it maps to itself |
| FixedPointEarly.Frac | src/main.cpp:205-209 | Frac(a) equals the later class's FracPart(a) and lies in [0, 2^f) |
| FixedPointEarly.NumberVar.constructor | src/main.cpp:66 | the default constructor holds Zero() |
| FixedPointEarly.NumberVar.AddAssign | src/main.cpp:125-130 | `+=` sets the number to old + other and returns the object itself |
| FixedPointEarly.NumberVar.SubAssign | src/main.cpp:132-137 | `-=` sets the number to old - other and returns the object itself |
| FixedPointEarly.NumberVar.MulAssign | src/main.cpp:139-146 | `*=` sets the number to old * other and returns the object itself |
| FixedPointEarly.NumberVar.DivAssign | src/main.cpp:148-155 | `/=` sets the number to old / other (nonzero other) and returns the object itself |
| FixedPointC.CfgFacts | src/main.c:5-17 | the C version is the template at int32, int64 and 14 integer bits, a valid configuration with room for +1 and 18 fractional bits |
| FixedPointC.MacroValues | src/main.c:15-27 | FP_FRAC_BITS is 18, FP_SCALE_FACTOR 2^18, FP_VAL_HALF 2^17, FP_FRAC_MASK 2^18 - 1; FP_INT_MASK is ~FP_FRAC_MASK = -2^18, the template's IntMask() |
| FixedPointC.FromInt | src/main.c:25 | FP_FROM_INT(a) is an int, and it is a·2^18 for every a of 14 bits |
| FixedPointC.FromIntAgrees | src/main.c:25 | FP_FROM_INT(a) equals the template's Number(a) for every int a |
| FixedPointC.FromIntRoundTrip | src/main.c:25 | the integer part of FP_FROM_INT(n) is n for every n of 14 bits |
| FixedPointC.ValPosOne | src/main.c:28 | FP_VAL_POS_ONE is 2^18 |
| FixedPointC.ValNegOne | src/main.c:29 | FP_VAL_NEG_ONE is -2^18 |
| FixedPointC.ConstantsAgree | src/main.c:26-29 | FP_VAL_ZERO, FP_VAL_HALF, FP_VAL_POS_ONE and FP_VAL_NEG_ONE equal the template's Zero, Half, PosOne and NegOne |
| FixedPointC.SignBit | src/main.c:32 | FP_SIGN_BIT(a) is 1 exactly for negative a, and 0 otherwise |
| FixedPointC.Sign | src/main.c:33 | FP_SIGN(a) is -2^18 for negative a and 2^18 otherwise, zero included |
| FixedPointC.SignAgrees | src/main.c:32-33 | FP_SIGN equals the template's Sign for signed storage, and stands for -1 or +1 |
| FixedPointC.Mul | src/main.c:45-48 | fp_mul equals the template's `*` and is the floor of a·b / 2^18 narrowed to int |
| FixedPointC.Div | src/main.c:50-54 | fp_div equals the template's `/` and is a·2^18 divided by b with truncation, narrowed to int |
| FixedPointC.Abs | src/main.c:56-59 | fp_abs is the magnitude of a, non-negative, for every a but INT_MIN, which it maps to itself |
| FixedPointC.AbsAgrees | src/main.c:56-59 | fp_abs, negating as ~a + 1, equals the template's Abs |
| FixedPointC.Frac | src/main.c:61-64 | fp_frac(a) is \|a\| mod 2^18, in [0, 2^18) |
| FixedPointC.FracAgrees | src/main.c:61-64 | fp_frac equals the template's FracPart |
| FixedPointC.Floor | src/main.c:66-75 | fp_floor clears the fraction of the magnitude: a multiple of 2^18 with \|r\| = \|a\| - \|a\| mod 2^18, the sign of a kept, never wrapping |
| FixedPointC.ClearFraction | src/main.c:74 | FP_INT_MASK & a rounds a down to a multiple of 2^18 |
| FixedPointC.FloorIsTruncDiv | src/main.c:66-75 | fp_floor(a) is C's a / 2^18 scaled back: rounding toward zero, not toward minus infinity |
| FixedPointC.Ceil | src/main.c:77-81 | up to the largest whole number, fp_ceil rounds the magnitude up to a multiple of 2^18 and keeps the sign: away from zero |
| FixedPointC.CeilFits | src/main.c:77-81 | for an a off the whole numbers and at most the largest whole number, the rounded-down magnitude plus FP_SIGN(a) fits int and is the next whole number away from zero |
| FixedPointC.CeilWrapsAboveLargestWhole | src/main.c:77-81 | above 8191, fp_ceil's sum overflows and, wrapping, gives INT_MIN, which stands for -8192 |
| FixedPointC.Round | src/main.c:83-87 | up to the largest whole number, fp_round is the whole number nearest a, halves away from zero, with a's sign |

## Left out

- The float and double constructors and conversions, and `float_to_fp` and
  `fp_to_float`, are left out: they are floating-point numerics. The ghost
  `ToReal` gives the exact rational a number stands for.
- `operator<<` and the demo `main` functions are left out: they are console
  output.
- The unit tests in `src/test_fixed_point.cpp` are not part of this model. The
  properties they check are stated for every instantiation instead (for
  example `FixedPoint.IntPartOfFromInt`, `FixedPoint.IntPartOfNegated` and
  `FixedPoint.SignMatchesSignBit`). Most of them build numbers from floats.
- The `static_assert`s that reject unsigned negation and an unsigned NegOne are
  modelled as preconditions that the storage is signed.
- FixedPoint.Config.Valid requires at least one integer bit, which the
  template's concepts do not. With NumIntBits == 0 the configuration is
  degenerate: kScaleFactor narrows to 0, so PosOne() == Zero()
  (`FixedPoint.NoIntBitsScaleFactorVanishes`, see Findings). For 8- and 16-bit
  storage it compiles and is defined; for 32-bit storage `FracMask()` shifts a
  32-bit operand by 32, which is undefined. The operations are not modelled for
  these configurations.
- FixedPointEarly.Config.Valid carries the later template's bounds,
  1 <= IntBits < digits, but the earlier template has no concepts and compiles
  outside them. IntBits == 0 gives the same degenerate kScaleFactor of 0 as
  above (the formula is the same). IntBits equal to the digits or the width
  leaves one or no fractional bit; with none, kScaleFactor is 1 and `Half()`
  shifts by `kFracBits - 1`, which wraps around to the largest `std::size_t`:
  undefined. These configurations are not modelled.
- FixedPointEarly.Config.Valid admits 8- and 16-bit storage, although there the
  earlier template does not compile once its integer constructor or, for
  signed storage, its `kIntMask` is used: `value_{static_cast<IntType>(i) <<
  kFracBits}` narrows an `int` inside braces, and the `kIntMask` initializer
  exceeds int8 or int16. The model also covers these instantiations, giving
  them the values the later template computes.
- Signed overflow of `+` and `-` (at either end), of unary `-` and `~a + 1`
  (at the minimum) and of the `FP_INT_MASK` shift is undefined behaviour in C
  and C++ when the operands are `int` or wider. The model gives it
  two's-complement wrap-around and does not model a compiler that exploits it.
  This covers `FixedPoint.Add`, `FixedPoint.Sub` and `FixedPoint.Neg` for int32
  storage, their `FixedPointEarly` counterparts, and `FixedPointC.Abs`,
  `FixedPointC.Ceil` and `FixedPointC.Round`.
- FixedPoint.FracMask and FixedPointEarly.FracMask: for int32 storage with one
  integer bit, `(static_cast<IntType>(1) << 31) - 1` subtracts 1 from INT_MIN in
  `int`, which overflows (undefined); in the earlier template `kFracMask` is a
  constant initializer, so `Number<std::int32_t, 1>` is ill-formed there. The
  model gives the wrapped 2^31 - 1.
- FixedPoint.NegOne, and FixedPoint.Sign through it: for int32 storage with one
  integer bit kScaleFactor is INT_MIN, and `-kScaleFactor` overflows `int`
  (undefined); the model gives INT_MIN back. For 8- and 16-bit storage the
  negation is done in `int`, defined, and narrows to the same minimum.
- FixedPointEarly.NarrowNegationAgrees and FixedPointEarly.Abs: for int32
  storage the earlier `Abs` negates `value_` in `int`, which overflows at
  INT_MIN (undefined); the later class negates in the wide type, which is
  defined. Their equality at the minimum holds only under the wrap-around
  policy. For 8- and 16-bit storage the negation is done in `int` and is
  defined.
- FixedPointC.FromInt and FixedPointC.ValNegOne: in C, `a << FP_SCALE` is
  undefined when `a` is negative, and also when `a` is non-negative but a·2^18
  does not fit `int` (a >= 8192). So `FP_FROM_INT(a)` outside 0 <= a <= 8191,
  and `FP_VAL_NEG_ONE` (`FP_FROM_INT(-1)`), have no defined value. The model
  accepts every int and gives the two's-complement result, a·2^18 narrowed to
  int, which C++20 defines for `<<` and mainstream C compilers produce.
- FixedPointC.Div: `((fp_int_xl_t)(a) << FP_SCALE)` shifts a negative int64 when
  `a < 0`, undefined in C for the same reason; the model gives it a·2^18, which
  always fits int64.
- FixedPointC.Mul and FixedPointC.Div: `fp_mul` and `fp_div` return an int64
  value as `fp_int_t`; in C that conversion is implementation-defined when the
  value does not fit. The model reduces it modulo 2^32 (`CInt.Cast`), as C++20
  requires and mainstream C compilers do.
- `*this` returned by reference from the compound operators is modelled as an
  out-parameter that is the object itself. Chained assignment through that
  reference is not modelled separately.
- The `std::strong_ordering` that the defaulted `<=>` returns is modelled as an
  `Ordering` value (Less, Equal, Greater).
- `>>` on a negative value is arithmetic in the model. C++20 requires this.
  `src/main.c` relies on the implementation-defined behaviour of C, which every
  mainstream compiler gives.
- FixedPointC.Round: states nothing above the largest whole number 8191 beyond
  fitting int. There `fp_round` rounds down to 8191 or, through `fp_ceil`,
  wraps to INT_MIN (`FixedPointC.CeilWrapsAboveLargestWhole`).
- FixedPointC.Ceil: above the largest whole number its contract says only that
  the result is an int. What it then is, INT_MIN, is stated by
  `FixedPointC.CeilWrapsAboveLargestWhole`.
- FixedPoint.MulRoundsDown and FixedPoint.DivTruncates: they state the meaning
  on rationals only when the result fits the storage. Otherwise `FixedPoint.Mul`
  and `FixedPoint.Div` give the wrapped value.

## Findings

| source | as written | input that shows it | evidently intended | confidence | as-written member | corrected member |
|---|---|---|---|---|---|---|
| src/fixed_point/fixed_point.hpp:26 | `ValidIntBits` admits NumIntBits == 0, where f = W and the wide 2^W narrows to 0 | `Number<std::uint8_t, std::uint16_t, 0>`: kScaleFactor is 0, so PosOne() equals Zero() and stands for 0; with `std::int8_t` storage Half() holds -128 and stands for -1/2 | at least one integer bit (two for signed storage, `HasUnit`), so that PosOne() stands for +1 and Half() for 1/2 | not executed | FixedPoint.NoIntBitsScaleFactorVanishes | FixedPoint.ConstantMeanings |
| src/fixed_point/fixed_point.hpp:26 | `ValidIntBits` admits NumIntBits == 1 for a signed storage type, where f = W - 1 and 2^f does not fit, so kScaleFactor wraps | `Number<std::int8_t, std::int16_t, 1>`: PosOne() holds -128 = -2^7, stands for -1, and equals NegOne(), whose negation is done in `int` and narrows back to -128 (with int32 storage that negation of INT_MIN is undefined) | +1 representable: NumIntBits at least 2 for signed storage (`HasUnit`), so that PosOne() stands for +1 and NegOne() for -1 | not executed | FixedPoint.OneIntBitPosOneWraps | FixedPoint.ConstantMeanings |
