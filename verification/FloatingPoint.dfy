/** Widening of binary floating point numbers (IEEE 754-2008, sections 3.4 and 3.6).

    The code is generic in both formats. It is exact for zeros, infinities and NaNs; for every other
    number it is exact if and only if the exponent that the number needs is in the range of the wide
    format. A subnormal number needs one less for each shift that normalises it.
 */
module FloatingPoint {
  import opened Bits
  import opened Difference

  /** `BinaryN`: fraction in the low bits, then the exponent, then one sign bit. */
  datatype Format = Format(fractionWidth: nat, exponentWidth: nat) {
    predicate Valid() {
      && 0 < fractionWidth && 0 < exponentWidth
      && StorageWidth() <= 32
    }

    function StorageWidth(): nat {
      fractionWidth + exponentWidth + 1
    }

    function Bias(): nat
      requires 0 < exponentWidth
    {
      Pow2(exponentWidth - 1) - 1
    }

    function MaxExponent(): nat {
      Pow2(exponentWidth) - 1
    }

    function SignBitPos(): nat {
      fractionWidth + exponentWidth
    }

    // The three fields, as the code extracts them.

    function Sign(bits: nat): nat {
      And(Shr(bits, SignBitPos()), 1)
    }

    function Exponent(bits: nat): nat {
      And(Shr(bits, fractionWidth), Pow2(exponentWidth) - 1)
    }

    function Fraction(bits: nat): nat {
      And(bits, Pow2(fractionWidth) - 1)
    }
  }

  const BINARY16 := Format(10, 5)
  const BINARY24 := Format(16, 7)
  const BINARY32 := Format(23, 8)

  // ----- the meaning of a bit pattern

  /** 2 to the power of `e`. */
  ghost function TwoTo(e: int): (r: real)
    ensures r > 0.0
    decreases if e < 0 then -e else e
  {
    if e == 0 then 1.0 else if e > 0 then 2.0 * TwoTo(e - 1) else TwoTo(e + 1) / 2.0
  }

  /** `m` times 2 to the power of `e`. */
  ghost function Scaled(m: nat, e: int): real {
    m as real * TwoTo(e)
  }

  datatype Number = Infinity(negative: bool) | NaN(negative: bool, payload: real) | Finite(negative: bool, magnitude: real)

  ghost function Meaning(f: Format, bits: nat): Number
    requires f.Valid()
  {
    FieldsMean(f, f.Sign(bits) == 1, f.Exponent(bits), f.Fraction(bits))
  }

  ghost function FieldsMean(f: Format, negative: bool, exponent: nat, fraction: nat): Number
    requires f.Valid()
  {
    if exponent == f.MaxExponent() then
      if fraction == 0 then Infinity(negative) else NaN(negative, Scaled(fraction, 0 - f.fractionWidth))
    else if exponent == 0 then
      Finite(negative, Scaled(fraction, 1 - f.Bias() - f.fractionWidth))
    else
      Finite(negative, Normal(f, exponent, fraction))
  }

  /** 1.fraction times 2 to the power of the exponent less the bias; the exponent may be out of range. */
  ghost function Normal(f: Format, exponent: int, fraction: nat): real
    requires f.Valid()
  {
    Scaled(Pow2(f.fractionWidth) + fraction, exponent - f.Bias() - f.fractionWidth)
  }

  /** What the shift of the fraction asks for. */
  ghost predicate IsWider(narrow: Format, wide: Format) {
    narrow.Valid() && wide.Valid() && narrow.fractionWidth <= wide.fractionWidth
  }

  /** How often `v` must be doubled until bit `width` is set. */
  function Shifts(v: nat, width: nat): (k: nat)
    requires 0 < v
    decreases Pow2(width) - v
  {
    if Pow2(width) <= v then 0 else 1 + Shifts(2 * v, width)
  }

  predicate IsSubnormal(f: Format, bits: nat) {
    f.Exponent(bits) == 0 && f.Fraction(bits) != 0
  }

  predicate IsNormal(f: Format, bits: nat) {
    0 < f.Exponent(bits) < f.MaxExponent()
  }

  /** Whether the exponent that is needed is in range. */
  ghost predicate HasRoom(narrow: Format, wide: Format, bits: nat)
    requires IsWider(narrow, wide)
  {
    && (IsNormal(narrow, bits) ==>
          0 < narrow.Exponent(bits) - narrow.Bias() + wide.Bias() < wide.MaxExponent())
    && (IsSubnormal(narrow, bits) ==>
          Shifts(narrow.Fraction(bits), narrow.fractionWidth) <= wide.Bias() - narrow.Bias())
  }

  // ----- powers of two

  lemma {:induction false} TwoToUp(e: int, d: nat)
    ensures TwoTo(e + d) == Pow2(d) as real * TwoTo(e)
  {
    hide Pow2, TwoTo;
    if d == 0 {
      PowerZero();
    } else {
      TwoToUp(e, d - 1);
      TwoToNext(e + (d - 1));
      PowerNext(d - 1);
      Twice(Pow2(d), Pow2(d - 1), TwoTo(e));
    }
  }

  lemma PowerZero()
    ensures Pow2(0) == 1
  {
  }

  lemma PowerNext(n: nat)
    ensures Pow2(n + 1) == 2 * Pow2(n)
  {
  }

  lemma TwoToNext(e: int)
    ensures TwoTo(e + 1) == 2.0 * TwoTo(e)
  {
  }

  lemma Twice(p: nat, q: nat, r: real)
    requires p == 2 * q
    ensures p as real * r == 2.0 * (q as real * r)
  {
  }

  /** Shifting the significand and lowering the exponent keep the value. */
  lemma ScaledUp(m: nat, d: nat, e: int)
    ensures Scaled(m * Pow2(d), e) == Scaled(m, e + d)
  {
    hide Pow2, TwoTo;
    TwoToUp(e, d);
    Regroup(m, Pow2(d), TwoTo(e));
  }

  lemma Regroup(m: nat, p: nat, u: real)
    ensures (m * p) as real * u == m as real * (p as real * u)
  {
    assert (m * p) as real == m as real * p as real;
  }

  /** With the same exponent, equal values have equal significands. */
  lemma ScaledInjective(a: nat, b: nat, e: int)
    ensures Scaled(a, e) == Scaled(b, e) <==> a == b
  {
    hide TwoTo;
    Cancel(a as real, b as real, TwoTo(e));
  }

  lemma Cancel(a: real, b: real, u: real)
    requires u > 0.0
    ensures a * u == b * u <==> a == b
  {
    if a * u == b * u {
      assert (a - b) * u == 0.0;
    }
  }

  // ----- fields of a packed number

  lemma {:induction false} ShlOfShl(v: nat, j: nat, k: nat)
    ensures Shl(Shl(v, j), k) == Shl(v, j + k)
  {
    if k > 0 {
      ShlOfShl(v, j, k - 1);
    }
  }

  lemma {:induction false} OrOfShl(x: nat, y: nat, k: nat)
    ensures Or(Shl(x, k), Shl(y, k)) == Shl(Or(x, y), k)
  {
    if k > 0 {
      OrOfShl(x, y, k - 1);
      OrDouble(Shl(x, k - 1), Shl(y, k - 1));
    }
  }

  lemma OrDouble(a: nat, b: nat)
    ensures Or(2 * a, 2 * b) == 2 * Or(a, b)
  {
  }

  /** The three parts `or`-ed together: a row of high bits above the fraction. */
  lemma Packed(f: Format, sign: nat, high: nat, fraction: nat)
    requires f.Valid() && fraction < Pow2(f.fractionWidth)
    ensures
      var y := Or(Shl(sign, f.exponentWidth), high);
      Or(Or(Shl(sign, f.SignBitPos()), Shl(high, f.fractionWidth)), fraction) == Shl(y, f.fractionWidth) + fraction
  {
    ShlOfShl(sign, f.exponentWidth, f.fractionWidth);
    OrOfShl(Shl(sign, f.exponentWidth), high, f.fractionWidth);
    OrIsSum(Or(Shl(sign, f.exponentWidth), high), f.fractionWidth, fraction);
  }

  /** Its fields, whatever the high bits are. */
  lemma FieldsOfPacked(f: Format, y: nat, fraction: nat)
    requires f.Valid() && fraction < Pow2(f.fractionWidth)
    ensures
      var bits := Shl(y, f.fractionWidth) + fraction;
      && f.Fraction(bits) == fraction
      && f.Exponent(bits) == And(y, Pow2(f.exponentWidth) - 1) <= f.MaxExponent()
      && f.Sign(bits) == And(Shr(y, f.exponentWidth), 1)
  {
    AndLow(y, f.fractionWidth, fraction);
    ShrOfShl(y, f.fractionWidth, fraction);
    AndBound(y, Pow2(f.exponentWidth) - 1);
    ShrOfShr(Shl(y, f.fractionWidth) + fraction, f.fractionWidth, f.exponentWidth);
  }

  lemma {:induction false} ShrOfShr(v: nat, j: nat, k: nat)
    ensures Shr(Shr(v, j), k) == Shr(v, j + k)
  {
    if j > 0 {
      ShrOfShr(v / 2, j - 1, k);
    }
  }

  /** An exponent that fits is read back, and so is the sign. */
  lemma FieldsOfFitting(f: Format, sign: nat, exponent: nat, fraction: nat)
    requires f.Valid() && sign < 2 && exponent <= f.MaxExponent() && fraction < Pow2(f.fractionWidth)
    ensures
      var bits := Or(Or(Shl(sign, f.SignBitPos()), Shl(exponent, f.fractionWidth)), fraction);
      f.Sign(bits) == sign && f.Exponent(bits) == exponent && f.Fraction(bits) == fraction
  {
    hide Shl, Shr, Or, And, Pow2;
    Packed(f, sign, exponent, fraction);
    OrIsSum(sign, f.exponentWidth, exponent);
    var y := Shl(sign, f.exponentWidth) + exponent;
    FieldsOfPacked(f, y, fraction);
    AndLow(sign, f.exponentWidth, exponent);
    ShrOfShl(sign, f.exponentWidth, exponent);
    AndOne(sign);
  }

  lemma AndOne(v: nat)
    requires v < 2
    ensures And(v, 1) == v
  {
  }

  lemma FieldBounds(f: Format, bits: nat)
    requires f.Valid()
    ensures f.Sign(bits) < 2 && f.Exponent(bits) <= f.MaxExponent()
    ensures f.Fraction(bits) < Pow2(f.fractionWidth)
  {
    AndBound(Shr(bits, f.SignBitPos()), 1);
    AndBound(Shr(bits, f.fractionWidth), Pow2(f.exponentWidth) - 1);
    AndBound(bits, Pow2(f.fractionWidth) - 1);
  }

  // ----- values

  lemma Product3(a: nat, b: nat, c: nat)
    ensures a * b * c == a * c * b == a * (b * c)
  {
  }

  lemma MaxExponentOfBias(f: Format)
    requires f.Valid()
    ensures f.MaxExponent() == 2 * f.Bias() + 1
  {
  }

  lemma ExponentIsPositive(f: Format)
    requires f.Valid()
    ensures 0 < f.MaxExponent()
  {
    MaxExponentOfBias(f);
  }

  /** The same significand with another exponent is another value. */
  lemma OtherExponent(m: nat, d: int, e: int)
    requires 0 < m && d < e
    ensures Scaled(m, d) != Scaled(m, e)
  {
    hide Pow2, Scaled;
    var k := e - d;
    ScaledUp(m, k, d);
    ScaledInjective(m * Pow2(k), m, d);
    PowerNext(k - 1);
    Doubled(m, Pow2(k - 1));
  }

  lemma Doubled(m: nat, p: nat)
    requires 0 < m && 1 <= p
    ensures m * (2 * p) > m
  {
    Product3(m, 2, p);
    AtLeast(m * 2, p);
  }

  /** Without its leading one the fraction stands for no normal value, whatever its exponent. */
  lemma NeverWithoutLeadingOne(f: Format, fraction: nat, exponent: int)
    requires f.Valid() && fraction < Pow2(f.fractionWidth)
    ensures Scaled(fraction, 1 - f.Bias() - f.fractionWidth) != Normal(f, exponent, fraction)
  {
    hide Pow2, Scaled, Format.Bias;
    var one, e := Pow2(f.fractionWidth), exponent - f.Bias() - f.fractionWidth;
    if exponent <= 0 {
      var m := 1 - exponent;
      ScaledUp(fraction, m, e);
      ScaledInjective(fraction * Pow2(m), one + fraction, e);
      PowerNext(m - 1);
      NotAMultiple(fraction, Pow2(m - 1), f.fractionWidth);
    } else {
      var d := exponent - 1;
      ScaledUp(one + fraction, d, 1 - f.Bias() - f.fractionWidth);
      ScaledInjective(fraction, (one + fraction) * Pow2(d), 1 - f.Bias() - f.fractionWidth);
      AtLeast(one + fraction, Pow2(d));
    }
  }

  lemma NotAMultiple(fraction: nat, half: nat, n: nat)
    requires 1 <= half && fraction < Pow2(n)
    ensures fraction * (2 * half) != Pow2(n) + fraction
  {
    hide Pow2;
    NoOddFactor(fraction, 2 * half - 1, n);
    OneLess(fraction, 2 * half);
  }

  /** The heart of the matter. `exponent` is what the number needs; what ends up in the exponent field
      is the same if that is in range, and anything otherwise. Only the former keeps the value. */
  lemma RepresentableIff(wide: Format, negative: bool, fraction: nat, exponent: int, wideNegative: bool, field: nat)
    requires wide.Valid() && fraction < Pow2(wide.fractionWidth) && field <= wide.MaxExponent()
    requires 0 < exponent < wide.MaxExponent() ==> field == exponent && wideNegative == negative
    ensures FieldsMean(wide, wideNegative, field, fraction) == Finite(negative, Normal(wide, exponent, fraction))
            <==> 0 < exponent < wide.MaxExponent()
  {
    hide Pow2, Scaled, Format.Bias, Format.MaxExponent, Normal;
    NeverWithoutLeadingOne(wide, fraction, exponent);
    SameNormal(wide, field, exponent, fraction);
  }

  lemma SameNormal(f: Format, d: int, e: int, fraction: nat)
    requires f.Valid()
    ensures Normal(f, d, fraction) == Normal(f, e, fraction) <==> d == e
  {
    hide Pow2, Scaled, Format.Bias;
    var base := f.Bias() + f.fractionWidth;
    if d < e {
      OtherExponent(Pow2(f.fractionWidth) + fraction, d - base, e - base);
    } else if e < d {
      OtherExponent(Pow2(f.fractionWidth) + fraction, e - base, d - base);
    }
  }

  lemma OneLess(a: nat, p: nat)
    requires p >= 1
    ensures a * (p - 1) == a * p - a
  {
  }

  /** An odd number does not divide a power of two, except trivially. */
  lemma {:induction false} NoOddFactor(v: nat, q: nat, n: nat)
    requires q % 2 == 1
    ensures v * q == Pow2(n) ==> v == Pow2(n)
  {
    if v * q == Pow2(n) && n > 0 {
      HalfOfProduct(v, q);
      NoOddFactor(v / 2, q, n - 1);
    }
  }

  lemma HalfOfProduct(v: nat, q: nat)
    requires q % 2 == 1 && v * q % 2 == 0
    ensures v % 2 == 0 && v / 2 * q == v * q / 2
  {
    var h, j := v / 2, q / 2;
    assert v * q == (2 * h + v % 2) * q == 2 * (h * q) + v % 2 * q;
  }

  lemma AtLeast(a: nat, p: nat)
    requires p >= 1
    ensures a * p >= a
  {
  }

  // ----- the conversion

  /** `j` left shifts lead from `shifted` to `v`. */
  ghost predicate IsShifted(shifted: nat, j: nat, v: nat) {
    0 < v == shifted * Pow2(j)
  }

  lemma {:induction false} ShiftsScale(v: nat, width: nat, more: nat)
    requires 0 < v
    ensures 0 < v * Pow2(more) && Shifts(v * Pow2(more), width + more) == Shifts(v, width)
    decreases Pow2(width) - v
  {
    Pow2Sum(width, more);
    ScaledOrder(v, Pow2(width), Pow2(more));
    if v < Pow2(width) {
      ShiftsScale(2 * v, width, more);
      Product3(2, v, Pow2(more));
    }
  }

  lemma ScaledOrder(a: nat, b: nat, p: nat)
    requires p >= 1
    ensures a < b <==> a * p < b * p
    ensures a >= 1 ==> a * p >= 1
  {
    if a < b {
      assert (b - a) * p >= 1;
    } else {
      assert (a - b) * p >= 0;
    }
  }

  lemma TopBitTest(v: nat, width: nat)
    requires v < Pow2(width + 1)
    ensures And(v, Pow2(width)) != 0 <==> Pow2(width) <= v
  {
    AndBit(v, width);
    TopBitIsHalf(v, width);
  }

  lemma WithoutTopBit(v: nat, width: nat)
    requires Pow2(width) <= v < Pow2(width + 1)
    ensures And(v, Pow2(width) - 1) == v - Pow2(width)
  {
    hide And, Shl, Pow2;
    PowerNext(width);
    ShlIsProduct(1, width);
    AndLow(1, width, v - Pow2(width));
  }

  /** Below bit 32 nothing is lost by shifting. */
  lemma NoTruncation(v: nat, k: nat, n: nat)
    requires n + k <= 32 && v < Pow2(n)
    ensures Trunc(Shl(v, k), 32) == Shl(v, k) == v * Pow2(k) < Pow2(n + k)
  {
    TruncShl(v, k, 32);
    Pow2Monotone(n, 32 - k);
    TruncSmall(v, 32 - k);
    ShlIsProduct(v, k);
    Pow2Sum(n, k);
    ScaledOrder(v, Pow2(n), Pow2(k));
  }

  /** Conversion to the 32-bit unsigned type. */
  function Wrap32(x: int): (r: nat)
    ensures r < TWO_32
  {
    x % TWO_32
  }

  /** One turn of the normalising loop. */
  lemma OneMoreShift(shifted: nat, j: nat, v: nat, width: nat)
    requires IsShifted(shifted, j, v) && v < Pow2(width + 1) && And(v, Pow2(width)) == 0 && width < 32
    ensures
      var next := Trunc(Shl(v, 1), 32);
      && IsShifted(shifted, j + 1, next) && 0 < next < Pow2(width + 1)
      && Shifts(v, width) == 1 + Shifts(next, width)
  {
    TopBitTest(v, width);
    hide And;
    NoTruncation(v, 1, width);
    PowerNext(j);
    PowerZero();
    PowerNext(0);
    Product3(shifted, 2, Pow2(j));
  }

  lemma StartOfShifts(narrow: Format, wide: Format, narrowFraction: nat, shifted: nat)
    requires IsWider(narrow, wide) && 0 < narrowFraction < Pow2(narrow.fractionWidth)
    requires IsShifted(narrowFraction, wide.fractionWidth - narrow.fractionWidth, shifted)
    ensures 0 < shifted && IsShifted(shifted, 0, shifted)
    ensures shifted < Pow2(wide.fractionWidth) < Pow2(wide.fractionWidth + 1)
    ensures Shifts(shifted, wide.fractionWidth) == Shifts(narrowFraction, narrow.fractionWidth)
  {
    var more := wide.fractionWidth - narrow.fractionWidth;
    ShiftsScale(narrowFraction, narrow.fractionWidth, more);
    hide Shifts;
    Pow2Sum(narrow.fractionWidth, more);
    ScaledOrder(narrowFraction, Pow2(narrow.fractionWidth), Pow2(more));
    PowerZero();
    PowerNext(wide.fractionWidth);
  }

  /** The normalising loop: shifts until bit `width` is set, and counts the exponent down, in 32-bit
      arithmetic. */
  method ShiftUp(shifted: nat, width: nat, start: nat) returns (exponent: nat, v: nat)
    requires 0 < shifted && IsShifted(shifted, 0, shifted)
    requires shifted < Pow2(width + 1) && width < 32 && start < TWO_32
    ensures exponent == Wrap32(start - Shifts(shifted, width))
    ensures IsShifted(shifted, Shifts(shifted, width), v) && v < Pow2(width + 1) && And(v, Pow2(width)) != 0
  {
    hide Pow2, And, Shl, Trunc, Shifts, IsShifted, Wrap32;
    WrapSmall(start);
    ghost var j := 0;
    exponent, v := start, shifted;
    while And(v, Pow2(width)) == 0
      invariant IsShifted(shifted, j, v) && 0 < v < Pow2(width + 1)
      invariant exponent == Wrap32(start - j)
      invariant j + Shifts(v, width) == Shifts(shifted, width)
      decreases Shifts(v, width)
    {
      OneMoreShift(shifted, j, v, width);
      OneDown(start - j);
      exponent := Wrap32(exponent - 1);
      v := Trunc(Shl(v, 1), 32);
      j := j + 1;
    }
    EnoughShifts(v, width);
  }

  lemma WrapSmall(x: nat)
    requires x < TWO_32
    ensures Wrap32(x) == x
  {
  }

  lemma EnoughShifts(v: nat, width: nat)
    requires And(v, Pow2(width)) != 0 && v < Pow2(width + 1)
    ensures 0 < v && Shifts(v, width) == 0
  {
    hide And, Shifts;
    TopBitTest(v, width);
    NoShift(v, width);
  }

  /** Shifts the fraction of a subnormal number until its leading one becomes implicit, and takes
      each shift from the exponent. */
  method Normalise(narrow: Format, wide: Format, narrowFraction: nat, shifted: nat)
    returns (wideExponent: nat, wideFraction: nat)
    requires IsWider(narrow, wide) && 0 < narrowFraction < Pow2(narrow.fractionWidth)
    requires IsShifted(narrowFraction, wide.fractionWidth - narrow.fractionWidth, shifted)
    ensures wideFraction < Pow2(wide.fractionWidth) && wideExponent < TWO_32
    ensures
      var k := Shifts(narrowFraction, narrow.fractionWidth);
      && wideExponent == Wrap32(1 - narrow.Bias() + wide.Bias() - k)
      && IsShifted(shifted, k, Pow2(wide.fractionWidth) + wideFraction)
  {
    hide Pow2, Format.Bias, And, Shifts, IsShifted, Wrap32, ToUnsigned, Format.Valid;
    WidthFits(narrow);
    WidthFits(wide);
    ExponentIsPositive(narrow);
    StartOfShifts(narrow, wide, narrowFraction, shifted);
    RebiasedFits(narrow, wide, 1);
    wideExponent, wideFraction := ShiftUp(shifted, wide.fractionWidth, ToUnsigned(1 - narrow.Bias() + wide.Bias()));
    WrapTwice(1 - narrow.Bias() + wide.Bias(), Shifts(shifted, wide.fractionWidth));
    LeadingOne(wideFraction, wide.fractionWidth);
    wideFraction := And(wideFraction, Pow2(wide.fractionWidth) - 1);
  }

  lemma {:induction false} WrapTwice(x: int, k: nat)
    ensures Wrap32(Wrap32(x) - k) == Wrap32(x - k)
  {
    if k > 0 {
      WrapTwice(x, k - 1);
      OneDown(Wrap32(x) - (k - 1));
      OneDown(x - (k - 1));
    }
  }

  /** The loop ends with the leading one in place; masking takes it away. */
  lemma LeadingOne(v: nat, width: nat)
    requires And(v, Pow2(width)) != 0 && v < Pow2(width + 1)
    ensures Pow2(width) + And(v, Pow2(width) - 1) == v < 2 * Pow2(width)
  {
    hide And;
    TopBitTest(v, width);
    WithoutTopBit(v, width);
  }

  lemma NoShift(v: nat, width: nat)
    requires Pow2(width) <= v
    ensures 0 < v && Shifts(v, width) == 0
  {
  }

  lemma UnsignedIsWrap(x: int)
    requires -TWO_31 <= x < TWO_31
    ensures ToUnsigned(x) == Wrap32(x) && (0 <= x ==> Wrap32(x) == x)
  {
  }

  lemma OneDown(x: int)
    ensures Wrap32(Wrap32(x) - 1) == Wrap32(x - 1)
  {
  }

  lemma WidthFits(f: Format)
    requires f.Valid()
    ensures f.fractionWidth < 32 && 0 < f.exponentWidth
  {
  }

  /** Moving an exponent to the other bias stays within 32 bits. */
  lemma RebiasedFits(narrow: Format, wide: Format, exponent: nat)
    requires IsWider(narrow, wide) && exponent <= narrow.MaxExponent()
    ensures
      var x := exponent - narrow.Bias() + wide.Bias();
      -TWO_31 <= x < TWO_31 && ToUnsigned(x) == Wrap32(x) && (0 <= x ==> Wrap32(x) == x)
  {
    BiasIsSmall(narrow);
    BiasIsSmall(wide);
    MaxExponentOfBias(narrow);
    hide Format.Bias, Format.MaxExponent;
    UnsignedIsWrap(exponent - narrow.Bias() + wide.Bias());
  }

  lemma BiasIsSmall(f: Format)
    requires f.Valid()
    ensures f.Bias() < 0x4000_0000 && f.MaxExponent() < TWO_31 - 1
  {
    Pow2Monotone(f.exponentWidth, 30);
    PowersOfTwo();
    MaxExponentOfBias(f);
  }

  /** The three fields put together, in 32-bit arithmetic. An exponent out of range spills over into
      the sign, but not into the fraction. */
  method Pack(f: Format, sign: nat, exponent: nat, fraction: nat) returns (bits: nat)
    requires f.Valid() && sign < 2 && fraction < Pow2(f.fractionWidth) && exponent < TWO_32
    ensures f.Fraction(bits) == fraction && f.Exponent(bits) <= f.MaxExponent()
    ensures exponent <= f.MaxExponent() ==> f.Exponent(bits) == exponent && f.Sign(bits) == sign
  {
    hide And, Shr, Shl, Or, Trunc;
    bits := Or(Or(Trunc(Shl(sign, f.SignBitPos()), 32), Trunc(Shl(exponent, f.fractionWidth), 32)), fraction);
    NoTruncation(sign, f.SignBitPos(), 1);
    TruncShl(exponent, f.fractionWidth, 32);
    var high := Trunc(exponent, 32 - f.fractionWidth);
    Packed(f, sign, high, fraction);
    FieldsOfPacked(f, Or(Shl(sign, f.exponentWidth), high), fraction);
    if exponent <= f.MaxExponent() {
      Pow2Monotone(f.exponentWidth, 32 - f.fractionWidth);
      TruncSmall(exponent, 32 - f.fractionWidth);
      FieldsOfFitting(f, sign, exponent, fraction);
    }
  }

  // ----- what comes out

  /** The fraction is widened at its low end. */
  lemma WidenedFraction(narrow: Format, wide: Format, fraction: nat)
    requires IsWider(narrow, wide) && fraction < Pow2(narrow.fractionWidth)
    ensures
      var more := wide.fractionWidth - narrow.fractionWidth;
      Trunc(Shl(fraction, more), 32) == fraction * Pow2(more) < Pow2(wide.fractionWidth)
  {
    NoTruncation(fraction, wide.fractionWidth - narrow.fractionWidth, narrow.fractionWidth);
  }

  /** Infinities and NaNs keep their class, their sign and their payload. */
  lemma SpecialIsKept(narrow: Format, wide: Format, negative: bool, fraction: nat)
    requires IsWider(narrow, wide)
    ensures FieldsMean(wide, negative, wide.MaxExponent(), fraction * Pow2(wide.fractionWidth - narrow.fractionWidth))
            == FieldsMean(narrow, negative, narrow.MaxExponent(), fraction)
  {
    hide Pow2, Scaled, Format.MaxExponent, Format.Bias;
    var more := wide.fractionWidth - narrow.fractionWidth;
    ScaledUp(fraction, more, 0 - wide.fractionWidth);
    AtLeast(fraction, Pow2(more));
  }

  lemma ZeroIsKept(narrow: Format, wide: Format, negative: bool)
    requires IsWider(narrow, wide)
    ensures FieldsMean(wide, negative, 0, 0) == FieldsMean(narrow, negative, 0, 0) == Finite(negative, 0.0)
  {
    ExponentIsPositive(narrow);
    ExponentIsPositive(wide);
    hide Format.MaxExponent, Format.Bias, TwoTo;
    NothingScaled(1 - narrow.Bias() - narrow.fractionWidth);
    NothingScaled(1 - wide.Bias() - wide.fractionWidth);
  }

  lemma NothingScaled(e: int)
    ensures Scaled(0, e) == 0.0
  {
    hide TwoTo;
  }

  /** What a normal number needs: the same exponent above the bias. */
  lemma NormalNeeds(narrow: Format, wide: Format, exponent: nat, fraction: nat)
    requires IsWider(narrow, wide)
    ensures Normal(narrow, exponent, fraction)
            == Normal(wide, exponent - narrow.Bias() + wide.Bias(),
                      fraction * Pow2(wide.fractionWidth - narrow.fractionWidth))
  {
    hide Pow2, Scaled, Format.Bias;
    var more := wide.fractionWidth - narrow.fractionWidth;
    Pow2Sum(narrow.fractionWidth, more);
    Distribute(Pow2(narrow.fractionWidth), fraction, Pow2(more));
    ScaledUp(Pow2(narrow.fractionWidth) + fraction, more, exponent - narrow.Bias() - wide.fractionWidth);
  }

  lemma Distribute(a: nat, b: nat, c: nat)
    ensures (a + b) * c == a * c + b * c
  {
  }

  /** What a subnormal number needs: one less for each shift. */
  lemma SubnormalNeeds(narrow: Format, wide: Format, fraction: nat, k: nat, rest: nat)
    requires IsWider(narrow, wide)
    requires IsShifted(fraction * Pow2(wide.fractionWidth - narrow.fractionWidth), k, Pow2(wide.fractionWidth) + rest)
    ensures Scaled(fraction, 1 - narrow.Bias() - narrow.fractionWidth)
            == Normal(wide, 1 - narrow.Bias() + wide.Bias() - k, rest)
  {
    hide Pow2, Scaled, Format.Bias;
    var more := wide.fractionWidth - narrow.fractionWidth;
    ScaledUp(fraction, more, 1 - narrow.Bias() - wide.fractionWidth);
    ScaledUp(fraction * Pow2(more), k, 1 - narrow.Bias() - wide.fractionWidth - k);
  }

  lemma FirstShift(v: nat, width: nat)
    requires 0 < v < Pow2(width)
    ensures Shifts(v, width) > 0
  {
  }

  lemma PositiveProduct(v: nat, k: nat)
    requires 0 < v
    ensures IsShifted(v, k, v * Pow2(k))
  {
    AtLeast(v, Pow2(k));
  }

  /** A normal number only moves its exponent. */
  method ExtendNormal(narrow: Format, wide: Format, sign: nat, exponent: nat, fraction: nat, shifted: nat)
    returns (r: nat)
    requires IsWider(narrow, wide) && sign < 2 && 0 < exponent < narrow.MaxExponent()
    requires shifted == fraction * Pow2(wide.fractionWidth - narrow.fractionWidth) < Pow2(wide.fractionWidth)
    ensures Meaning(wide, r) == FieldsMean(narrow, sign == 1, exponent, fraction)
            <==> 0 < exponent - narrow.Bias() + wide.Bias() < wide.MaxExponent()
  {
    BiasIsSmall(wide);
    BiasIsSmall(narrow);
    hide Pow2, And, Shr, Shl, Or, Trunc, Format.Bias, Format.MaxExponent, Scaled, Normal;
    hide Format.Sign, Format.Exponent, Format.Fraction, Wrap32, ToUnsigned;
    ghost var needed := exponent - narrow.Bias() + wide.Bias();
    UnsignedIsWrap(needed);
    r := Pack(wide, sign, ToUnsigned(exponent - narrow.Bias() + wide.Bias()), shifted);
    NormalNeeds(narrow, wide, exponent, fraction);
    RepresentableIff(wide, sign == 1, shifted, needed, wide.Sign(r) == 1, wide.Exponent(r));
  }

  /** A subnormal number becomes a normal one. */
  method ExtendSubnormal(narrow: Format, wide: Format, sign: nat, fraction: nat, shifted: nat) returns (r: nat)
    requires IsWider(narrow, wide) && sign < 2 && 0 < fraction < Pow2(narrow.fractionWidth)
    requires shifted == fraction * Pow2(wide.fractionWidth - narrow.fractionWidth)
    ensures Meaning(wide, r) == FieldsMean(narrow, sign == 1, 0, fraction)
            <==> Shifts(fraction, narrow.fractionWidth) <= wide.Bias() - narrow.Bias()
  {
    MaxExponentOfBias(wide);
    ExponentIsPositive(narrow);
    BiasIsSmall(wide);
    FirstShift(fraction, narrow.fractionWidth);
    hide Pow2, And, Shr, Shl, Or, Trunc, Format.Bias, Format.MaxExponent, Scaled, Normal, Shifts, IsShifted;
    hide Format.Sign, Format.Exponent, Format.Fraction, Wrap32, ToUnsigned;
    PositiveProduct(fraction, wide.fractionWidth - narrow.fractionWidth);
    ghost var needed := 1 - narrow.Bias() + wide.Bias() - Shifts(fraction, narrow.fractionWidth);
    if needed >= 0 {
      UnsignedIsWrap(needed);
    }
    var wideExponent, wideFraction := Normalise(narrow, wide, fraction, shifted);
    r := Pack(wide, sign, wideExponent, wideFraction);
    SubnormalNeeds(narrow, wide, fraction, Shifts(fraction, narrow.fractionWidth), wideFraction);
    RepresentableIff(wide, sign == 1, wideFraction, needed, wide.Sign(r) == 1, wide.Exponent(r));
  }

  /** `extendBinaryFloatingPoint`: the meaning is kept if and only if there is room. */
  method ExtendBinaryFloatingPoint(narrow: Format, wide: Format, bits: nat) returns (r: nat)
    requires IsWider(narrow, wide) && bits < TWO_32
    ensures Meaning(wide, r) == Meaning(narrow, bits) <==> HasRoom(narrow, wide, bits)
  {
    FieldBounds(narrow, bits);
    ExponentIsPositive(narrow);
    ExponentIsPositive(wide);
    BiasIsSmall(wide);
    hide Pow2, And, Shr, Shl, Or, Trunc, Format.Bias, Format.MaxExponent, Shifts, FieldsMean;
    var sign := narrow.Sign(bits);
    var narrowExponent := narrow.Exponent(bits);
    var narrowFraction := narrow.Fraction(bits);
    hide Format.Sign, Format.Exponent, Format.Fraction;
    WidenedFraction(narrow, wide, narrowFraction);
    var wideFraction := Trunc(Shl(narrowFraction, wide.fractionWidth - narrow.fractionWidth), 32);
    if narrowExponent == narrow.MaxExponent() {
      SpecialIsKept(narrow, wide, sign == 1, narrowFraction);
      r := Pack(wide, sign, wide.MaxExponent(), wideFraction);
    } else if narrowExponent == 0 {
      if narrowFraction == 0 {
        ZeroIsKept(narrow, wide, sign == 1);
        PositivePower(wide.fractionWidth);
        r := Pack(wide, sign, 0, 0);
      } else {
        r := ExtendSubnormal(narrow, wide, sign, narrowFraction, wideFraction);
      }
    } else {
      r := ExtendNormal(narrow, wide, sign, narrowExponent, narrowFraction, wideFraction);
    }
  }

  lemma PositivePower(n: nat)
    ensures 0 < Pow2(n)
  {
  }

  // ----- when there is room

  lemma {:induction false} ShiftsBound(v: nat, k: nat, width: nat)
    requires k <= width && Pow2(k) <= v
    ensures Shifts(v, width) <= width - k
    decreases width - k
  {
    if k == width {
      NoShift(v, width);
    } else if v < Pow2(width) {
      PowerNext(k);
      ShiftsBound(2 * v, k + 1, width);
    }
  }

  lemma {:induction false} ShiftsOfPower(k: nat, width: nat)
    requires k <= width
    ensures Shifts(Pow2(k), width) == width - k
    decreases width - k
  {
    if k == width {
      NoShift(Pow2(k), width);
    } else {
      ShiftsOfPower(k + 1, width);
      Pow2Monotone(k + 1, width);
    }
  }

  /** The precondition that the source asks for: all numbers are widened exactly if and only if the
      biases differ by at least the width of the narrow fraction. */
  lemma ExactForAllIff(narrow: Format, wide: Format)
    requires IsWider(narrow, wide)
    ensures (forall bits: nat :: HasRoom(narrow, wide, bits))
            <==> narrow.fractionWidth <= wide.Bias() - narrow.Bias()
  {
    MaxExponentOfBias(narrow);
    MaxExponentOfBias(wide);
    hide Format.Bias, Format.MaxExponent, Shifts, Format.Exponent, Format.Fraction;
    forall bits: nat | IsSubnormal(narrow, bits)
      ensures Shifts(narrow.Fraction(bits), narrow.fractionWidth) <= narrow.fractionWidth
    {
      PowerZero();
      ShiftsBound(narrow.Fraction(bits), 0, narrow.fractionWidth);
    }
    SmallestSubnormal(narrow);
    if forall bits: nat :: HasRoom(narrow, wide, bits) {
      assert HasRoom(narrow, wide, 1);
    }
  }

  lemma SmallestSubnormal(f: Format)
    requires f.Valid()
    ensures IsSubnormal(f, 1) && f.Fraction(1) == 1 && Shifts(1, f.fractionWidth) == f.fractionWidth
  {
    PowerZero();
    Pow2Monotone(1, f.fractionWidth);
    FieldsOfPacked(f, 0, 1);
    ZeroFields(f);
    ShiftsOfPower(0, f.fractionWidth);
  }

  lemma ZeroFields(f: Format)
    ensures Shl(0, f.fractionWidth) == 0 && And(0, Pow2(f.exponentWidth) - 1) == 0
  {
    ShlIsProduct(0, f.fractionWidth);
  }

  /** Without that, the smallest subnormal already goes wrong: here is a pair of formats. */
  method NoRoomExample() returns (r: nat)
    ensures Meaning(Format(4, 2), r) != Meaning(Format(3, 2), 1)
  {
    SmallestSubnormal(Format(3, 2));
    assert Format(3, 2).Bias() == Format(4, 2).Bias();
    hide Format.Bias, Shifts, Meaning, Format.Exponent, Format.Fraction;
    r := ExtendBinaryFloatingPoint(Format(3, 2), Format(4, 2), 1);
  }

  /** Both conversions that the library uses are exact. */
  lemma UsesAreExact(bits: nat)
    ensures IsWider(BINARY16, BINARY32) && HasRoom(BINARY16, BINARY32, bits)
    ensures IsWider(BINARY24, BINARY32) && HasRoom(BINARY24, BINARY32, bits)
  {
    assert Pow2(4) == 16 && Pow2(6) == 64 && Pow2(7) == 128;
    ExactForAllIff(BINARY16, BINARY32);
    ExactForAllIff(BINARY24, BINARY32);
  }

  // ----- the formats in plain numbers

  lemma FieldsByDivision(f: Format, bits: nat)
    requires f.Valid()
    ensures f.Fraction(bits) == bits % Pow2(f.fractionWidth)
    ensures f.Exponent(bits) == bits / Pow2(f.fractionWidth) % Pow2(f.exponentWidth)
    ensures f.Sign(bits) == bits / Pow2(f.fractionWidth + f.exponentWidth) % 2
  {
    assert Pow2(1) == 2;
    hide And, Shr, Pow2;
    AndIsRemainder(bits, f.fractionWidth);
    ShrIsDivision(bits, f.fractionWidth);
    AndIsRemainder(Shr(bits, f.fractionWidth), f.exponentWidth);
    ShrIsDivision(bits, f.fractionWidth + f.exponentWidth);
    AndIsRemainder(Shr(bits, f.fractionWidth + f.exponentWidth), 1);
  }

  lemma FormatPowers()
    ensures Pow2(4) == 16 && Pow2(5) == 32 && Pow2(6) == 64 && Pow2(7) == 128 && Pow2(8) == 256
    ensures Pow2(10) == 1024 && Pow2(15) == 0x8000 && Pow2(16) == 0x1_0000
    ensures Pow2(23) == 0x80_0000 && Pow2(31) == 0x8000_0000
  {
    Pow2Sum(8, 7);
    Pow2Sum(8, 8);
    Pow2Sum(16, 7);
    Pow2Sum(16, 15);
  }

  /** What the three fields mean: `one` stands for the leading one, and `unit` is the power of two that
      goes with a subnormal fraction. */
  ghost function Value(negative: bool, exponent: nat, fraction: nat, special: nat, one: nat, unit: int): Number
    requires one > 0
  {
    if exponent == special then
      if fraction == 0 then Infinity(negative) else NaN(negative, fraction as real / one as real)
    else if exponent == 0 then Finite(negative, fraction as real * TwoTo(unit))
    else Finite(negative, (one + fraction) as real * TwoTo(exponent + unit - 1))
  }

  ghost function Value16(bits: nat): Number {
    Value(bits / 0x8000 % 2 == 1, bits / 1024 % 32, bits % 1024, 31, 1024, -24)
  }

  ghost function Value24(bits: nat): Number {
    Value(bits / 0x80_0000 % 2 == 1, bits / 0x1_0000 % 128, bits % 0x1_0000, 127, 0x1_0000, -78)
  }

  ghost function Value32(bits: nat): Number {
    Value(bits / 0x8000_0000 % 2 == 1, bits / 0x80_0000 % 256, bits % 0x80_0000, 255, 0x80_0000, -149)
  }

  lemma {:induction false} TwoToNegative(n: nat)
    ensures Pow2(n) as real * TwoTo(0 - n) == 1.0
  {
    TwoToUp(0 - n, n);
  }

  lemma MeaningIsValue(f: Format, bits: nat)
    requires f.Valid()
    ensures
      Meaning(f, bits) == Value(bits / Pow2(f.fractionWidth + f.exponentWidth) % 2 == 1,
                                bits / Pow2(f.fractionWidth) % Pow2(f.exponentWidth), bits % Pow2(f.fractionWidth),
                                Pow2(f.exponentWidth) - 1, Pow2(f.fractionWidth), 1 - f.Bias() - f.fractionWidth)
  {
    hide Pow2, Format.Sign, Format.Exponent, Format.Fraction, Value, FieldsMean, Format.Bias;
    FieldsByDivision(f, bits);
    FieldsAreValue(f, f.Sign(bits) == 1, f.Exponent(bits), f.Fraction(bits));
  }

  lemma FieldsAreValue(f: Format, negative: bool, exponent: nat, fraction: nat)
    requires f.Valid()
    ensures
      FieldsMean(f, negative, exponent, fraction) == Value(negative, exponent, fraction, Pow2(f.exponentWidth) - 1,
                                                           Pow2(f.fractionWidth), 1 - f.Bias() - f.fractionWidth)
  {
    PayloadIsQuotient(fraction, f.fractionWidth);
    hide Pow2, TwoTo, Format.Bias;
  }

  lemma PayloadIsQuotient(fraction: nat, n: nat)
    ensures Scaled(fraction, 0 - n) == fraction as real / Pow2(n) as real
  {
    hide TwoTo, Pow2;
    TwoToNegative(n);
    Quotient(fraction as real, Pow2(n) as real, TwoTo(0 - n));
  }

  lemma Quotient(a: real, p: real, t: real)
    requires p > 0.0 && p * t == 1.0
    ensures a * t == a / p
  {
    assert a * t * p == a * (p * t);
  }

  lemma MeaningOf16(bits: nat)
    ensures Meaning(BINARY16, bits) == Value16(bits)
  {
    FormatPowers();
    MeaningIsValue(BINARY16, bits);
  }

  lemma MeaningOf24(bits: nat)
    ensures Meaning(BINARY24, bits) == Value24(bits)
  {
    FormatPowers();
    MeaningIsValue(BINARY24, bits);
  }

  lemma MeaningOf32(bits: nat)
    ensures Meaning(BINARY32, bits) == Value32(bits)
  {
    FormatPowers();
    MeaningIsValue(BINARY32, bits);
  }

  /** binary16 to binary32, in plain numbers. */
  method Fp16ToFloat(fp16: nat) returns (r: nat)
    requires fp16 < 0x1_0000
    ensures Meaning(BINARY32, r) == Meaning(BINARY16, fp16)
    ensures Value32(r) == Value16(fp16)
  {
    hide Value32, Value16, Meaning;
    UsesAreExact(fp16);
    r := ExtendBinaryFloatingPoint(BINARY16, BINARY32, fp16);
    MeaningOf16(fp16);
    MeaningOf32(r);
  }

  /** And binary24 to binary32. */
  method Fp24ToFloat(fp24: nat) returns (r: nat)
    requires fp24 < TWO_32
    ensures Meaning(BINARY32, r) == Meaning(BINARY24, fp24)
    ensures Value32(r) == Value24(fp24)
  {
    hide Value32, Value24, Meaning;
    UsesAreExact(fp24);
    r := ExtendBinaryFloatingPoint(BINARY24, BINARY32, fp24);
    MeaningOf24(fp24);
    MeaningOf32(r);
  }
}
