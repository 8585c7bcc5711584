/** Difference coding: a category (a bit count) and that many bits (ITU-T T.81, F.1.2.1 and
    F.2.2.1). `Reduce` is the encoder's half, `Extend` the decoder's. */
module Difference {
  import opened Bits

  const INT_WIDTH: nat := 32
  const TWO_31: int := 0x8000_0000
  const TWO_32: int := 0x1_0000_0000

  lemma PowersOfTwo()
    ensures Pow2(31) == TWO_31 && Pow2(32) == TWO_32
  {
    assert Pow2(8) == 256;
    Pow2Sum(8, 8);
    Pow2Sum(16, 16);
  }

  /** `countl_zero` and `countl_one`: how many of the top bits of a `width`-bit number are `b`. */
  function CountLeading(v: nat, width: nat, b: bool): (n: nat)
    ensures n <= width
  {
    if width > 0 && Bit(v, width - 1) == b then 1 + CountLeading(v, width - 1, b) else 0
  }

  function NumActiveBits(v: nat): nat {
    INT_WIDTH - CountLeading(v, INT_WIDTH, false)
  }

  function NumSignificantBits(v: nat): nat {
    INT_WIDTH - CountLeading(v, INT_WIDTH, Bit(v, INT_WIDTH - 1)) + 1
  }

  function ExtractLowBitsSafe(v: nat, n: nat): nat
    requires n <= INT_WIDTH
  {
    if n == 0 then 0 else ExtractLowBits(v, n, INT_WIDTH)
  }

  /** Two's complement conversions between the signed and the unsigned 32-bit type. */
  function ToUnsigned(x: int): (u: nat)
    requires -TWO_31 <= x < TWO_31
    ensures u < TWO_32
  {
    if x < 0 then x + TWO_32 else x
  }

  function ToSigned(u: nat): (x: int)
    requires u < TWO_32
    ensures -TWO_31 <= x < TWO_31
  {
    if u < TWO_31 then u else u - TWO_32
  }

  datatype Reduced = Reduced(diff: nat, len: nat)

  /** `AbstractPrefixCodeEncoder::reduce`. */
  function Reduce(extendedDiff: int): Reduced
    requires -TWO_31 < extendedDiff < TWO_31
  {
    if extendedDiff >= 0 then
      Reduced(extendedDiff, NumActiveBits(extendedDiff))
    else
      var diff := ToUnsigned(extendedDiff - 1);
      SignificantBitsOfNegative(extendedDiff);
      var len := NumSignificantBits(diff) - 1;
      Reduced(ExtractLowBitsSafe(diff, len), len)
  }

  /** `AbstractPrefixCodeDecoder::extend`, Figure F.12. Not a sign extension. */
  function Extend(diff: nat, len: nat): int
    requires diff < TWO_32 && 0 < len < 32
  {
    var ret := ToSigned(diff);
    if !Bit(diff, len - 1) then ret - (Pow2(len) - 1) else ret
  }

  /** The category of a difference: the number of bits of its absolute value. */
  ghost predicate IsCategory(d: int, len: nat) {
    var a := if d < 0 then -d else d;
    a < Pow2(len) && (len > 0 ==> Pow2(len - 1) <= a)
  }

  lemma CategoryIsUnique(d: int, k: nat, l: nat)
    requires IsCategory(d, k) && IsCategory(d, l)
    ensures k == l
  {
    if k < l {
      Pow2Monotone(k, l - 1);
    } else if l < k {
      Pow2Monotone(l, k - 1);
    }
  }

  // ----- counting leading bits

  lemma {:induction false} TopBitIsHalf(v: nat, n: nat)
    requires v < Pow2(n + 1)
    ensures Bit(v, n) <==> Pow2(n) <= v
  {
    if n > 0 {
      TopBitIsHalf(v / 2, n - 1);
    }
  }

  lemma {:induction false} ClearTopBit(v: nat, n: nat, i: nat)
    requires Pow2(n) <= v < Pow2(n + 1) && i < n
    ensures Bit(v - Pow2(n), i) == Bit(v, i)
  {
    if i > 0 {
      assert (v - Pow2(n)) / 2 == v / 2 - Pow2(n - 1);
      ClearTopBit(v / 2, n - 1, i - 1);
    }
  }

  lemma {:induction false} LeadingZeros(v: nat, width: nat)
    requires v < Pow2(width)
    ensures IsCategory(v, width - CountLeading(v, width, false))
  {
    if width > 0 {
      TopBitIsHalf(v, width - 1);
      if !Bit(v, width - 1) {
        LeadingZeros(v, width - 1);
      }
    }
  }

  lemma {:induction false} LeadingOnes(v: nat, width: nat, n: nat)
    requires v < Pow2(width) && n <= width
    ensures CountLeading(v, n, true) == CountLeading(Not(v, width), n, false)
  {
    if n > 0 {
      BitNot(v, width, n - 1);
      LeadingOnes(v, width, n - 1);
    }
  }

  lemma SignificantBitsOfNegative(d: int)
    requires -TWO_31 < d < 0
    ensures
      var u := ToUnsigned(d - 1);
      1 <= NumSignificantBits(u) <= 32 && IsCategory(d, NumSignificantBits(u) - 1)
  {
    hide CountLeading;
    var u := ToUnsigned(d - 1);
    PowersOfTwo();
    assert u == TWO_32 + d - 1;
    TopBitIsHalf(u, 31);
    assert Not(u, 32) == -d;
    LeadingOnes(u, 32, 32);
    LeadingZeros(-d, 32);
    CategoryFits(d, 32 - CountLeading(u, 32, true));
  }

  lemma CategoryFits(d: int, len: nat)
    requires -TWO_31 < d < TWO_31 && IsCategory(d, len)
    ensures len < 32
  {
    if len >= 32 {
      PowersOfTwo();
      Pow2Monotone(31, len - 1);
    }
  }

  // ----- what the two functions mean

  /** The length is the category; a negative difference is shifted up by 2^len - 1. */
  lemma ReduceMeans(d: int)
    requires -TWO_31 < d < TWO_31
    ensures
      var r := Reduce(d);
      && r.len < 32 && IsCategory(d, r.len)
      && r.diff < Pow2(r.len)
      && r.diff == if d >= 0 then d else d + Pow2(r.len) - 1
  {
    PowersOfTwo();
    if d >= 0 {
      LeadingZeros(d, 32);
      CategoryFits(d, NumActiveBits(d));
    } else {
      SignificantBitsOfNegative(d);
      var u := ToUnsigned(d - 1);
      var len := NumSignificantBits(u) - 1;
      CategoryFits(d, len);
      LowBitsOfSum(u, len, d + Pow2(len) - 1);
    }
  }

  /** The low bits of a negative number are those of the number plus a power of two. */
  lemma LowBitsOfSum(u: nat, len: nat, low: nat)
    requires 0 < len < 32 && low < Pow2(len) && u == TWO_32 - Pow2(len) + low
    ensures ExtractLowBitsSafe(u, len) == low
  {
    var e := ExtractLowBits(u, len, INT_WIDTH);
    forall i: nat
      ensures Bit(e, i) == (i < len && Bit(u, i))
    {
      BitExtractLowBits(u, len, INT_WIDTH, i);
    }
    BoundFromBits(e, len);
    forall i: nat | i < len
      ensures Bit(e, i) == Bit(low, i)
    {
      PowersOfTwo();
      LowBit(len, 32 - len, low, i);
    }
    EqualByBits(e, low, len);
  }

  lemma HighOnes(len: nat, k: nat)
    ensures Pow2(len + k) - Pow2(len) == Shl(Pow2(k) - 1, len)
  {
    Pow2Sum(len, k);
    ShlIsProduct(Pow2(k) - 1, len);
    hide Shl, Pow2;
    assert (Pow2(k) - 1) * Pow2(len) == Pow2(k) * Pow2(len) - Pow2(len);
  }

  lemma LowBit(len: nat, k: nat, low: nat, i: nat)
    requires i < len && low < Pow2(len)
    ensures Pow2(len + k) >= Pow2(len) && Bit(Pow2(len + k) - Pow2(len) + low, i) == Bit(low, i)
  {
    hide Shl, Bit, Pow2;
    HighOnes(len, k);
    LowByteBit(Pow2(k) - 1, low, i, len);
  }

  /** Figure F.12 in closed form. */
  lemma ExtendMeans(diff: nat, len: nat)
    requires 0 < len < 32 && diff < Pow2(len)
    ensures Pow2(len) <= TWO_31 && diff < TWO_32
    ensures Extend(diff, len) == if Pow2(len - 1) <= diff then diff else diff - (Pow2(len) - 1)
  {
    PowersOfTwo();
    Pow2Monotone(len, 31);
    TopBitIsHalf(diff, len - 1);
  }

  /** The decoder undoes the encoder, for every difference a 32-bit integer can hold. */
  lemma ExtendOfReduce(d: int)
    requires -TWO_31 < d < TWO_31
    ensures Reduce(d).len == 0 <==> d == 0
    ensures d != 0 ==> Reduce(d).len < 32 && Reduce(d).diff < TWO_32
    ensures d != 0 ==> Extend(Reduce(d).diff, Reduce(d).len) == d
  {
    ReduceMeans(d);
    if d != 0 {
      ExtendMeans(Reduce(d).diff, Reduce(d).len);
    }
  }

  /** And the other way round: every bit pattern of a category is a difference of it. */
  lemma ReduceOfExtend(diff: nat, len: nat)
    requires 0 < len < 32 && diff < Pow2(len)
    ensures diff < TWO_32 && -TWO_31 < Extend(diff, len) < TWO_31
    ensures Reduce(Extend(diff, len)) == Reduced(diff, len)
  {
    ExtendMeans(diff, len);
    var d := Extend(diff, len);
    assert Pow2(len) == 2 * Pow2(len - 1);
    ReduceMeans(d);
    CategoryIsUnique(d, len, Reduce(d).len);
  }
}
