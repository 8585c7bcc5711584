/** Unsigned integers seen as rows of bits.

    Unsigned C++ integers are modelled by naturals. The shifts, masks and `or`s of the
    source are defined one bit at a time, so that every fact about them is a statement
    about single bits. Bit streams are sequences of booleans, first bit first.
 */
module Bits {

  type byte = x: nat | x < 256

  function Pow2(n: nat): (r: nat)
    ensures r >= 1
  {
    if n == 0 then 1 else 2 * Pow2(n - 1)
  }

  // ----- sequences and division

  lemma Concat<T>(a: seq<T>, b: seq<T>, c: seq<T>)
    ensures (a + b) + c == a + (b + c)
  {
  }

  lemma DivisionIsUnique(a: int, b: nat, q: int, r: nat)
    requires r < b && a == b * q + r
    ensures a / b == q && a % b == r
  {
    var q', r' := a / b, a % b;
    assert a == b * q' + r';
    MultipleGap(b, q - q', r' - r);
  }

  lemma MultipleGap(b: nat, d: int, e: int)
    requires b * d == e && 0 - b < e < b
    ensures d == 0
  {
    AtLeastOnce(b, d);
    AtLeastOnce(b, -d);
  }

  lemma AtLeastOnce(b: nat, d: int)
    ensures d >= 1 ==> b * d >= b
  {
    assert d >= 1 ==> b * (d - 1) >= 0;
  }

  /** The range of `int`. */
  predicate IsInt32(x: int) {
    -0x8000_0000 <= x < 0x8000_0000
  }

  // ----- single bits and the operators on them

  /** Bit `i` of `v`, counted from the least significant one. */
  predicate Bit(v: nat, i: nat) {
    if i == 0 then v % 2 == 1 else Bit(v / 2, i - 1)
  }

  /** `v << k`, without the truncation to the width of the type. */
  function Shl(v: nat, k: nat): nat {
    if k == 0 then v else 2 * Shl(v, k - 1)
  }

  /** `v >> k`. */
  function Shr(v: nat, k: nat): nat {
    if k == 0 then v else Shr(v / 2, k - 1)
  }

  /** The low `n` bits of `v`: conversion to an `n`-bit unsigned type. */
  function Trunc(v: nat, n: nat): nat {
    if n == 0 then 0 else 2 * Trunc(v / 2, n - 1) + v % 2
  }

  /** `a | b`. */
  function Or(a: nat, b: nat): nat
    decreases a + b
  {
    if a == 0 && b == 0 then 0
    else 2 * Or(a / 2, b / 2) + (if a % 2 == 1 || b % 2 == 1 then 1 else 0)
  }

  /** `a ^ b`. */
  function Xor(a: nat, b: nat): nat
    decreases a + b
  {
    if a == 0 && b == 0 then 0
    else 2 * Xor(a / 2, b / 2) + (if a % 2 != b % 2 then 1 else 0)
  }

  /** `a & b`. */
  function And(a: nat, b: nat): nat {
    if a == 0 || b == 0 then 0
    else 2 * And(a / 2, b / 2) + (if a % 2 == 1 && b % 2 == 1 then 1 else 0)
  }

  // ----- bits as sequences

  /** The low `n` bits of `v`, most significant first. */
  function MsbBits(v: nat, n: nat): (s: seq<bool>)
    ensures |s| == n
  {
    if n == 0 then [] else MsbBits(v / 2, n - 1) + [v % 2 == 1]
  }

  /** The number whose bits, most significant first, are `s`. */
  function MsbValue(s: seq<bool>): nat {
    if s == [] then 0
    else 2 * MsbValue(s[..|s| - 1]) + (if s[|s| - 1] then 1 else 0)
  }

  /** The low `n` bits of `v`, least significant first. */
  function LsbBits(v: nat, n: nat): (s: seq<bool>)
    ensures |s| == n
  {
    if n == 0 then [] else [v % 2 == 1] + LsbBits(v / 2, n - 1)
  }

  function Zeros(n: nat): (s: seq<bool>)
    ensures |s| == n
  {
    seq(n, _ => false)
  }

  /** `~v` in a `width`-bit type. */
  function Not(v: nat, width: nat): nat
    requires v < Pow2(width)
  {
    Pow2(width) - 1 - v
  }

  /** `extractLowBits` on a `width`-bit type: shift the other bits out at the top. */
  function ExtractLowBits(v: nat, n: nat, width: nat): nat
    requires 0 < n <= width
  {
    Shr(Trunc(Shl(v, width - n), width), width - n)
  }

  /** `extractHighBits`: the top `n` of `effectiveBitwidth` bits. */
  function ExtractHighBits(v: nat, n: nat, effectiveBitwidth: nat): nat
    requires n <= effectiveBitwidth
  {
    Shr(v, effectiveBitwidth - n)
  }

  // ----- single bits of the operations

  lemma {:induction false} BitShl(v: nat, k: nat, i: nat)
    ensures Bit(Shl(v, k), i) == (i >= k && Bit(v, i - k))
  {
    if k > 0 && i > 0 {
      assert Shl(v, k) / 2 == Shl(v, k - 1);
      BitShl(v, k - 1, i - 1);
    }
  }

  lemma {:induction false} BitShr(v: nat, k: nat, i: nat)
    ensures Bit(Shr(v, k), i) == Bit(v, i + k)
  {
    if k > 0 {
      BitShr(v / 2, k - 1, i);
    }
  }

  lemma HalfOfTrunc(v: nat, n: nat)
    requires n > 0
    ensures Trunc(v, n) / 2 == Trunc(v / 2, n - 1) && Trunc(v, n) % 2 == v % 2
  {
  }

  lemma {:induction false} BitTrunc(v: nat, n: nat, i: nat)
    ensures Bit(Trunc(v, n), i) == (i < n && Bit(v, i))
  {
    if n == 0 {
      BitZero(i);
    } else {
      HalfOfTrunc(v, n);
      hide Bit, Trunc;
      BitOfHalf(v, i);
      BitOfHalf(Trunc(v, n), i);
      if i > 0 {
        BitTrunc(v / 2, n - 1, i - 1);
      }
    }
  }

  lemma {:induction false} BitZero(i: nat)
    ensures !Bit(0, i)
  {
    if i > 0 {
      BitZero(i - 1);
    }
  }

  lemma HalfAndLowBit(x: nat, b: nat)
    requires b < 2
    ensures (2 * x + b) / 2 == x && (2 * x + b) % 2 == b
  {
  }

  /** What `|` does to the low bit and to the others. */
  lemma HalfOfOr(a: nat, b: nat)
    ensures Or(a, b) / 2 == Or(a / 2, b / 2)
    ensures Or(a, b) % 2 == 1 <==> a % 2 == 1 || b % 2 == 1
  {
    HalfAndLowBit(Or(a / 2, b / 2), if a % 2 == 1 || b % 2 == 1 then 1 else 0);
  }

  lemma BitOfHalf(v: nat, i: nat)
    ensures Bit(v, i) == if i == 0 then v % 2 == 1 else Bit(v / 2, i - 1)
  {
  }

  lemma {:induction false} BitOr(a: nat, b: nat, i: nat)
    ensures Bit(Or(a, b), i) == (Bit(a, i) || Bit(b, i))
    decreases i
  {
    hide Bit, Or;
    BitOfHalf(a, i);
    BitOfHalf(b, i);
    BitOfHalf(Or(a, b), i);
    HalfOfOr(a, b);
    if i > 0 {
      BitOr(a / 2, b / 2, i - 1);
    }
  }

  lemma HalfOfXor(a: nat, b: nat)
    ensures Xor(a, b) / 2 == Xor(a / 2, b / 2)
    ensures Xor(a, b) % 2 == 1 <==> a % 2 != b % 2
  {
    HalfAndLowBit(Xor(a / 2, b / 2), if a % 2 != b % 2 then 1 else 0);
  }

  lemma {:induction false} BitXor(a: nat, b: nat, i: nat)
    ensures Bit(Xor(a, b), i) == (Bit(a, i) != Bit(b, i))
    decreases i
  {
    hide Bit, Xor;
    BitOfHalf(a, i);
    BitOfHalf(b, i);
    BitOfHalf(Xor(a, b), i);
    HalfOfXor(a, b);
    if i > 0 {
      BitXor(a / 2, b / 2, i - 1);
    }
  }

  lemma {:induction false} BitAnd(a: nat, b: nat, i: nat)
    ensures Bit(And(a, b), i) == (Bit(a, i) && Bit(b, i))
  {
    if a == 0 || b == 0 {
      BitZero(i);
    } else if i > 0 {
      assert And(a, b) / 2 == And(a / 2, b / 2);
      BitAnd(a / 2, b / 2, i - 1);
    }
  }

  lemma HalfOfNot(v: nat, width: nat)
    requires 0 < width && v < Pow2(width)
    ensures Not(v, width) / 2 == Not(v / 2, width - 1)
    ensures Not(v, width) % 2 == 1 - v % 2
  {
    var half := v / 2;
    assert v == 2 * half + v % 2 && Pow2(width) == 2 * Pow2(width - 1);
  }

  lemma {:induction false} BitNot(v: nat, width: nat, i: nat)
    requires v < Pow2(width)
    ensures Bit(Not(v, width), i) == (i < width && !Bit(v, i))
  {
    if width == 0 {
      BitZero(i);
    } else if i > 0 {
      HalfOfNot(v, width);
      BitNot(v / 2, width - 1, i - 1);
    }
  }

  /** `~(~0 >> k)` keeps exactly the top `k` bits. */
  function HighMask(k: nat, width: nat): nat {
    LowMaskBits(k, width);
    Not(Shr(Not(0, width), k), width)
  }

  lemma LowMaskBits(k: nat, width: nat)
    ensures Shr(Not(0, width), k) < Pow2(width)
    ensures forall i: nat :: Bit(Shr(Not(0, width), k), i) == (i + k < width)
  {
    forall i: nat
      ensures Bit(Shr(Not(0, width), k), i) == (i + k < width)
    {
      BitShr(Not(0, width), k, i);
      BitNot(0, width, i + k);
      BitZero(i + k);
    }
    BoundFromBits(Shr(Not(0, width), k), width);
  }

  lemma HighMaskBits(k: nat, width: nat, i: nat)
    ensures Bit(HighMask(k, width), i) == (width - k <= i < width)
  {
    LowMaskBits(k, width);
    BitNot(Shr(Not(0, width), k), width, i);
  }

  lemma BitExtractLowBits(v: nat, n: nat, width: nat, i: nat)
    requires 0 < n <= width
    ensures Bit(ExtractLowBits(v, n, width), i) == (i < n && Bit(v, i))
  {
    var k := width - n;
    BitShr(Trunc(Shl(v, k), width), k, i);
    BitTrunc(Shl(v, k), width, i + k);
    BitShl(v, k, i + k);
  }

  lemma {:induction false} HighBitsZero(v: nat, n: nat, i: nat)
    requires v < Pow2(n) && n <= i
    ensures !Bit(v, i)
  {
    if n == 0 {
      BitZero(i);
    } else {
      HighBitsZero(v / 2, n - 1, i - 1);
    }
  }

  /** A number is bounded by a power of two as soon as its high bits are zero. */
  lemma {:induction false} BoundFromBits(v: nat, n: nat)
    requires forall i: nat :: n <= i ==> !Bit(v, i)
    ensures v < Pow2(n)
  {
    if n > 0 {
      forall i: nat | n - 1 <= i
        ensures !Bit(v / 2, i)
      {
        assert !Bit(v, i + 1);
      }
      BoundFromBits(v / 2, n - 1);
    } else if v > 0 {
      var i := TopBit(v);
    }
  }

  lemma {:induction false} TopBit(v: nat) returns (i: nat)
    requires v > 0
    ensures Bit(v, i)
  {
    if v == 1 {
      i := 0;
    } else {
      var j := TopBit(v / 2);
      i := j + 1;
    }
  }

  /** Two numbers with the same low bits and no high ones are the same. */
  lemma {:induction false} EqualByBits(a: nat, b: nat, n: nat)
    requires a < Pow2(n) && b < Pow2(n)
    requires forall i: nat :: i < n ==> Bit(a, i) == Bit(b, i)
    ensures a == b
  {
    if n > 0 {
      assert Bit(a, 0) == Bit(b, 0);
      forall i: nat | i < n - 1
        ensures Bit(a / 2, i) == Bit(b / 2, i)
      {
        assert Bit(a, i + 1) == Bit(b, i + 1);
      }
      EqualByBits(a / 2, b / 2, n - 1);
    }
  }

  // ----- single bits of the sequences

  lemma {:induction false} MsbBitsAt(v: nat, n: nat, j: nat)
    requires j < n
    ensures MsbBits(v, n)[j] == Bit(v, n - 1 - j)
  {
    if j < n - 1 {
      MsbBitsAt(v / 2, n - 1, j);
    }
  }

  lemma {:induction false} LsbBitsAt(v: nat, n: nat, j: nat)
    requires j < n
    ensures LsbBits(v, n)[j] == Bit(v, j)
  {
    if j > 0 {
      LsbBitsAt(v / 2, n - 1, j - 1);
    }
  }

  lemma {:induction false} MsbValueBound(s: seq<bool>)
    ensures MsbValue(s) < Pow2(|s|)
  {
    if s != [] {
      MsbValueBound(s[..|s| - 1]);
    }
  }

  lemma {:induction false} MsbBitsOfValue(s: seq<bool>)
    ensures MsbBits(MsbValue(s), |s|) == s
  {
    if s != [] {
      MsbBitsOfValue(s[..|s| - 1]);
      assert MsbValue(s) / 2 == MsbValue(s[..|s| - 1]);
      assert s == s[..|s| - 1] + [s[|s| - 1]];
    }
  }

  lemma {:induction false} MsbValueOfBits(v: nat, n: nat)
    ensures MsbValue(MsbBits(v, n)) == Trunc(v, n)
  {
    if n > 0 {
      MsbValueOfBits(v / 2, n - 1);
      assert MsbBits(v, n)[..n - 1] == MsbBits(v / 2, n - 1);
    }
  }

  lemma {:induction false} TruncSmall(v: nat, n: nat)
    ensures Trunc(v, n) < Pow2(n)
    ensures v < Pow2(n) ==> Trunc(v, n) == v
  {
    if n > 0 {
      TruncSmall(v / 2, n - 1);
    }
  }

  /** Numbers below 2^n are determined by their `n` bits. */
  lemma MsbBitsInjective(a: nat, b: nat, n: nat)
    requires a < Pow2(n) && b < Pow2(n)
    requires MsbBits(a, n) == MsbBits(b, n)
    ensures a == b
  {
    MsbValueOfBits(a, n);
    MsbValueOfBits(b, n);
    TruncSmall(a, n);
    TruncSmall(b, n);
  }

  lemma {:induction false} LsbBitsInjective(a: nat, b: nat, n: nat)
    requires a < Pow2(n) && b < Pow2(n)
    requires LsbBits(a, n) == LsbBits(b, n)
    ensures a == b
  {
    if n > 0 {
      assert LsbBits(a, n)[0] == LsbBits(b, n)[0];
      assert LsbBits(a, n)[1..] == LsbBits(a / 2, n - 1);
      assert LsbBits(b, n)[1..] == LsbBits(b / 2, n - 1);
      LsbBitsInjective(a / 2, b / 2, n - 1);
    }
  }

  lemma {:induction false} MsbValueSplit(s: seq<bool>, t: seq<bool>)
    ensures MsbValue(s + t) == Shl(MsbValue(s), |t|) + MsbValue(t)
  {
    if t == [] {
      assert s + t == s;
    } else {
      assert (s + t)[..|s + t| - 1] == s + t[..|t| - 1];
      MsbValueSplit(s, t[..|t| - 1]);
    }
  }

  /** Appending bits to a number: `(v << n) | w` when `w` has at most `n` bits. */
  lemma {:induction false} OrIsSum(v: nat, n: nat, w: nat)
    requires w < Pow2(n)
    ensures Or(Shl(v, n), w) == Shl(v, n) + w
  {
    if n == 0 {
      OrZero(v);
    } else {
      assert Shl(v, n) / 2 == Shl(v, n - 1);
      OrIsSum(v, n - 1, w / 2);
    }
  }

  lemma {:induction false} OrZero(v: nat)
    ensures Or(v, 0) == v
  {
    if v > 0 {
      OrZero(v / 2);
    }
  }

  lemma {:induction false} ShlIsProduct(v: nat, k: nat)
    ensures Shl(v, k) == v * Pow2(k)
  {
    if k > 0 {
      ShlIsProduct(v, k - 1);
      assert v * Pow2(k) == 2 * (v * Pow2(k - 1));
    }
  }

  lemma {:induction false} Pow2Monotone(a: nat, b: nat)
    requires a <= b
    ensures Pow2(a) <= Pow2(b)
  {
    if a < b {
      Pow2Monotone(a, b - 1);
    }
  }

  lemma {:induction false} Pow2Sum(a: nat, b: nat)
    ensures Pow2(a + b) == Pow2(a) * Pow2(b)
  {
    if b > 0 {
      Pow2Sum(a, b - 1);
    }
  }

  lemma {:induction false} OrCommutes(a: nat, b: nat)
    ensures Or(a, b) == Or(b, a)
    decreases a + b
  {
    if a != 0 || b != 0 {
      OrCommutes(a / 2, b / 2);
    }
  }

  /** `or`-ing into the low bits leaves the high ones alone. */
  lemma {:induction false} OrLow(x: nat, k: nat, a: nat, b: nat)
    requires a < Pow2(k) && b < Pow2(k)
    ensures Or(Shl(x, k) + a, b) == Shl(x, k) + Or(a, b)
  {
    if k == 0 {
      OrZero(x);
    } else {
      assert (Shl(x, k) + a) / 2 == Shl(x, k - 1) + a / 2;
      OrLow(x, k - 1, a / 2, b / 2);
    }
  }

  /** Masking with 2^k - 1 keeps the low `k` bits. */
  lemma {:induction false} AndBound(a: nat, b: nat)
    ensures And(a, b) <= b
  {
    if a != 0 && b != 0 {
      AndBound(a / 2, b / 2);
    }
  }

  lemma {:induction false} AndLow(x: nat, k: nat, a: nat)
    requires a < Pow2(k)
    ensures And(Shl(x, k) + a, Pow2(k) - 1) == a
  {
    if k > 0 {
      assert (Shl(x, k) + a) / 2 == Shl(x, k - 1) + a / 2;
      assert (Pow2(k) - 1) / 2 == Pow2(k - 1) - 1;
      AndLow(x, k - 1, a / 2);
      if a == 0 {
        AndZero(Shl(x, k - 1));
      }
    }
  }

  lemma AndZero(v: nat)
    ensures And(v, 0) == 0
  {
  }

  /** Masking with 2^k tests bit `k`. */
  lemma {:induction false} AndBit(v: nat, k: nat)
    ensures And(v, Pow2(k)) == if Bit(v, k) then Pow2(k) else 0
  {
    if v == 0 {
      BitZero(k);
    } else if k > 0 {
      assert Pow2(k) / 2 == Pow2(k - 1);
      AndBit(v / 2, k - 1);
    }
  }

  lemma {:induction false} TruncShl(v: nat, k: nat, n: nat)
    requires k <= n
    ensures Trunc(Shl(v, k), n) == Shl(Trunc(v, n - k), k)
  {
    if k > 0 {
      assert Shl(v, k) / 2 == Shl(v, k - 1);
      TruncShl(v, k - 1, n - 1);
    }
  }

  lemma {:induction false} TruncOfSum(x: nat, n: nat, a: nat)
    requires a < Pow2(n)
    ensures Trunc(Shl(x, n) + a, n) == a
  {
    if n > 0 {
      assert (Shl(x, n) + a) / 2 == Shl(x, n - 1) + a / 2;
      TruncOfSum(x, n - 1, a / 2);
    }
  }

  lemma {:induction false} ShlOfShr(v: nat, k: nat)
    ensures Shl(Shr(v, k), k) <= v < Shl(Shr(v, k), k) + Pow2(k)
  {
    if k > 0 {
      ShlOfShr(v / 2, k - 1);
    }
  }

  lemma {:induction false} ShrOfShl(x: nat, k: nat, r: nat)
    requires r < Pow2(k)
    ensures Shr(Shl(x, k) + r, k) == x
  {
    if k > 0 {
      assert (Shl(x, k) + r) / 2 == Shl(x, k - 1) + r / 2;
      ShrOfShl(x, k - 1, r / 2);
    }
  }

  // ----- shifts and masks by division

  lemma {:induction false} ShrIsDivision(v: nat, k: nat)
    ensures Shr(v, k) == v / Pow2(k)
  {
    if k > 0 {
      ShrIsDivision(v / 2, k - 1);
      DivideTwice(v, Pow2(k - 1));
    }
  }

  lemma DivideTwice(v: nat, p: nat)
    requires p > 0
    ensures v / 2 / p == v / (2 * p)
  {
    var q, r := v / 2 / p, v / 2 % p;
    assert v / 2 == p * q + r && v == 2 * (v / 2) + v % 2;
    assert 2 * p * q == 2 * (p * q);
    DivisionIsUnique(v, 2 * p, q, 2 * r + v % 2);
  }

  lemma {:induction false} TruncIsRemainder(v: nat, n: nat)
    ensures Trunc(v, n) == v % Pow2(n)
  {
    if n > 0 {
      TruncIsRemainder(v / 2, n - 1);
      RemainderOfDouble(v, Pow2(n - 1));
    }
  }

  lemma RemainderOfDouble(v: nat, p: nat)
    requires p > 0
    ensures 2 * (v / 2 % p) + v % 2 == v % (2 * p)
  {
    var q, r := v / 2 / p, v / 2 % p;
    assert v / 2 == p * q + r && v == 2 * (v / 2) + v % 2;
    assert 2 * p * q == 2 * (p * q);
    DivisionIsUnique(v, 2 * p, q, 2 * r + v % 2);
  }

  /** `&` with a row of ones keeps the low bits. */
  lemma {:induction false} AndIsRemainder(v: nat, n: nat)
    ensures And(v, Pow2(n) - 1) == v % Pow2(n)
  {
    hide And;
    ShlOfShr(v, n);
    var low := v - Shl(Shr(v, n), n);
    AndLow(Shr(v, n), n, low);
    ShlIsProduct(Shr(v, n), n);
    assert Shr(v, n) * Pow2(n) == Pow2(n) * Shr(v, n);
    DivisionIsUnique(v, Pow2(n), Shr(v, n), low);
  }

  // ----- bytes and multi-byte integers

  /** The integer whose bytes in memory are `bs`, little-endian. */
  function LittleEndian(bs: seq<byte>): nat {
    if bs == [] then 0 else bs[0] + 256 * LittleEndian(bs[1..])
  }

  /** The integer whose bytes in memory are `bs`, big-endian: a byte-swapped load. */
  function BigEndian(bs: seq<byte>): nat {
    if bs == [] then 0 else 256 * BigEndian(bs[..|bs| - 1]) + bs[|bs| - 1]
  }

  /** The `n` bytes of `v` in memory, little-endian. */
  function ToLittleEndian(v: nat, n: nat): (bs: seq<byte>)
    ensures |bs| == n
  {
    if n == 0 then [] else [v % 256] + ToLittleEndian(v / 256, n - 1)
  }

  /** The `n` bytes of `v` in memory, big-endian. */
  function ToBigEndian(v: nat, n: nat): (bs: seq<byte>)
    ensures |bs| == n
  {
    if n == 0 then [] else ToBigEndian(v / 256, n - 1) + [v % 256]
  }

  lemma BitOfBytePair(hi: nat, b: byte, i: nat)
    ensures Bit(256 * hi + b, i) == if i < 8 then Bit(b, i) else Bit(hi, i - 8)
  {
    var v := 256 * hi + b;
    assert Shr(v, 8) == hi by { ShrEight(v); }
    if i < 8 {
      LowByteBit(hi, b, i, 8);
    } else {
      BitShr(v, 8, i - 8);
    }
  }

  lemma ShrEight(v: nat)
    ensures Shr(v, 8) == v / 256
  {
    assert Pow2(8) == 256;
    hide Shl, Shr, Pow2;
    ShlIsProduct(v / 256, 8);
    ShrOfShl(v / 256, 8, v % 256);
  }

  lemma {:induction false} LowByteBit(hi: nat, b: nat, i: nat, k: nat)
    requires i < k
    ensures Bit(Shl(hi, k) + b, i) == Bit(b, i)
    ensures k == 8 ==> Shl(hi, k) == 256 * hi
  {
    if k == 8 {
      ShlIsProduct(hi, 8);
      assert Pow2(8) == 256;
    }
    if i > 0 {
      assert (Shl(hi, k) + b) / 2 == Shl(hi, k - 1) + b / 2;
      LowByteBit(hi, b / 2, i - 1, k - 1);
    }
  }

  lemma {:induction false} BitOfLittleEndian(bs: seq<byte>, i: nat)
    requires i < 8 * |bs|
    ensures Bit(LittleEndian(bs), i) == Bit(bs[i / 8], i % 8)
  {
    BitOfBytePair(LittleEndian(bs[1..]), bs[0], i);
    if i >= 8 {
      BitOfLittleEndian(bs[1..], i - 8);
    }
  }

  lemma {:induction false} BitOfBigEndian(bs: seq<byte>, i: nat)
    requires i < 8 * |bs|
    ensures Bit(BigEndian(bs), i) == Bit(bs[|bs| - 1 - i / 8], i % 8)
  {
    BitOfBytePair(BigEndian(bs[..|bs| - 1]), bs[|bs| - 1], i);
    if i >= 8 {
      BitOfBigEndian(bs[..|bs| - 1], i - 8);
    }
  }

  lemma ByteIndex(n: nat, j: nat)
    requires j < 8 * n
    ensures (8 * n - 1 - j) / 8 == n - 1 - j / 8 && (8 * n - 1 - j) % 8 == 7 - j % 8
  {
  }

  /** Reading a big-endian integer from its top bit is reading its bytes in order. */
  lemma MsbOfBigEndian(bs: seq<byte>, j: nat)
    requires j < 8 * |bs|
    ensures MsbBits(BigEndian(bs), 8 * |bs|)[j] == Bit(bs[j / 8], 7 - j % 8)
  {
    MsbBitsAt(BigEndian(bs), 8 * |bs|, j);
    BitOfBigEndian(bs, 8 * |bs| - 1 - j);
    ByteIndex(|bs|, j);
  }

  /** Reading a little-endian integer from its top bit is reading its bytes backwards. */
  lemma MsbOfLittleEndian(bs: seq<byte>, j: nat)
    requires j < 8 * |bs|
    ensures MsbBits(LittleEndian(bs), 8 * |bs|)[j] == Bit(bs[|bs| - 1 - j / 8], 7 - j % 8)
  {
    MsbBitsAt(LittleEndian(bs), 8 * |bs|, j);
    BitOfLittleEndian(bs, 8 * |bs| - 1 - j);
    ByteIndex(|bs|, j);
  }

  lemma LsbOfLittleEndian(bs: seq<byte>, j: nat)
    requires j < 8 * |bs|
    ensures LsbBits(LittleEndian(bs), 8 * |bs|)[j] == Bit(bs[j / 8], j % 8)
  {
    LsbBitsAt(LittleEndian(bs), 8 * |bs|, j);
    BitOfLittleEndian(bs, j);
  }

  lemma {:induction false} EndianBound(bs: seq<byte>)
    ensures LittleEndian(bs) < Pow2(8 * |bs|) && BigEndian(bs) < Pow2(8 * |bs|)
  {
    if bs != [] {
      EndianBound(bs[1..]);
      EndianBound(bs[..|bs| - 1]);
      Pow2Sum(8 * (|bs| - 1), 8);
      assert Pow2(8) == 256;
    }
  }

  lemma {:induction false} BitOfToLittleEndian(v: nat, n: nat, k: nat, i: nat)
    requires k < n && i < 8
    ensures Bit(ToLittleEndian(v, n)[k], i) == Bit(v, 8 * k + i)
  {
    BitOfBytePair(v / 256, v % 256, if k == 0 then i else 8 * k + i);
    if k > 0 {
      BitOfToLittleEndian(v / 256, n - 1, k - 1, i);
    }
  }

  lemma {:induction false} BitOfToBigEndian(v: nat, n: nat, k: nat, i: nat)
    requires k < n && i < 8
    ensures Bit(ToBigEndian(v, n)[k], i) == Bit(v, 8 * (n - 1 - k) + i)
  {
    BitOfBytePair(v / 256, v % 256, 8 * (n - 1 - k) + i);
    if k < n - 1 {
      BitOfToBigEndian(v / 256, n - 1, k, i);
    }
  }

  /** `getByteSwapped` on an `n`-byte integer. */
  function ByteSwap(v: nat, n: nat): nat {
    BigEndian(ToLittleEndian(v, n))
  }

  lemma {:induction false} LittleEndianRoundTrip(v: nat, n: nat)
    requires v < Pow2(8 * n)
    ensures LittleEndian(ToLittleEndian(v, n)) == v
  {
    if n > 0 {
      Pow2Sum(8 * (n - 1), 8);
      assert Pow2(8) == 256;
      assert ToLittleEndian(v, n)[1..] == ToLittleEndian(v / 256, n - 1);
      LittleEndianRoundTrip(v / 256, n - 1);
    }
  }

  lemma {:induction false} BigEndianRoundTrip(v: nat, n: nat)
    requires v < Pow2(8 * n)
    ensures BigEndian(ToBigEndian(v, n)) == v
  {
    if n > 0 {
      Pow2Sum(8 * (n - 1), 8);
      assert Pow2(8) == 256;
      assert ToBigEndian(v, n)[..n - 1] == ToBigEndian(v / 256, n - 1);
      BigEndianRoundTrip(v / 256, n - 1);
    }
  }

  lemma {:induction false} BigIsReversedLittle(v: nat, n: nat, k: nat)
    requires k < n
    ensures ToBigEndian(v, n)[k] == ToLittleEndian(v, n)[n - 1 - k]
  {
    if k < n - 1 {
      BigIsReversedLittle(v / 256, n - 1, k);
    }
  }

  /** Writing a byte-swapped integer low byte first is writing it big-endian. */
  lemma {:induction false} ByteSwapIsBigEndian(v: nat, n: nat)
    ensures ToLittleEndian(ByteSwap(v, n), n) == ToBigEndian(v, n)
  {
    var bs := ToLittleEndian(v, n);
    forall k: nat | k < n
      ensures ToLittleEndian(BigEndian(bs), n)[k] == ToBigEndian(v, n)[k]
    {
      BigIsReversedLittle(v, n, k);
      LittleOfBigEndian(bs, k);
    }
  }

  lemma {:induction false} LittleOfBigEndian(bs: seq<byte>, k: nat)
    requires k < |bs|
    ensures ToLittleEndian(BigEndian(bs), |bs|)[k] == bs[|bs| - 1 - k]
  {
    var init, last := bs[..|bs| - 1], bs[|bs| - 1];
    DivisionIsUnique(BigEndian(bs), 256, BigEndian(init), last);
    if k > 0 {
      LittleOfBigEndian(init, k - 1);
    }
  }
}
