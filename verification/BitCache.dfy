/** The 64-bit cache that every bit stream reads from or writes through.

    The source copies these two small structures by value, so they are values here and the
    streams that own one assign to their `cache` field.
 */
module BitCache {
  import opened Bits

  const CACHE_SIZE: nat := 64
  const MAX_GET_BITS: nat := 32

  /** A first-in first-out queue of at most 64 bits, in one of two layouts:
      filled from the left and emptied on the right, or filled from the right and emptied
      on the left. */
  datatype Cache =
    | LeftInRightOut(bits: nat, fillLevel: nat)
    | RightInLeftOut(bits: nat, fillLevel: nat)
  {
    /** The vacant bits are zero: `Push` only ever `or`s new bits in. */
    ghost predicate Valid() {
      && bits < Pow2(CACHE_SIZE)
      && fillLevel <= CACHE_SIZE
      && match this
         case LeftInRightOut(_, _) => bits < Pow2(fillLevel)
         case RightInLeftOut(_, _) => MsbBits(bits, CACHE_SIZE)[fillLevel..] == Zeros(CACHE_SIZE - fillLevel)
    }

    /** The vacant bits, one by one. */
    lemma VacantBitsAreZero()
      requires Valid()
      ensures LeftInRightOut? ==> forall i: nat :: fillLevel <= i ==> !Bit(bits, i)
      ensures RightInLeftOut? ==> forall i: nat :: i < CACHE_SIZE - fillLevel ==> !Bit(bits, i)
    {
      if LeftInRightOut? {
        forall i: nat | fillLevel <= i
          ensures !Bit(bits, i)
        {
          HighBitsZero(bits, fillLevel, i);
        }
      } else {
        forall i: nat | i < CACHE_SIZE - fillLevel
          ensures !Bit(bits, i)
        {
          MsbBitsAt(bits, CACHE_SIZE, CACHE_SIZE - 1 - i);
          assert MsbBits(bits, CACHE_SIZE)[fillLevel..][CACHE_SIZE - 1 - i - fillLevel]
              == MsbBits(bits, CACHE_SIZE)[CACHE_SIZE - 1 - i];
        }
      }
    }

    /** The converse: what a new cache has to show. */
    static lemma ValidFromBits(c: Cache)
      requires c.fillLevel <= CACHE_SIZE
      requires forall i: nat :: CACHE_SIZE <= i ==> !Bit(c.bits, i)
      requires c.LeftInRightOut? ==> forall i: nat :: c.fillLevel <= i ==> !Bit(c.bits, i)
      requires c.RightInLeftOut? ==> forall i: nat :: i < CACHE_SIZE - c.fillLevel ==> !Bit(c.bits, i)
      ensures c.Valid()
    {
      BoundFromBits(c.bits, CACHE_SIZE);
      if c.LeftInRightOut? {
        BoundFromBits(c.bits, c.fillLevel);
      } else {
        forall j: nat | c.fillLevel <= j < CACHE_SIZE
          ensures !MsbBits(c.bits, CACHE_SIZE)[j]
        {
          MsbBitsAt(c.bits, CACHE_SIZE, j);
        }
      }
    }

    /** The order in which this layout hands out the bits of a number. */
    function Row(v: nat, n: nat): (s: seq<bool>)
      ensures |s| == n
    {
      match this
      case LeftInRightOut(_, _) => LsbBits(v, n)
      case RightInLeftOut(_, _) => MsbBits(v, n)
    }

    /** The queued bits, next one to be read first. */
    ghost function Contents(): (s: seq<bool>)
      requires Valid()
      ensures |s| == fillLevel
    {
      match this
      case LeftInRightOut(_, _) => LsbBits(bits, fillLevel)
      case RightInLeftOut(_, _) => MsbBits(bits, CACHE_SIZE)[..fillLevel]
    }

    /** Appends the low `count` bits of `b` to the queue. */
    function Push(b: nat, count: nat): (c: Cache)
      requires Valid()
      requires b < Pow2(count)
      requires count + fillLevel <= CACHE_SIZE && fillLevel < CACHE_SIZE
      ensures c.LeftInRightOut? == LeftInRightOut?
      ensures c.Valid() && c.Contents() == Contents() + Row(b, count)
      ensures c.fillLevel == fillLevel + count
    {
      match this
      case LeftInRightOut(_, _) =>
        PushLeft(b, count);
        LeftInRightOut(Or(bits, Trunc(Shl(b, fillLevel), CACHE_SIZE)), fillLevel + count)
      case RightInLeftOut(_, _) =>
        PushRight(b, count);
        var emptyBitsGap := CACHE_SIZE - fillLevel - count;
        RightInLeftOut(if count != 0 then Or(bits, Trunc(Shl(b, emptyBitsGap), CACHE_SIZE)) else bits,
                       fillLevel + count)
    }

    /** The next `count` bits, as a number. */
    function Peek(count: nat): (v: nat)
      requires Valid()
      requires 0 < count <= MAX_GET_BITS && count <= fillLevel
      ensures v < Pow2(count) && Row(v, count) == Contents()[..count]
    {
      match this
      case LeftInRightOut(_, _) =>
        PeekRight(count);
        ExtractLowBits(Trunc(bits, MAX_GET_BITS), count, MAX_GET_BITS)
      case RightInLeftOut(_, _) =>
        PeekLeft(count);
        ExtractHighBits(bits, count, CACHE_SIZE)
    }

    /** Drops the next `count` bits. */
    function Skip(count: nat): (c: Cache)
      requires Valid()
      requires count <= fillLevel && count < CACHE_SIZE
      ensures c.LeftInRightOut? == LeftInRightOut?
      ensures c.Valid() && c.Contents() == Contents()[count..]
      ensures c.fillLevel == fillLevel - count
    {
      match this
      case LeftInRightOut(_, _) =>
        SkipRight(count);
        LeftInRightOut(Shr(bits, count), fillLevel - count)
      case RightInLeftOut(_, _) =>
        SkipLeft(count);
        RightInLeftOut(Trunc(Shl(bits, count), CACHE_SIZE), fillLevel - count)
    }

    /** Takes back the last `count` bits and tops the queue up with zero bits: what the JPEG
        streamer does when it has already pushed the 0xFF of a marker. */
    function UnpushAndPad(count: nat): (c: Cache)
      requires Valid() && RightInLeftOut? && 0 < count <= fillLevel
      ensures c.RightInLeftOut? && c.Valid()
      ensures c.Contents() == Contents()[..fillLevel - count] + Zeros(CACHE_SIZE - (fillLevel - count))
      ensures c.fillLevel == CACHE_SIZE
    {
      Unpush(count);
      var kept := fillLevel - count;
      RightInLeftOut(And(bits, HighMask(kept, CACHE_SIZE)), CACHE_SIZE)
    }

    // ----- proofs

    lemma Unpush(count: nat)
      requires Valid() && RightInLeftOut? && 0 < count <= fillLevel
      ensures
        var kept := fillLevel - count;
        var c := RightInLeftOut(And(bits, HighMask(kept, CACHE_SIZE)), CACHE_SIZE);
        c.Valid() && c.Contents() == Contents()[..kept] + Zeros(CACHE_SIZE - kept)
    {
      hide HighMask;
      var kept := fillLevel - count;
      var mask := HighMask(kept, CACHE_SIZE);
      var c := RightInLeftOut(And(bits, mask), CACHE_SIZE);
      forall i: nat
        ensures Bit(c.bits, i) == (CACHE_SIZE - kept <= i < CACHE_SIZE && Bit(bits, i))
      {
        BitAnd(bits, mask, i);
        HighMaskBits(kept, CACHE_SIZE, i);
      }
      ValidFromBits(c);
      forall j: nat | j < CACHE_SIZE
        ensures c.Contents()[j] == (Contents()[..kept] + Zeros(CACHE_SIZE - kept))[j]
      {
        MsbBitsAt(c.bits, CACHE_SIZE, j);
        MsbBitsAt(bits, CACHE_SIZE, j);
      }
    }

    lemma PushLeft(b: nat, count: nat)
      requires LeftInRightOut? && Valid() && b < Pow2(count) && count + fillLevel <= CACHE_SIZE
      ensures
        var c := LeftInRightOut(Or(bits, Trunc(Shl(b, fillLevel), CACHE_SIZE)), fillLevel + count);
        c.Valid() && c.Contents() == Contents() + Row(b, count)
    {
      hide Bit, LsbBits, Pow2, Or, Trunc, Shl;
      var c := LeftInRightOut(Or(bits, Trunc(Shl(b, fillLevel), CACHE_SIZE)), fillLevel + count);
      VacantBitsAreZero();
      forall i: nat
        ensures Bit(c.bits, i) == (Bit(bits, i) || (fillLevel <= i < CACHE_SIZE && Bit(b, i - fillLevel)))
        ensures i >= fillLevel + count ==> !Bit(c.bits, i)
      {
        BitOr(bits, Trunc(Shl(b, fillLevel), CACHE_SIZE), i);
        BitTrunc(Shl(b, fillLevel), CACHE_SIZE, i);
        BitShl(b, fillLevel, i);
        if i >= fillLevel + count {
          HighBitsZero(b, count, i - fillLevel);
        }
      }
      ValidFromBits(c);
      forall j: nat | j < c.fillLevel
        ensures c.Contents()[j] == (Contents() + Row(b, count))[j]
      {
        LsbBitsAt(c.bits, c.fillLevel, j);
        if j < fillLevel {
          LsbBitsAt(bits, fillLevel, j);
        } else {
          LsbBitsAt(b, count, j - fillLevel);
        }
      }
    }

    lemma PushRight(b: nat, count: nat)
      requires RightInLeftOut? && Valid() && b < Pow2(count)
      requires count + fillLevel <= CACHE_SIZE && fillLevel < CACHE_SIZE
      ensures
        var gap := CACHE_SIZE - fillLevel - count;
        var c := RightInLeftOut(if count != 0 then Or(bits, Trunc(Shl(b, gap), CACHE_SIZE)) else bits,
                                fillLevel + count);
        c.Valid() && c.Contents() == Contents() + Row(b, count)
    {
      var gap := CACHE_SIZE - fillLevel - count;
      VacantBitsAreZero();
      if count != 0 {
        hide Or, Trunc, Shl, Bit, MsbBits, Pow2;
        var c := RightInLeftOut(Or(bits, Trunc(Shl(b, gap), CACHE_SIZE)), fillLevel + count);
        forall i: nat
          ensures Bit(c.bits, i) ==
                  (Bit(bits, i) || (gap <= i < CACHE_SIZE - fillLevel && Bit(b, i - gap)))
        {
          BitOr(bits, Trunc(Shl(b, gap), CACHE_SIZE), i);
          BitTrunc(Shl(b, gap), CACHE_SIZE, i);
          BitShl(b, gap, i);
          if i >= CACHE_SIZE - fillLevel {
            HighBitsZero(b, count, i - gap);
          }
        }
        forall i: nat | CACHE_SIZE <= i
          ensures !Bit(c.bits, i)
        {
          HighBitsZero(bits, CACHE_SIZE, i);
        }
        ValidFromBits(c);
        forall j: nat | j < c.fillLevel
          ensures c.Contents()[j] == (Contents() + Row(b, count))[j]
        {
          MsbBitsAt(c.bits, CACHE_SIZE, j);
          MsbBitsAt(bits, CACHE_SIZE, j);
          if j >= fillLevel {
            MsbBitsAt(b, count, j - fillLevel);
          }
        }
      }
    }

    lemma PeekRight(count: nat)
      requires LeftInRightOut? && Valid() && 0 < count <= MAX_GET_BITS && count <= fillLevel
      ensures
        var v := ExtractLowBits(Trunc(bits, MAX_GET_BITS), count, MAX_GET_BITS);
        v < Pow2(count) && Row(v, count) == Contents()[..count]
    {
      hide Bit, LsbBits, Pow2, ExtractLowBits, Trunc;
      var v := ExtractLowBits(Trunc(bits, MAX_GET_BITS), count, MAX_GET_BITS);
      forall i: nat
        ensures Bit(v, i) == (i < count && Bit(bits, i))
      {
        BitExtractLowBits(Trunc(bits, MAX_GET_BITS), count, MAX_GET_BITS, i);
        BitTrunc(bits, MAX_GET_BITS, i);
      }
      BoundFromBits(v, count);
      forall j: nat | j < count
        ensures Row(v, count)[j] == Contents()[j]
      {
        LsbBitsAt(v, count, j);
        LsbBitsAt(bits, fillLevel, j);
      }
    }

    lemma PeekLeft(count: nat)
      requires RightInLeftOut? && Valid() && 0 < count <= MAX_GET_BITS && count <= fillLevel
      ensures
        var v := ExtractHighBits(bits, count, CACHE_SIZE);
        v < Pow2(count) && Row(v, count) == Contents()[..count]
    {
      hide Bit, MsbBits, Pow2, Shr;
      var v := ExtractHighBits(bits, count, CACHE_SIZE);
      forall i: nat
        ensures Bit(v, i) == Bit(bits, i + (CACHE_SIZE - count))
        ensures i >= count ==> !Bit(v, i)
      {
        BitShr(bits, CACHE_SIZE - count, i);
        if i >= count {
          HighBitsZero(bits, CACHE_SIZE, i + (CACHE_SIZE - count));
        }
      }
      BoundFromBits(v, count);
      forall j: nat | j < count
        ensures Row(v, count)[j] == Contents()[j]
      {
        MsbBitsAt(v, count, j);
        MsbBitsAt(bits, CACHE_SIZE, j);
      }
    }

    lemma SkipRight(count: nat)
      requires LeftInRightOut? && Valid() && count <= fillLevel
      ensures
        var c := LeftInRightOut(Shr(bits, count), fillLevel - count);
        c.Valid() && c.Contents() == Contents()[count..]
    {
      hide Bit, LsbBits, Pow2, Shr;
      var c := LeftInRightOut(Shr(bits, count), fillLevel - count);
      VacantBitsAreZero();
      forall i: nat
        ensures Bit(c.bits, i) == Bit(bits, i + count)
      {
        BitShr(bits, count, i);
      }
      ValidFromBits(c);
      forall j: nat | j < c.fillLevel
        ensures c.Contents()[j] == Contents()[count + j]
      {
        LsbBitsAt(c.bits, c.fillLevel, j);
        LsbBitsAt(bits, fillLevel, count + j);
      }
    }

    lemma SkipLeft(count: nat)
      requires RightInLeftOut? && Valid() && count <= fillLevel && count < CACHE_SIZE
      ensures
        var c := RightInLeftOut(Trunc(Shl(bits, count), CACHE_SIZE), fillLevel - count);
        c.Valid() && c.Contents() == Contents()[count..]
    {
      hide Bit, MsbBits, Pow2, Trunc, Shl;
      var c := RightInLeftOut(Trunc(Shl(bits, count), CACHE_SIZE), fillLevel - count);
      VacantBitsAreZero();
      forall i: nat
        ensures Bit(c.bits, i) == (count <= i < CACHE_SIZE && Bit(bits, i - count))
      {
        BitTrunc(Shl(bits, count), CACHE_SIZE, i);
        BitShl(bits, count, i);
      }
      ValidFromBits(c);
      forall j: nat | j < c.fillLevel
        ensures c.Contents()[j] == Contents()[count + j]
      {
        MsbBitsAt(c.bits, CACHE_SIZE, j);
        MsbBitsAt(bits, CACHE_SIZE, count + j);
      }
    }
  }
}
