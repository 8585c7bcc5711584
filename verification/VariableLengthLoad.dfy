/** Three ways to load a few bytes that may lie partly or wholly past the end of a buffer. */
module VariableLengthLoad {
  import opened Bits
  import opened BitOrder

  /** `logicalRightShiftSafe`: shifts by any amount, also by the whole width and more. */
  function LogicalRightShiftSafe(v: nat, shAmt: nat, width: nat): nat {
    Shr(v, if shAmt < width then shAmt else width)
  }

  lemma BitOfSafeShift(v: nat, shAmt: nat, width: nat, i: nat)
    requires v < Pow2(width)
    ensures Bit(LogicalRightShiftSafe(v, shAmt, width), i) == Bit(v, i + shAmt)
  {
    BitShr(v, if shAmt < width then shAmt else width, i);
    if shAmt > width {
      HighBitsZero(v, width, i + width);
      HighBitsZero(v, width, i + shAmt);
    }
  }

  /** Whether the arithmetic of the load below stays in that range. From 2 to the 28 bytes past the
      end of the buffer the number of bits to shift by does not. */
  predicate ShiftIsInRange(size: nat, inPos: nat, n: nat) {
    inPos + n <= 0x7FFF_FFFF && (inPos + n <= size || 8 * (inPos + n - size) <= 0x7FFF_FFFF)
  }

  /** Loads the last whole word of the buffer and shifts the unwanted low bytes out; `ok` is false where
      the source computes something undefined. */
  method LoadByShift(out: array<byte>, input: seq<byte>, inPos: nat) returns (ok: bool)
    requires out.Length in {1, 2, 4, 8} && out.Length <= |input|
    requires IsInt32(|input|) && IsInt32(inPos)
    modifies out
    ensures ok <==> ShiftIsInRange(|input|, inPos, out.Length)
    ensures out[..] == if ok then Padded(input, inPos, out.Length) else old(out[..])
  {
    var n := out.Length;
    if !IsInt32(inPos + n) {
      return false;
    }
    var inPosFixup := 0;
    if |input| < inPos + n {
      inPosFixup := |input| - (inPos + n);
    }
    if !IsInt32(8 * -inPosFixup) {
      return false;
    }
    var pos := inPos + inPosFixup;
    var word := input[pos..pos + n];
    var tmp := LogicalRightShiftSafe(LittleEndian(word), 8 * -inPosFixup, 8 * n);
    var bytes := ToLittleEndian(tmp, n);
    forall k | 0 <= k < n
      ensures bytes[k] == ByteAt(input, inPos + k)
    {
      ShiftedByte(word, LittleEndian(word), -inPosFixup, k);
      ByteOfWord(input, pos, n, k - inPosFixup);
    }
    forall k | 0 <= k < n {
      out[k] := bytes[k];
    }
    return true;
  }

  lemma ByteOfWord(input: seq<byte>, pos: nat, n: nat, j: nat)
    requires pos + n <= |input| && (j < n || pos + n == |input|)
    ensures ByteAt(input[pos..pos + n], j) == ByteAt(input, pos + j)
  {
  }

  /** Byte `k` of the shifted word is byte `k + d` of the word, or zero. */
  lemma ShiftedByte(word: seq<byte>, v: nat, d: nat, k: nat)
    requires k < |word| && v == LittleEndian(word)
    ensures ToLittleEndian(LogicalRightShiftSafe(v, 8 * d, 8 * |word|), |word|)[k] == ByteAt(word, k + d)
  {
    var b := ToLittleEndian(LogicalRightShiftSafe(v, 8 * d, 8 * |word|), |word|)[k];
    forall i: nat | i < 8
      ensures Bit(b, i) == Bit(ByteAt(word, k + d), i)
    {
      ShiftedBit(word, v, d, k, i);
    }
    assert Pow2(8) == 256;
    EqualByBits(b, ByteAt(word, k + d), 8);
  }

  lemma ShiftedBit(word: seq<byte>, v: nat, d: nat, k: nat, i: nat)
    requires k < |word| && v == LittleEndian(word) && i < 8
    ensures Bit(ToLittleEndian(LogicalRightShiftSafe(v, 8 * d, 8 * |word|), |word|)[k], i)
            == Bit(ByteAt(word, k + d), i)
  {
    EndianBound(word);
    BitOfToLittleEndian(LogicalRightShiftSafe(v, 8 * d, 8 * |word|), |word|, k, i);
    BitOfSafeShift(v, 8 * d, 8 * |word|, 8 * k + i);
    var m := 8 * (k + d) + i;
    assert 8 * k + i + 8 * d == m;
    if k + d < |word| {
      BitOfLittleEndian(word, m);
      assert m / 8 == k + d && m % 8 == i;
    } else {
      HighBitsZero(v, 8 * |word|, m);
      BitZero(i);
    }
  }

  /** Copies byte by byte and stops at the end of the buffer. */
  method LoadByMaskedLoop(out: array<byte>, input: seq<byte>, inPos: nat)
    requires 0 < out.Length <= |input|
    modifies out
    ensures out[..] == Padded(input, inPos, out.Length)
  {
    forall k | 0 <= k < out.Length {
      out[k] := 0;
    }
    var outIndex := 0;
    while outIndex != out.Length
      invariant 0 <= outIndex <= out.Length
      invariant forall k :: 0 <= k < outIndex ==> out[k] == ByteAt(input, inPos + k)
      invariant forall k :: outIndex <= k < out.Length ==> out[k] == 0
    {
      var inIndex := inPos + outIndex;
      if inIndex >= |input| {
        return;
      }
      out[outIndex] := input[inIndex];
      outIndex := outIndex + 1;
    }
  }

  /** Clamps both ends of the source range and copies what is left. */
  method LoadByMemcpy(out: array<byte>, input: seq<byte>, inPos: nat)
    requires 0 < out.Length <= |input|
    modifies out
    ensures out[..] == Padded(input, inPos, out.Length)
  {
    forall k | 0 <= k < out.Length {
      out[k] := 0;
    }
    var pos := if inPos < |input| then inPos else |input|;
    var end := if pos + out.Length < |input| then pos + out.Length else |input|;
    var copySize := end - pos;
    forall k | 0 <= k < copySize {
      out[k] := input[pos + k];
    }
  }
}
