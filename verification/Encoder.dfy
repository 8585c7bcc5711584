/** The encoder, and the proof that decoding what it writes gives back what was encoded. */
module Encoder {
  import opened Bits
  import opened BitVacuumer
  import opened CodeSymbols
  import opened Decoding
  import opened Difference
  import opened PrefixCodes
  import opened Results

  // ----- what is written for one value

  /** The first symbol that stands for `v`. */
  ghost function IndexOf(values: seq<nat>, v: nat): (i: nat)
    requires v in values
    ensures i < |values| && values[i] == v
    ensures forall k :: 0 <= k < i ==> values[k] != v
  {
    if values[0] == v then 0
    else
      assert values == [values[0]] + values[1..];
      1 + IndexOf(values[1..], v)
  }

  /** The alphabet has a symbol for this value. The encoder relies on it. */
  ghost predicate Encodable(code: PrefixCode, mode: Mode, value: int) {
    InAlphabet(code.codeValues, mode, value)
  }

  ghost predicate InAlphabet(codeValues: seq<nat>, mode: Mode, value: int) {
    if mode.fullDecode then
      -TWO_31 < value < TWO_31 && Reduce(value).len in codeValues
    else
      0 <= value && value in codeValues
  }

  ghost function EncodedBits(code: PrefixCode, mode: Mode, value: int): seq<bool>
    requires code.Valid() && Encodable(code, mode, value)
  {
    if !mode.fullDecode then
      code.symbols[IndexOf(code.codeValues, value)].Bits()
    else
      code.symbols[IndexOf(code.codeValues, Reduce(value).len)].Bits() + DifferenceBits(mode, value)
  }

  ghost function DifferenceBits(mode: Mode, value: int): seq<bool>
    requires -TWO_31 < value < TWO_31
  {
    if Reduce(value).len != 16 || mode.fixDNGBug16 then MsbBits(Reduce(value).diff, Reduce(value).len) else []
  }

  /** What comes back: category 16 has room for one difference only. */
  function Recovered(mode: Mode, value: int): int {
    if mode.fullDecode && !(-32768 <= value <= 32767) then -32768 else value
  }

  // ----- decoding undoes encoding

  /** The differences that are not sent as -32768 are those of the lower categories, and -32768. */
  lemma LowCategories(code: PrefixCode, mode: Mode, value: int)
    requires Usable(code, mode) && mode.fullDecode && Encodable(code, mode, value)
    ensures
      var len := Reduce(value).len;
      && len <= 16
      && (len == 16 ==> Recovered(mode, value) == -32768)
      && (len < 16 ==> Recovered(mode, value) == value)
  {
    var len := Reduce(value).len;
    assert len in code.codeValues;
    ReduceMeans(value);
    CategoryPowers();
    hide Reduce, Pow2;
    if len <= 15 {
      Pow2Monotone(len, 15);
    }
  }

  lemma CategoryPowers()
    ensures Pow2(15) == 32768
  {
    assert Pow2(8) == 256;
    Pow2Sum(7, 8);
  }

  /** The difference after a symbol is the one that was reduced. */
  lemma DifferenceComesBack(value: int, bits: seq<bool>)
    requires -TWO_31 < value < TWO_31 && 0 < Reduce(value).len <= 15
    requires bits == MsbBits(Reduce(value).diff, Reduce(value).len)
    ensures PayloadDiff(bits) == value
  {
    ReduceMeans(value);
    var r := Reduce(value);
    ValueOfRow(r.diff, bits);
    ExtendOfReduce(value);
  }

  /** The central law: whatever follows, the decoder finds the value again, and stops where the
      encoder did. */
  lemma DecodeOfEncoded(code: PrefixCode, mode: Mode, value: int, w: seq<bool>)
    requires Usable(code, mode) && Encodable(code, mode, value)
    requires 32 <= |w| && EncodedBits(code, mode, value) <= w
    ensures DecodeSpec(code, mode, w)
            == Some(Effect(Recovered(mode, value), |EncodedBits(code, mode, value)|))
  {
    hide Reduce, PayloadDiff, MsbBits, Extend, DecodeSpec;
    var v: nat := if mode.fullDecode then Reduce(value).len else value;
    var i := IndexOf(code.codeValues, v);
    var bits := EncodedBits(code, mode, value);
    var head := code.symbols[i].Bits();
    StartsWith(head, if mode.fullDecode then DifferenceBits(mode, value) else [], bits, w);
    assert Matches(code.symbols, w, i);
    DecodeOfMatch(code, mode, w, i);
    if mode.fullDecode {
      LowCategories(code, mode, value);
      ExtendOfReduce(value);
      if 0 < v < 16 {
        DifferenceComesBack(value, DifferenceBits(mode, value));
      }
    }
  }

  lemma StartsWith(a: seq<bool>, b: seq<bool>, bits: seq<bool>, w: seq<bool>)
    requires bits == a + b && bits <= w
    ensures a <= w && |bits| == |a| + |b| && w[|a|..|a| + |b|] == b
  {
    assert bits == w[..|bits|];
    forall j | 0 <= j < |b|
      ensures w[|a| + j] == b[j]
    {
      assert bits[|a| + j] == b[j];
    }
  }

  /** Which differences survive: exactly those of 16 bits with sign. */
  lemma RoundTripIffSixteenBits(code: PrefixCode, mode: Mode, value: int, w: seq<bool>)
    requires Usable(code, mode) && mode.fullDecode && Encodable(code, mode, value)
    requires 32 <= |w| && EncodedBits(code, mode, value) <= w
    ensures DecodeSpec(code, mode, w).Some?
    ensures DecodeSpec(code, mode, w).value.value == value <==> -32768 <= value <= 32767
  {
    DecodeOfEncoded(code, mode, value, w);
  }

  /** 32768 is accepted by the encoder and comes back as -32768. */
  lemma PositiveExtremeIsLost(code: PrefixCode, fixDNGBug16: bool, w: seq<bool>)
    requires Usable(code, Mode(true, fixDNGBug16)) && 16 in code.codeValues && 32 <= |w|
    ensures Encodable(code, Mode(true, fixDNGBug16), 32768)
    ensures EncodedBits(code, Mode(true, fixDNGBug16), 32768) <= w ==>
              && DecodeSpec(code, Mode(true, fixDNGBug16), w).Some?
              && DecodeSpec(code, Mode(true, fixDNGBug16), w).value.value == -32768
  {
    CategoryPowers();
    ReduceMeans(32768);
    CategoryIsUnique(32768, 16, Reduce(32768).len);
    if EncodedBits(code, Mode(true, fixDNGBug16), 32768) <= w {
      DecodeOfEncoded(code, Mode(true, fixDNGBug16), 32768, w);
    }
  }

  /** The other way round: whatever a decoder delivers can be encoded, and survives. */
  lemma DecodedIsEncodable(code: PrefixCode, mode: Mode, w: seq<bool>)
    requires Usable(code, mode) && 32 <= |w| && DecodeSpec(code, mode, w).Some?
    ensures
      var v := DecodeSpec(code, mode, w).value.value;
      Encodable(code, mode, v) && Recovered(mode, v) == v
  {
    var i := FindSymbol(code, w).value;
    SymbolFits(code, mode, i);
    hide Reduce, Pow2, PayloadDiff, PrefixCode.Valid;
    var len := code.codeValues[i];
    assert len in code.codeValues;
    if mode.fullDecode {
      if len == 16 {
        CategoryPowers();
        ReduceMeans(-32768);
        CategoryIsUnique(-32768, 16, Reduce(-32768).len);
      } else if len == 0 {
        ExtendOfReduce(0);
      } else {
        DifferenceIsEncodable(w[code.symbols[i].len..code.symbols[i].len + len]);
      }
    }
  }

  lemma DifferenceIsEncodable(bits: seq<bool>)
    requires 0 < |bits| < 16
    ensures -32768 < PayloadDiff(bits) < 32768 && Reduce(PayloadDiff(bits)).len == |bits|
  {
    MsbValueBound(bits);
    ReduceOfExtend(MsbValue(bits), |bits|);
    ReduceMeans(PayloadDiff(bits));
    Pow2Monotone(|bits|, 15);
    CategoryPowers();
  }

  lemma EncodedLength(code: PrefixCode, mode: Mode, value: int)
    requires Usable(code, mode) && Encodable(code, mode, value)
    ensures 0 < |EncodedBits(code, mode, value)| <= 32
  {
    var v: nat := if mode.fullDecode then Reduce(value).len else value;
    SymbolFits(code, mode, IndexOf(code.codeValues, v));
  }

  // ----- the encoder itself

  class PrefixCodeVectorEncoder {
    const code: PrefixCode
    var mode: Mode

    constructor (code: PrefixCode)
      requires code.Valid()
      ensures this.code == code
    {
      this.code := code;
      mode := Mode(true, false);
    }

    method Setup(fullDecode: bool, fixDNGBug16: bool) returns (r: Result<(), SetupError>)
      requires code.Valid() && (fullDecode ==> code.tag.SupportsFullDecode())
      modifies this
      ensures mode == Mode(fullDecode, fixDNGBug16)
      ensures r.Ok? <==> Usable(code, mode)
    {
      mode := Mode(fullDecode, fixDNGBug16);
      r := CheckSetup(code, mode);
    }

    method GetCodeIndexOfCodeValue(value: nat) returns (codeIndex: nat)
      requires value in code.codeValues
      ensures codeIndex == IndexOf(code.codeValues, value)
    {
      codeIndex := 0;
      while code.codeValues[codeIndex] != value
        invariant codeIndex < |code.codeValues|
        invariant forall k :: 0 <= k < codeIndex ==> code.codeValues[k] != value
        invariant codeIndex <= IndexOf(code.codeValues, value)
        decreases |code.codeValues| - codeIndex
      {
        codeIndex := codeIndex + 1;
      }
    }

    /** Writes the code word of one symbol. */
    method EncodeCodeValueImpl(bv: BitVacuumer, codeIndex: nat)
      requires code.Valid() && codeIndex < |code.symbols|
      requires bv.Valid() && !bv.flushed && CanUseWithPrefixCodes(bv.order)
      modifies bv
      ensures bv.Valid() && !bv.flushed && bv.Written() == old(bv.Written()) + code.symbols[codeIndex].Bits()
    {
      var symbol := code.symbols[codeIndex];
      assert symbol.Fits(code.tag.MaxCodeLength());
      bv.Put(symbol.code, symbol.len);
    }

    method EncodeCodeValue(bv: BitVacuumer, codeValue: nat)
      requires code.Valid() && !mode.fullDecode && Encodable(code, mode, codeValue)
      requires bv.Valid() && !bv.flushed && CanUseWithPrefixCodes(bv.order)
      modifies bv
      ensures bv.Valid() && !bv.flushed
      ensures bv.Written() == old(bv.Written()) + EncodedBits(code, mode, codeValue)
    {
      var codeIndex := GetCodeIndexOfCodeValue(codeValue);
      EncodeCodeValueImpl(bv, codeIndex);
    }

    method EncodeDifference(bv: BitVacuumer, value: int)
      requires code.Valid() && mode.fullDecode && Encodable(code, mode, value)
      requires bv.Valid() && !bv.flushed && CanUseWithPrefixCodes(bv.order)
      modifies bv
      ensures bv.Valid() && !bv.flushed
      ensures bv.Written() == old(bv.Written()) + EncodedBits(code, mode, value)
    {
      var Reduced(diff, diffLen) := Reduce(value);
      ReduceMeans(value);
      var codeIndex := GetCodeIndexOfCodeValue(diffLen);
      EncodeCodeValueImpl(bv, codeIndex);
      if diffLen != 16 || mode.fixDNGBug16 {
        bv.Put(diff, diffLen);
      }
      Join(old(bv.Written()), code.symbols[codeIndex].Bits(), DifferenceBits(mode, value));
    }

    method Encode(bv: BitVacuumer, value: int)
      requires code.Valid() && Encodable(code, mode, value)
      requires bv.Valid() && !bv.flushed && CanUseWithPrefixCodes(bv.order)
      modifies bv
      ensures bv.Valid() && !bv.flushed
      ensures bv.Written() == old(bv.Written()) + EncodedBits(code, mode, value)
    {
      if !mode.fullDecode {
        EncodeCodeValue(bv, value);
      } else {
        EncodeDifference(bv, value);
      }
    }
  }

  lemma Join(a: seq<bool>, b: seq<bool>, c: seq<bool>)
    ensures (a + b) + c == a + (b + c)
    ensures (a + b) + [] == a + b
  {
  }
}
