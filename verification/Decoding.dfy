/** What decoding one symbol means, independently of any decoder.

    A symbol is the one that the next bits of the stream start with. In full decoding its value
    is the category of a difference, whose bits follow. All decoders are proved against
    `DecodeSpec`, so they agree with each other on every stream.
 */
module Decoding {
  import opened Bits
  import opened BitOrder
  import opened BitStreamer
  import opened CodeSymbols
  import opened Difference
  import opened PrefixCodes
  import opened Results

  /** The two settings of a coder. */
  datatype Mode = Mode(fullDecode: bool, fixDNGBug16: bool)

  datatype SetupError = DifferenceTooLong

  /** What `verifyCodeValuesAsDiffLengths` establishes. */
  ghost predicate Usable(code: PrefixCode, mode: Mode) {
    && code.Valid()
    && (mode.fullDecode ==> code.tag.SupportsFullDecode() && ValuesAreDiffLengths(code))
  }

  ghost predicate ValuesAreDiffLengths(code: PrefixCode) {
    forall v :: v in code.codeValues ==> v <= MAX_DIFF_LENGTH
  }

  /** `setup` of every coder: refuses differences of more than 16 bits. */
  method CheckSetup(code: PrefixCode, mode: Mode) returns (r: Result<(), SetupError>)
    requires code.Valid()
    requires mode.fullDecode ==> code.tag.SupportsFullDecode()
    ensures r.Ok? <==> Usable(code, mode)
  {
    if mode.fullDecode {
      var i := 0;
      while i < |code.codeValues|
        invariant 0 <= i <= |code.codeValues|
        invariant forall k :: 0 <= k < i ==> code.codeValues[k] <= MAX_DIFF_LENGTH
      {
        if !(code.codeValues[i] <= MAX_DIFF_LENGTH) {
          assert code.codeValues[i] in code.codeValues;
          return Err(DifferenceTooLong);
        }
        i := i + 1;
      }
    }
    return Ok(());
  }

  /** The orders that may be used with prefix codes. */
  predicate CanUseWithPrefixCodes(o: Order) {
    o.MSB? || o.MSB32? || o.JPEG?
  }

  datatype Effect = Effect(value: int, consumed: nat)

  /** How many bits follow a symbol with this value. */
  function PayloadLength(mode: Mode, codeValue: nat): nat {
    if !mode.fullDecode then 0
    else if codeValue == 16 then (if mode.fixDNGBug16 then 16 else 0)
    else codeValue
  }

  /** The value of a symbol together with the bits that follow it. */
  function SymbolEffect(mode: Mode, len: nat, codeValue: nat, w: seq<bool>): Effect
    requires mode.fullDecode ==> codeValue <= MAX_DIFF_LENGTH
    requires len + PayloadLength(mode, codeValue) <= |w|
  {
    var consumed := len + PayloadLength(mode, codeValue);
    if !mode.fullDecode then Effect(codeValue, consumed)
    else if codeValue == 16 then Effect(-32768, consumed)
    else if codeValue == 0 then Effect(0, consumed)
    else Effect(PayloadDiff(w[len..consumed]), consumed)
  }

  /** The difference that its bits stand for. */
  function PayloadDiff(bits: seq<bool>): int
    requires 0 < |bits| <= 16
  {
    PayloadIsSmall(bits);
    Extend(MsbValue(bits), |bits|)
  }

  lemma PayloadIsSmall(bits: seq<bool>)
    requires |bits| <= 16
    ensures MsbValue(bits) < TWO_32
  {
    MsbValueBound(bits);
    Pow2Monotone(|bits|, 16);
    Pow2Monotone(16, 32);
    PowersOfTwo();
  }

  /** One refill suffices: a symbol and its difference never exceed 32 bits. */
  lemma SymbolFits(code: PrefixCode, mode: Mode, i: nat)
    requires Usable(code, mode) && i < |code.symbols|
    ensures 0 < code.symbols[i].len <= code.MaxCodeLength() <= code.tag.MaxCodeLength() < 32
    ensures mode.fullDecode ==> code.codeValues[i] <= MAX_DIFF_LENGTH
    ensures code.symbols[i].len + PayloadLength(mode, code.codeValues[i]) <= 32
  {
    assert code.symbols[i].Fits(code.tag.MaxCodeLength());
    assert code.codeValues[i] in code.codeValues;
    CountOfSymbol(code.symbols, code.tag.MaxCodeLength(), i);
  }

  lemma {:induction false} CountOfSymbol(symbols: seq<CodeSymbol>, maxLen: nat, i: nat)
    requires AllFit(symbols, maxLen) && i < |symbols|
    ensures 0 < symbols[i].len <= maxLen && Counts(symbols, maxLen)[symbols[i].len] > 0
  {
    var last := symbols[|symbols| - 1];
    assert last.Fits(maxLen) && symbols[i].Fits(maxLen);
    if i < |symbols| - 1 {
      CountOfSymbol(symbols[..|symbols| - 1], maxLen, i);
    }
  }

  /** The symbol that `w` starts with, if there is one. */
  ghost function FindSymbol(code: PrefixCode, w: seq<bool>): (r: Option<nat>)
    ensures r.Some? ==> Matches(code.symbols, w, r.value)
    ensures r.None? ==> NoMatch(code.symbols, w)
  {
    if i: nat :| Matches(code.symbols, w, i) then Some(i) else None
  }

  ghost function DecodeSpec(code: PrefixCode, mode: Mode, w: seq<bool>): Option<Effect>
    requires Usable(code, mode) && 32 <= |w|
  {
    match FindSymbol(code, w)
    case None => None
    case Some(i) =>
      SymbolFits(code, mode, i);
      Some(SymbolEffect(mode, code.symbols[i].len, code.codeValues[i], w))
  }

  /** Any way of finding a matching symbol is the right one. */
  lemma DecodeOfMatch(code: PrefixCode, mode: Mode, w: seq<bool>, i: nat)
    requires Usable(code, mode) && 32 <= |w| && Matches(code.symbols, w, i)
    ensures mode.fullDecode ==> code.codeValues[i] <= MAX_DIFF_LENGTH
    ensures code.symbols[i].len + PayloadLength(mode, code.codeValues[i]) <= |w|
    ensures DecodeSpec(code, mode, w) == Some(SymbolEffect(mode, code.symbols[i].len, code.codeValues[i], w))
  {
    SymbolFits(code, mode, i);
    MatchIsUnique(code.symbols, w, i, FindSymbol(code, w).value);
  }

  lemma DecodeOfNoMatch(code: PrefixCode, mode: Mode, w: seq<bool>)
    requires Usable(code, mode) && 32 <= |w| && NoMatch(code.symbols, w)
    ensures DecodeSpec(code, mode, w) == None
  {
  }

  /** Every accepted symbol moves the stream forward, by at most 32 bits. */
  lemma DecodeConsumes(code: PrefixCode, mode: Mode, w: seq<bool>)
    requires Usable(code, mode) && 32 <= |w| && DecodeSpec(code, mode, w).Some?
    ensures 0 < DecodeSpec(code, mode, w).value.consumed <= 32
  {
    SymbolFits(code, mode, FindSymbol(code, w).value);
  }

  datatype Decoded = Value(v: int) | BadCode | OverRead

  /** The contract of `decode`, for all decoders: `w` are the next 32 bits, `canFill` says whether
      the stream can provide them, `from` and `to` are its positions before and after. */
  ghost predicate DecodesTo(code: PrefixCode, mode: Mode, w: seq<bool>, canFill: bool, from: nat,
                            r: Decoded, to: nat)
    requires Usable(code, mode) && |w| == 32
  {
    if !canFill then
      r == OverRead && to == from
    else
      match DecodeSpec(code, mode, w)
      case None => r == BadCode
      case Some(e) => r == Value(e.value) && to == from + e.consumed
  }

  /** `processSymbol`: reads the difference that follows a symbol of `len` bits. */
  method ProcessSymbol(bs: BitStreamer, mode: Mode, len: nat, codeValue: nat, ghost w: seq<bool>)
    returns (value: int)
    requires bs.Valid() && CanUseWithPrefixCodes(bs.order)
    requires mode.fullDecode ==> codeValue <= MAX_DIFF_LENGTH
    requires len + PayloadLength(mode, codeValue) <= |w| <= len + bs.cache.fillLevel
    requires bs.Upcoming(|w| - len) == w[len..]
    modifies bs`cache
    ensures bs.Valid()
    ensures value == SymbolEffect(mode, len, codeValue, w).value
    ensures bs.Cursor() == old(bs.Cursor()) + PayloadLength(mode, codeValue)
  {
    hide StreamBit, Holds, Walk, PayloadDiff;
    if !mode.fullDecode {
      return codeValue;
    }
    var diffLen := codeValue;
    if diffLen == 16 {
      if mode.fixDNGBug16 {
        bs.SkipBitsNoFill(16);
      }
      return -32768;
    }
    if diffLen == 0 {
      return 0;
    }
    value := ReadDifference(bs, diffLen, w[len..]);
    assert w[len..][..diffLen] == w[len..len + diffLen];
  }

  /** Reads the bits of a difference. */
  method ReadDifference(bs: BitStreamer, diffLen: nat, ghost w: seq<bool>) returns (value: int)
    requires bs.Valid() && CanUseWithPrefixCodes(bs.order)
    requires 0 < diffLen <= 16 && diffLen <= |w| <= bs.cache.fillLevel
    requires bs.Upcoming(|w|) == w
    modifies bs`cache
    ensures bs.Valid() && bs.Cursor() == old(bs.Cursor()) + diffLen
    ensures value == PayloadDiff(w[..diffLen])
  {
    hide StreamBit, Holds, Walk, Bit, MsbBits, MsbValue;
    WindowHead(bs.order, bs.input, bs.Cursor(), w, diffLen);
    var diff := bs.GetBitsNoFill(diffLen);
    ValueOfRow(diff, w[..diffLen]);
    PayloadIsSmall(w[..diffLen]);
    value := Extend(diff, diffLen);
  }

  lemma WindowHead(o: Order, input: seq<byte>, from: nat, w: seq<bool>, n: nat)
    requires Window(o, input, from, |w|) == w && n <= |w|
    ensures Window(o, input, from, n) == w[..n]
    ensures Window(o, input, from + n, |w| - n) == w[n..]
  {
    hide StreamBit;
    WindowDrop(o, input, from, n, |w|);
  }

  /** The number that was read is the value of the bits that were there. */
  lemma ValueOfRow(v: nat, bits: seq<bool>)
    requires v < Pow2(|bits|) && MsbBits(v, |bits|) == bits
    ensures v == MsbValue(bits)
  {
    MsbValueOfBits(v, |bits|);
    TruncSmall(v, |bits|);
  }

  // ----- reading a symbol bit by bit

  /** `partial` is what has been read of `w`; the stream, which started at `from`, holds the rest. */
  ghost predicate Reading(bs: BitStreamer, w: seq<bool>, from: nat, partial: CodeSymbol)
    reads bs
  {
    && bs.Valid() && CanUseWithPrefixCodes(bs.order)
    && partial.len <= |w| <= partial.len + bs.cache.fillLevel
    && bs.Cursor() == from + partial.len
    && bs.Upcoming(|w| - partial.len) == w[partial.len..]
    && partial.code == MsbValue(w[..partial.len])
  }

  /** No symbol of at most `l` bits matches. */
  ghost predicate NoneUpTo(symbols: seq<CodeSymbol>, w: seq<bool>, l: nat) {
    forall i: nat :: Matches(symbols, w, i) ==> symbols[i].len > l
  }

  lemma StartReading(bs: BitStreamer, w: seq<bool>)
    requires bs.Valid() && CanUseWithPrefixCodes(bs.order)
    requires |w| <= bs.cache.fillLevel && w == bs.Upcoming(|w|)
    ensures Reading(bs, w, bs.Cursor(), CodeSymbol(0, 0))
  {
    assert w[..0] == [] && w[0..] == w;
  }

  /** Reads one more bit into `partial`. */
  method ReadBit(bs: BitStreamer, partial: CodeSymbol, ghost w: seq<bool>, ghost from: nat)
    returns (longer: CodeSymbol)
    requires Reading(bs, w, from, partial) && partial.len < |w|
    modifies bs`cache
    ensures bs.Valid() && Reading(bs, w, from, longer) && longer.len == partial.len + 1
  {
    hide StreamBit, Holds, Walk, Bit, MsbBits;
    ghost var rest := w[partial.len..];
    WindowHead(bs.order, bs.input, bs.Cursor(), rest, 1);
    var bit := bs.GetBitsNoFill(1);
    ValueOfRow(bit, rest[..1]);
    OneMoreBit(w, partial.len, bit);
    longer := CodeSymbol(Or(Shl(partial.code, 1), bit), partial.len + 1);
  }

  lemma OneMoreBit(w: seq<bool>, len: nat, bit: nat)
    requires len < |w| && bit == MsbValue(w[len..][..1])
    ensures w[len..][1..] == w[len + 1..]
    ensures MsbValue(w[..len + 1]) == Or(Shl(MsbValue(w[..len]), 1), bit)
  {
    var head := w[..len + 1];
    assert head[..len] == w[..len] && head[len] == w[len];
    assert w[len..][..1] == [w[len]];
    assert MsbValue([w[len]]) == (if w[len] then 1 else 0);
    OrIsSum(MsbValue(w[..len]), 1, bit);
  }

  /** Skips bits that have been looked at before, all at once. */
  method SkipInto(bs: BitStreamer, partial: CodeSymbol, ghost w: seq<bool>, ghost from: nat)
    requires Reading(bs, w, from, CodeSymbol(0, 0))
    requires partial.len <= 16 && partial.len <= |w| && partial.code == MsbValue(w[..partial.len])
    modifies bs`cache
    ensures Reading(bs, w, from, partial)
  {
    hide StreamBit, Holds, Walk, MsbValue;
    assert w[0..] == w;
    WindowHead(bs.order, bs.input, bs.Cursor(), w, partial.len);
    bs.SkipBitsNoFill(partial.len);
  }

  /** Comparing numbers of the same length is comparing bits. */
  lemma EqualIsMatch(symbol: CodeSymbol, w: seq<bool>, partial: CodeSymbol)
    requires symbol.code < Pow2(symbol.len) && symbol.len == partial.len <= |w|
    requires partial.code == MsbValue(w[..partial.len])
    ensures symbol == partial <==> symbol.Bits() <= w
  {
    var head := w[..partial.len];
    MsbBitsOfValue(head);
    MsbValueBound(head);
    if symbol.Bits() <= w {
      assert symbol.Bits() == head;
      MsbBitsInjective(symbol.code, partial.code, symbol.len);
    }
  }

  /** What finishing a partial symbol gives: the symbol and its value. */
  datatype Found = Found(symbol: CodeSymbol, codeValue: nat)

  /** The contract of `finishReadingPartialSymbol`, for all decoders. */
  ghost predicate Finished(bs: BitStreamer, code: PrefixCode, w: seq<bool>, from: nat, r: Option<Found>, i: nat)
    reads bs
    requires |code.symbols| == |code.codeValues|
  {
    match r
    case None => bs.Valid() && NoMatch(code.symbols, w)
    case Some(f) =>
      && Matches(code.symbols, w, i)
      && f == Found(code.symbols[i], code.codeValues[i])
      && Reading(bs, w, from, f.symbol)
  }

  /** The end of every `decode`. */
  method FinishDecode(bs: BitStreamer, code: PrefixCode, mode: Mode, r: Option<Found>,
                      ghost w: seq<bool>, ghost from: nat, ghost i: nat)
    returns (d: Decoded)
    requires Usable(code, mode) && |w| == 32 && Finished(bs, code, w, from, r, i)
    modifies bs`cache
    ensures bs.Valid() && DecodesTo(code, mode, w, true, from, d, bs.Cursor())
  {
    hide StreamBit, Holds, Walk, MsbValue, SymbolEffect, DecodeSpec, Matches, NoMatch;
    if r.None? {
      DecodeOfNoMatch(code, mode, w);
      return BadCode;
    }
    DecodeOfMatch(code, mode, w, i);
    var value := ProcessSymbol(bs, mode, r.value.symbol.len, r.value.codeValue, w);
    EffectConsumes(mode, r.value.symbol.len, r.value.codeValue, w);
    return Value(value);
  }

  lemma EffectConsumes(mode: Mode, len: nat, codeValue: nat, w: seq<bool>)
    requires mode.fullDecode ==> codeValue <= MAX_DIFF_LENGTH
    requires len + PayloadLength(mode, codeValue) <= |w|
    ensures SymbolEffect(mode, len, codeValue, w).consumed == len + PayloadLength(mode, codeValue)
  {
  }

  /** No symbol is longer than the table of lengths says. */
  lemma NothingLonger(code: PrefixCode, w: seq<bool>, l: nat)
    requires code.Valid() && NoneUpTo(code.symbols, w, l) && code.MaxCodeLength() <= l
    ensures NoMatch(code.symbols, w)
  {
    forall i: nat | i < |code.symbols|
      ensures code.symbols[i].len <= l
    {
      CountOfSymbol(code.symbols, code.tag.MaxCodeLength(), i);
    }
  }

  lemma NothingEmpty(code: PrefixCode, w: seq<bool>)
    requires code.Valid()
    ensures NoneUpTo(code.symbols, w, 0)
  {
    forall i: nat | i < |code.symbols|
      ensures 0 < code.symbols[i].len
    {
      assert code.symbols[i].Fits(code.tag.MaxCodeLength());
    }
  }
}
