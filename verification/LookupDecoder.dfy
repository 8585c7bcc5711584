/** The bit-serial table decoder for canonical codes (ITU-T T.81, Figures F.15 and F.16). */
module LookupDecoder {
  import opened Bits
  import opened BitStreamer
  import opened CodeSymbols
  import opened PrefixCodes
  import opened HuffmanCodes
  import opened Decoding
  import opened Results

  /** The largest value of the type of code words; it marks lengths without codes. */
  function Sentinel(tag: CodeTag): (s: nat)
    ensures s == if tag.Baseline? then 0xFFFF else 0xFFFF_FFFF
  {
    if tag.Baseline? then 0xFFFF else 0xFFFF_FFFF
  }

  /** The table entries for length `l`. */
  ghost predicate EntriesFor(tag: CodeTag, n: seq<nat>, l: nat, maxCode: nat, codeOffset: nat) {
    if l == 0 || CodesOfLength(n, l) == 0 then
      maxCode == Sentinel(tag) && codeOffset == Sentinel(tag)
    else
      && maxCode == Used(n, l) - 1
      && codeOffset == 2 * Used(n, l - 1) - NumUpTo(n, l - 1)
      && codeOffset != Sentinel(tag)
  }

  lemma {:induction false} NumBelowUsed(n: seq<nat>, l: nat)
    ensures NumUpTo(n, l) <= Used(n, l)
    ensures NumUpTo(n, l) == 0 ==> Used(n, l) == 0
  {
    if l > 0 {
      NumBelowUsed(n, l - 1);
    }
  }

  lemma CodeTypeBounds(tag: CodeTag)
    ensures Pow2(tag.MaxCodeLength() - 1) < Sentinel(tag) && Pow2(tag.MaxCodeLength()) <= Sentinel(tag) + 1
  {
    assert Pow2(8) == 256;
    Pow2Sum(8, 8);
    Pow2Sum(16, 10);
    assert Pow2(10) == 1024;
  }

  /** The offset never wraps around and is never mistaken for the sentinel; nor is the largest
      code of a length, unless it is the longest length and no bit is to be read any more. */
  lemma TablesAreUnambiguous(tag: CodeTag, n: seq<nat>, l: nat)
    requires Acceptable(tag, n) && 0 < l < |n| && n[l] > 0
    ensures 0 <= 2 * Used(n, l - 1) - NumUpTo(n, l - 1) < Sentinel(tag)
    ensures Used(n, l) - 1 <= Sentinel(tag)
    ensures l < |n| - 1 ==> Used(n, l) - 1 < Sentinel(tag)
  {
    hide NumUpTo, Pow2;
    NumBelowUsed(n, l - 1);
    SumsAt(n, l);
    hide Used;
    UsedFits(n, l, |n| - 1);
    CodeTypeBounds(tag);
    Pow2Monotone(l, tag.MaxCodeLength());
    if l < |n| - 1 {
      Pow2Monotone(l, tag.MaxCodeLength() - 1);
    }
  }

  /** The code words of a table. */
  ghost predicate IsCanonical(tag: CodeTag, n: seq<nat>, symbols: seq<CodeSymbol>) {
    Acceptable(tag, n) && symbols == CanonicalSymbols(n, |n| - 1)
  }

  /** While the number read is too large for its length there is no symbol of that length. */
  lemma TooLargeIsNone(tag: CodeTag, n: seq<nat>, symbols: seq<CodeSymbol>, w: seq<bool>, l: nat,
                       maxCode: nat, codeOffset: nat)
    requires IsCanonical(tag, n, symbols) && l <= |w| && l < |n| && EntriesFor(tag, n, l, maxCode, codeOffset)
    requires l > 0 ==> NoneUpTo(symbols, w, l - 1)
    requires (l < |n| - 1 && maxCode == Sentinel(tag)) || MsbValue(w[..l]) > maxCode
    ensures NoneUpTo(symbols, w, l)
  {
    if l > 0 && n[l] > 0 {
      TablesAreUnambiguous(tag, n, l);
    }
    hide Matches, MsbValue, CanonicalSymbols;
    forall i: nat | Matches(symbols, w, i)
      ensures symbols[i].len > l
    {
      MatchInRun(tag, n, symbols, w, i);
      if symbols[i].len == l {
        MatchIsBelow(n, |n| - 1, w, i, l);
      }
    }
  }

  lemma MatchInRun(tag: CodeTag, n: seq<nat>, symbols: seq<CodeSymbol>, w: seq<bool>, i: nat)
    requires IsCanonical(tag, n, symbols) && Matches(symbols, w, i)
    ensures 0 < symbols[i].len < |n| && symbols[i].len <= |w| && n[symbols[i].len] > 0
  {
    hide CanonicalSymbols, MsbBits, Used;
    SymbolInRun(n, |n| - 1, i);
  }

  /** Otherwise the tables lead to the one symbol that matches. */
  lemma SmallEnoughIsMatch(tag: CodeTag, n: seq<nat>, symbols: seq<CodeSymbol>, w: seq<bool>, l: nat,
                           maxCode: nat, codeOffset: nat)
    requires IsCanonical(tag, n, symbols) && 0 < l <= |w| && l < |n| && EntriesFor(tag, n, l, maxCode, codeOffset)
    requires NoneUpTo(symbols, w, l - 1)
    requires MsbValue(w[..l]) <= maxCode && (l < |n| - 1 ==> maxCode != Sentinel(tag))
    ensures codeOffset != Sentinel(tag) && codeOffset <= MsbValue(w[..l])
    ensures
      var i := MsbValue(w[..l]) - codeOffset;
      Matches(symbols, w, i) && symbols[i] == CodeSymbol(MsbValue(w[..l]), l)
  {
    NotBelowBefore(tag, n, symbols, w, l);
    NumBelowUsed(n, l - 1);
    SmallMeansCodes(tag, n, w, l, maxCode, codeOffset);
    CanonicalIs(tag, n, symbols);
    hide IsCanonical, Matches, MsbValue, CanonicalSymbols, Acceptable, NoneUpTo, NumUpTo, Used, EntriesFor;
    IndexedMatch(n, w, l);
  }

  /** The symbol whose number within its length is the number read. */
  lemma IndexedMatch(n: seq<nat>, w: seq<bool>, l: nat)
    requires 0 < l <= |w| && l < |n| && 2 * Used(n, l - 1) <= MsbValue(w[..l]) < Used(n, l)
    ensures
      var symbols := CanonicalSymbols(n, |n| - 1);
      var i := NumUpTo(n, l - 1) + (MsbValue(w[..l]) - 2 * Used(n, l - 1));
      Matches(symbols, w, i) && i < |symbols| && symbols[i] == CodeSymbol(MsbValue(w[..l]), l)
  {
    SumsAt(n, l);
    hide Matches, MsbValue, CanonicalSymbols, NumUpTo, Used;
    var i := BelowIsMatch(n, |n| - 1, w, l);
    RunInSymbols(n, |n| - 1, l, MsbValue(w[..l]) - 2 * Used(n, l - 1));
  }

  lemma CanonicalIs(tag: CodeTag, n: seq<nat>, symbols: seq<CodeSymbol>)
    requires IsCanonical(tag, n, symbols)
    ensures symbols == CanonicalSymbols(n, |n| - 1)
  {
  }

  lemma SumsAt(n: seq<nat>, l: nat)
    requires 0 < l < |n|
    ensures Used(n, l) == 2 * Used(n, l - 1) + n[l] && NumUpTo(n, l) == NumUpTo(n, l - 1) + n[l]
  {
  }

  lemma SmallMeansCodes(tag: CodeTag, n: seq<nat>, w: seq<bool>, l: nat, maxCode: nat, codeOffset: nat)
    requires Acceptable(tag, n) && 0 < l <= |w| && l < |n| && EntriesFor(tag, n, l, maxCode, codeOffset)
    requires MsbValue(w[..l]) <= maxCode && (l < |n| - 1 ==> maxCode != Sentinel(tag))
    ensures n[l] > 0 && MsbValue(w[..l]) < Used(n, l)
    ensures codeOffset != Sentinel(tag) && codeOffset == 2 * Used(n, l - 1) - NumUpTo(n, l - 1)
  {
  }

  lemma NotBelowBefore(tag: CodeTag, n: seq<nat>, symbols: seq<CodeSymbol>, w: seq<bool>, l: nat)
    requires IsCanonical(tag, n, symbols)
    requires 0 < l <= |w| && l < |n| && NoneUpTo(symbols, w, l - 1)
    ensures MsbValue(w[..l]) >= 2 * Used(n, l - 1)
  {
    assert w[..l][..l - 1] == w[..l - 1];
    assert MsbValue(w[..l]) >= 2 * MsbValue(w[..l - 1]);
    hide Matches, MsbValue, CanonicalSymbols, Used;
    if MsbValue(w[..l - 1]) < Used(n, l - 1) {
      var j := BelowIsMatch(n, |n| - 1, w, l - 1);
    }
  }

  /** A partial symbol that has already been ruled out is never taken for a symbol. */
  lemma StaysTooLarge(tag: CodeTag, n: seq<nat>, symbols: seq<CodeSymbol>, w: seq<bool>, l: nat,
                      maxCode: nat, codeOffset: nat)
    requires IsCanonical(tag, n, symbols) && l <= |w| && l < |n| && EntriesFor(tag, n, l, maxCode, codeOffset)
    requires NoneUpTo(symbols, w, l)
    ensures MsbValue(w[..l]) > maxCode || (l < |n| - 1 && maxCode == Sentinel(tag))
  {
    hide Matches, MsbValue, CanonicalSymbols;
    if l > 0 && n[l] > 0 && MsbValue(w[..l]) < Used(n, l) {
      var i := BelowIsMatch(n, |n| - 1, w, l);
    }
  }

  class PrefixCodeLookupDecoder {
    const code: PrefixCode
    var mode: Mode
    var maxCodeOL: seq<nat>
    var codeOffsetOL: seq<nat>

    ghost predicate Valid()
      reads this
    {
      && Usable(code, mode) && IsHuffman(code)
      && |maxCodeOL| == |codeOffsetOL| == |code.nCodesPerLength|
      && forall l :: 0 <= l < |maxCodeOL| ==>
                       EntriesFor(code.tag, code.nCodesPerLength, l, maxCodeOL[l], codeOffsetOL[l])
    }

    /** Only true Huffman codes are supported, not generic prefix codes. */
    constructor (code: PrefixCode)
      requires code.Valid() && IsHuffman(code)
      ensures this.code == code
    {
      this.code := code;
      mode := Mode(true, false);
      maxCodeOL := [];
      codeOffsetOL := [];
    }

    method Setup(fullDecode: bool, fixDNGBug16: bool) returns (r: Result<(), SetupError>)
      requires code.Valid() && IsHuffman(code) && (fullDecode ==> code.tag.SupportsFullDecode())
      modifies this
      ensures mode == Mode(fullDecode, fixDNGBug16)
      ensures r.Ok? <==> Usable(code, mode)
      ensures r.Ok? ==> Valid()
    {
      mode := Mode(fullDecode, fixDNGBug16);
      r := CheckSetup(code, mode);
      if r.Ok? {
        maxCodeOL, codeOffsetOL := GenerateTables(code);
      }
    }

    /** What one round of the loop of Figure F.15 stores. */
    static lemma NewEntries(code: PrefixCode, l: nat)
      requires code.Valid() && IsHuffman(code) && 0 < l <= code.MaxCodeLength() && code.nCodesPerLength[l] > 0
      ensures
        var n := code.nCodesPerLength;
        var k := NumUpTo(n, l - 1);
        && k + n[l] == NumUpTo(n, l) <= |code.symbols|
        && k <= code.symbols[k].code
        && EntriesFor(code.tag, n, l, code.symbols[k + n[l] - 1].code, code.symbols[k].code - k)
    {
      var n := code.nCodesPerLength;
      hide PrefixCode.Valid, CanonicalSymbols;
      TablesAreUnambiguous(code.tag, n, l);
      NumBelowUsed(n, l - 1);
      RunInSymbols(n, |n| - 1, l, 0);
      RunInSymbols(n, |n| - 1, l, n[l] - 1);
    }

    static lemma NoEntries(tag: CodeTag, n: seq<nat>, l: nat)
      requires l == 0 || CodesOfLength(n, l) == 0
      ensures EntriesFor(tag, n, l, Sentinel(tag), Sentinel(tag)) && NumUpTo(n, 0) == 0
    {
    }

    static lemma EmptyLength(n: seq<nat>, l: nat)
      requires 0 < l < |n| && n[l] == 0
      ensures NumUpTo(n, l) == NumUpTo(n, l - 1)
    {
    }

    /** The entries of all lengths below `len` are in place. */
    static ghost predicate EntriesUpTo(tag: CodeTag, n: seq<nat>, maxCodes: seq<nat>, codeOffsets: seq<nat>, len: nat)
      requires len <= |maxCodes| && len <= |codeOffsets|
    {
      forall l :: 0 <= l < len ==> EntriesFor(tag, n, l, maxCodes[l], codeOffsets[l])
    }

    static lemma OneEntry(tag: CodeTag, n: seq<nat>, maxCodes: seq<nat>, codeOffsets: seq<nat>)
      requires 0 < |maxCodes| == |codeOffsets| == |n| && EntriesFor(tag, n, 0, maxCodes[0], codeOffsets[0])
      ensures EntriesUpTo(tag, n, maxCodes, codeOffsets, 1)
    {
    }

    static lemma EntryStored(tag: CodeTag, n: seq<nat>, maxCodes: seq<nat>, codeOffsets: seq<nat>, l: nat,
                             maxCode: nat, codeOffset: nat)
      requires |maxCodes| == |codeOffsets| == |n| && l < |n| && EntriesFor(tag, n, l, maxCode, codeOffset)
      requires EntriesUpTo(tag, n, maxCodes, codeOffsets, l)
      ensures EntriesUpTo(tag, n, maxCodes[l := maxCode], codeOffsets[l := codeOffset], l + 1)
    {
      hide EntriesFor;
    }

    /** Figure F.15. */
    static method GenerateTables(code: PrefixCode) returns (maxCodes: seq<nat>, codeOffsets: seq<nat>)
      requires code.Valid() && IsHuffman(code)
      ensures |maxCodes| == |codeOffsets| == |code.nCodesPerLength|
      ensures EntriesUpTo(code.tag, code.nCodesPerLength, maxCodes, codeOffsets, |maxCodes|)
    {
      assert |code.nCodesPerLength| > 1;
      hide EntriesFor, PrefixCode.Valid, IsHuffman, NumUpTo, Used, Sentinel, EntriesUpTo;
      var n := code.nCodesPerLength;
      NoEntries(code.tag, n, 0);
      codeOffsets := seq<nat>(|n|, _ => Sentinel(code.tag));
      maxCodes := seq<nat>(|n|, _ => Sentinel(code.tag));
      OneEntry(code.tag, n, maxCodes, codeOffsets);
      var numCodesSoFar := 0;
      var codeLen := 1;
      while codeLen <= code.MaxCodeLength()
        invariant 1 <= codeLen <= |n| && |maxCodes| == |codeOffsets| == |n|
        invariant numCodesSoFar == NumUpTo(n, codeLen - 1)
        invariant EntriesUpTo(code.tag, n, maxCodes, codeOffsets, codeLen)
        invariant forall l :: codeLen <= l < |n| ==>
                                maxCodes[l] == Sentinel(code.tag) && codeOffsets[l] == Sentinel(code.tag)
      {
        if n[codeLen] == 0 {
          NoEntries(code.tag, n, codeLen);
          EmptyLength(n, codeLen);
          EntryStored(code.tag, n, maxCodes, codeOffsets, codeLen, Sentinel(code.tag), Sentinel(code.tag));
          assert maxCodes[codeLen := Sentinel(code.tag)] == maxCodes;
          assert codeOffsets[codeLen := Sentinel(code.tag)] == codeOffsets;
          codeLen := codeLen + 1;
          continue;
        }
        NewEntries(code, codeLen);
        EntryStored(code.tag, n, maxCodes, codeOffsets, codeLen, code.symbols[numCodesSoFar + n[codeLen] - 1].code,
                    code.symbols[numCodesSoFar].code - numCodesSoFar);
        codeOffsets := codeOffsets[codeLen := code.symbols[numCodesSoFar].code - numCodesSoFar];
        numCodesSoFar := numCodesSoFar + n[codeLen];
        maxCodes := maxCodes[codeLen := code.symbols[numCodesSoFar - 1].code];
        codeLen := codeLen + 1;
      }
    }

    method FinishReadingPartialSymbol(bs: BitStreamer, initialPartial: CodeSymbol, ghost w: seq<bool>, ghost from: nat)
      returns (r: Option<Found>, ghost i: nat)
      requires Valid() && Reading(bs, w, from, initialPartial)
      requires code.MaxCodeLength() <= |w|
      requires NoneUpTo(code.symbols, w, initialPartial.len)
      modifies bs`cache
      ensures Valid() && Finished(bs, code, w, from, r, i)
    {
      ReadingFacts(bs, w, from, initialPartial);
      assert IsCanonical(code.tag, code.nCodesPerLength, code.symbols);
      hide IsHuffman;
      hide Reading, Matches, MsbValue, PrefixCode.Valid, IsCanonical, NoneUpTo, EntriesFor;
      ghost var n := code.nCodesPerLength;
      var partial := initialPartial;
      i := 0;
      while partial.len < code.MaxCodeLength() &&
            (Sentinel(code.tag) == maxCodeOL[partial.len] || partial.code > maxCodeOL[partial.len])
        invariant initialPartial.len <= partial.len
        invariant partial == initialPartial || partial.len <= code.MaxCodeLength()
        invariant bs.Valid() && Reading(bs, w, from, partial)
        invariant partial.len > initialPartial.len ==> NoneUpTo(code.symbols, w, partial.len - 1)
        invariant partial.len == initialPartial.len ==> NoneUpTo(code.symbols, w, partial.len)
        decreases code.MaxCodeLength() - partial.len
      {
        ReadingFacts(bs, w, from, partial);
        if partial.len > initialPartial.len {
          TooLargeIsNone(code.tag, n, code.symbols, w, partial.len, maxCodeOL[partial.len], codeOffsetOL[partial.len]);
        }
        partial := ReadBit(bs, partial, w, from);
      }
      ReadingFacts(bs, w, from, partial);
      r, i := Resolve(partial, initialPartial.len, w);
    }

    /** The end of Figure F.16: the index of a symbol that is long enough. */
    method Resolve(partial: CodeSymbol, ghost initialLen: nat, ghost w: seq<bool>)
      returns (r: Option<Found>, ghost i: nat)
      requires Valid() && initialLen <= partial.len <= |w| && partial.code == MsbValue(w[..partial.len])
      requires NoneUpTo(code.symbols, w, if partial.len > initialLen then partial.len - 1 else partial.len)
      requires partial.len < code.MaxCodeLength() ==>
                 maxCodeOL[partial.len] != Sentinel(code.tag) && partial.code <= maxCodeOL[partial.len]
      ensures r.None? ==> NoMatch(code.symbols, w)
      ensures r.Some? ==> Matches(code.symbols, w, i)
                          && r.value == Found(code.symbols[i], code.codeValues[i])
                          && code.symbols[i] == partial
    {
      assert IsCanonical(code.tag, code.nCodesPerLength, code.symbols);
      hide IsHuffman, Matches, MsbValue, PrefixCode.Valid, IsCanonical, NoneUpTo, EntriesFor, NoMatch;
      ghost var n := code.nCodesPerLength;
      i := 0;
      if partial.len > code.MaxCodeLength() {
        NoneBelow(code.symbols, w, partial.len, code.MaxCodeLength());
        NothingLonger(code, w, code.MaxCodeLength());
        return None, i;
      }
      if partial.len == initialLen {
        StaysTooLarge(code.tag, n, code.symbols, w, partial.len, maxCodeOL[partial.len], codeOffsetOL[partial.len]);
      }
      if partial.code > maxCodeOL[partial.len] {
        if partial.len > initialLen {
          TooLargeIsNone(code.tag, n, code.symbols, w, partial.len, maxCodeOL[partial.len], codeOffsetOL[partial.len]);
        }
        NothingLonger(code, w, partial.len);
        return None, i;
      }
      SmallEnoughIsMatch(code.tag, n, code.symbols, w, partial.len, maxCodeOL[partial.len], codeOffsetOL[partial.len]);
      var codeIndex := partial.code - codeOffsetOL[partial.len];
      i := codeIndex;
      MatchIndex(code, w, i);
      return Some(Found(partial, code.codeValues[codeIndex])), i;
    }

    lemma NoneBelow(symbols: seq<CodeSymbol>, w: seq<bool>, l: nat, k: nat)
      requires NoneUpTo(symbols, w, if l > k then l - 1 else l) && k <= l
      ensures NoneUpTo(symbols, w, k)
    {
    }

    lemma MatchIndex(code: PrefixCode, w: seq<bool>, i: nat)
      requires code.Valid() && Matches(code.symbols, w, i)
      ensures i < |code.symbols| == |code.codeValues|
    {
    }

    lemma ReadingFacts(bs: BitStreamer, w: seq<bool>, from: nat, partial: CodeSymbol)
      requires Reading(bs, w, from, partial)
      ensures bs.Valid() && partial.len <= |w| && partial.code == MsbValue(w[..partial.len])
    {
    }

    method Decode(bs: BitStreamer) returns (d: Decoded)
      requires Valid() && bs.Valid() && CanUseWithPrefixCodes(bs.order)
      modifies bs
      ensures Valid() && bs.Valid()
      ensures DecodesTo(code, mode, old(bs.Upcoming(32)), old(bs.CanFill(32)), old(bs.Cursor()), d, bs.Cursor())
    {
      hide DecodeSpec, Reading, BitOrder.StreamBit;
      var ok := bs.Fill(32);
      if !ok {
        return OverRead;
      }
      ghost var w := bs.Upcoming(32);
      StartReading(bs, w);
      var r;
      ghost var i;
      NothingEmpty(code, w);
      r, i := FinishReadingPartialSymbol(bs, CodeSymbol(0, 0), w, bs.Cursor());
      d := FinishDecode(bs, code, mode, r, w, old(bs.Cursor()), i);
    }
  }
}
