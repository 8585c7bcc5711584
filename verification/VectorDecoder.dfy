/** The decoder that compares the bits read so far with all symbols of that length. */
module VectorDecoder {
  import opened BitStreamer
  import opened CodeSymbols
  import opened PrefixCodes
  import opened Decoding
  import opened Results

  class PrefixCodeVectorDecoder {
    const code: PrefixCode
    var mode: Mode

    /** The smallest symbol index of each length. */
    var extrCodeIdForLen: seq<nat>

    ghost predicate Valid()
      reads this
    {
      && Usable(code, mode)
      && |extrCodeIdForLen| == 1 + |code.nCodesPerLength|
      && forall l :: 1 <= l < |extrCodeIdForLen| ==> extrCodeIdForLen[l] == NumUpTo(code.nCodesPerLength, l - 1)
    }

    constructor (code: PrefixCode)
      requires code.Valid()
      ensures this.code == code
    {
      this.code := code;
      mode := Mode(true, false);
      extrCodeIdForLen := [];
    }

    method Setup(fullDecode: bool, fixDNGBug16: bool) returns (r: Result<(), SetupError>)
      requires code.Valid() && (fullDecode ==> code.tag.SupportsFullDecode())
      modifies this
      ensures mode == Mode(fullDecode, fixDNGBug16)
      ensures r.Ok? <==> Usable(code, mode)
      ensures r.Ok? ==> Valid()
    {
      mode := Mode(fullDecode, fixDNGBug16);
      r := CheckSetup(code, mode);
      if r.Err? {
        return;
      }
      var table := [0, 0];
      var codeLen := 1;
      while codeLen < |code.nCodesPerLength|
        invariant 1 <= codeLen <= |code.nCodesPerLength| && |table| == codeLen + 1
        invariant forall l :: 1 <= l <= codeLen ==> table[l] == NumUpTo(code.nCodesPerLength, l - 1)
      {
        var minCodeId := table[|table| - 1];
        minCodeId := minCodeId + code.nCodesPerLength[codeLen];
        table := table + [minCodeId];
        codeLen := codeLen + 1;
      }
      extrCodeIdForLen := table;
    }

    /** The symbols of length `l` are those between two entries of the table. */
    lemma RangeOfLength(l: nat)
      requires Valid() && 0 < l <= code.MaxCodeLength()
      ensures extrCodeIdForLen[l] <= extrCodeIdForLen[l + 1] <= |code.symbols|
      ensures forall i :: 0 <= i < |code.symbols| ==>
                            (code.symbols[i].len == l <==> extrCodeIdForLen[l] <= i < extrCodeIdForLen[l + 1])
    {
      var full := Counts(code.symbols, code.tag.MaxCodeLength());
      UsedOfTrimmed(full, code.nCodesPerLength, l - 1);
      UsedOfTrimmed(full, code.nCodesPerLength, l);
      SymbolsOfLength(code.symbols, code.tag.MaxCodeLength(), l - 1);
      SymbolsOfLength(code.symbols, code.tag.MaxCodeLength(), l);
    }

    method FinishReadingPartialSymbol(bs: BitStreamer, initialPartial: CodeSymbol, ghost w: seq<bool>, ghost from: nat)
      returns (r: Option<Found>, ghost i: nat)
      requires Valid() && Reading(bs, w, from, initialPartial)
      requires code.MaxCodeLength() <= |w|
      requires NoneUpTo(code.symbols, w, initialPartial.len)
      modifies bs`cache
      ensures Valid() && Finished(bs, code, w, from, r, i)
    {
      assert bs.Valid();
      hide Reading, Matches, NoneUpTo, NoMatch, NumUpTo, BitStreamer.Valid, PrefixCode.Valid;
      var partial := initialPartial;
      i := 0;
      while partial.len < code.MaxCodeLength()
        invariant initialPartial.len <= partial.len
        invariant partial == initialPartial || partial.len <= code.MaxCodeLength()
        invariant bs.Valid() && Reading(bs, w, from, partial)
        invariant NoneUpTo(code.symbols, w, partial.len)
      {
        partial := ReadBit(bs, partial, w, from);
        var found := FindSymbolOfLength(bs, partial, w, from);
        if found.Some? {
          return Some(Found(code.symbols[found.value], code.codeValues[found.value])), found.value;
        }
      }
      NothingLonger(code, w, partial.len);
      return None, i;
    }

    /** Given the bits read so far, is there a symbol of that length that equals them? */
    method FindSymbolOfLength(bs: BitStreamer, partial: CodeSymbol, ghost w: seq<bool>, ghost from: nat)
      returns (found: Option<nat>)
      requires Valid() && Reading(bs, w, from, partial) && 0 < partial.len <= code.MaxCodeLength()
      requires NoneUpTo(code.symbols, w, partial.len - 1)
      ensures found.Some? ==> found.value < |code.symbols| == |code.codeValues|
                              && Matches(code.symbols, w, found.value) && code.symbols[found.value] == partial
      ensures found.None? ==> NoneUpTo(code.symbols, w, partial.len)
    {
      RangeOfLength(partial.len);
      hide Reading, Matches, NoneUpTo, NumUpTo;
      var codeId := extrCodeIdForLen[partial.len];
      while codeId < extrCodeIdForLen[1 + partial.len]
        invariant extrCodeIdForLen[partial.len] <= codeId <= extrCodeIdForLen[1 + partial.len]
        invariant forall k: nat :: extrCodeIdForLen[partial.len] <= k < codeId ==> !Matches(code.symbols, w, k)
      {
        CompareWithPartial(bs, codeId, w, from, partial);
        if code.symbols[codeId] == partial {
          return Some(codeId);
        }
        codeId := codeId + 1;
      }
      NoneOfLength(w, partial.len);
      return None;
    }

    lemma CompareWithPartial(bs: BitStreamer, i: nat, w: seq<bool>, from: nat, partial: CodeSymbol)
      requires Valid() && Reading(bs, w, from, partial)
      requires i < |code.symbols| && code.symbols[i].len == partial.len
      ensures code.symbols[i] == partial <==> Matches(code.symbols, w, i)
    {
      assert code.symbols[i].Fits(code.tag.MaxCodeLength());
      EqualIsMatch(code.symbols[i], w, partial);
    }

    lemma NoneOfLength(w: seq<bool>, l: nat)
      requires Valid() && 0 < l <= code.MaxCodeLength() && NoneUpTo(code.symbols, w, l - 1)
      requires forall k: nat :: extrCodeIdForLen[l] <= k < extrCodeIdForLen[l + 1] ==> !Matches(code.symbols, w, k)
      ensures NoneUpTo(code.symbols, w, l)
    {
      RangeOfLength(l);
    }

    method Decode(bs: BitStreamer) returns (d: Decoded)
      requires Valid() && bs.Valid() && CanUseWithPrefixCodes(bs.order)
      modifies bs
      ensures Valid() && bs.Valid()
      ensures DecodesTo(code, mode, old(bs.Upcoming(32)), old(bs.CanFill(32)), old(bs.Cursor()), d, bs.Cursor())
    {
      hide DecodeSpec, Reading, BitOrder.StreamBit;
      var ok := bs.Fill(32);
      if !ok {
        return OverRead;
      }
      ghost var w := bs.Upcoming(32);
      StartReading(bs, w);
      var r;
      ghost var i;
      r, i := FinishReadingPartialSymbol(bs, CodeSymbol(0, 0), w, bs.Cursor());
      d := FinishDecode(bs, code, mode, r, w, old(bs.Cursor()), i);
    }
  }
}
