/** The decoder in front of the others: one look at a table of 2048 entries decodes short
    symbols together with their difference; for the rest it falls back, in the middle of the
    code word, to the decoder behind it. */
module LutDecoder {
  import opened Bits
  import opened BitOrder
  import opened BitStreamer
  import opened CodeSymbols
  import opened PrefixCodes
  import opened Decoding
  import opened Difference
  import opened LutEntry
  import opened LookupDecoder
  import opened VectorDecoder
  import opened TreeDecoder
  import opened Results

  // ----- the table as a function

  /** The first 11 bits `c` begin with this symbol. */
  predicate Covers(symbol: CodeSymbol, c: nat) {
    symbol.len <= LOOKUP_DEPTH && symbol.Bits() <= MsbBits(c, LOOKUP_DEPTH)
  }

  /** The table after the first `k` symbols. */
  ghost function EntryUpTo(code: PrefixCode, mode: Mode, k: nat, c: nat): nat
    requires Usable(code, mode) && k <= |code.symbols|
  {
    if k == 0 then 0
    else if Covers(code.symbols[k - 1], c) then
      SymbolFits(code, mode, k - 1);
      EntryOf(mode, code.symbols[k - 1].len, code.codeValues[k - 1], c)
    else EntryUpTo(code, mode, k - 1, c)
  }

  /** The indices that begin with a symbol are consecutive. */
  lemma CoveredRange(symbol: CodeSymbol, c: nat)
    requires 0 < symbol.len <= LOOKUP_DEPTH && symbol.code < Pow2(symbol.len)
    requires c < TABLE_SIZE
    ensures
      var k := LOOKUP_DEPTH - symbol.len;
      Covers(symbol, c) <==> Shl(symbol.code, k) <= c < Shl(symbol.code, k) + Pow2(k)
  {
    var k := LOOKUP_DEPTH - symbol.len;
    SmallPowers();
    HighPart(c, LOOKUP_DEPTH, k);
    ShlOfShr(c, k);
    var ll := Shl(symbol.code, k);
    if ll <= c < ll + Pow2(k) {
      ShrOfShl(symbol.code, k, c - ll);
    }
    if Covers(symbol, c) {
      assert MsbBits(Shr(c, k), symbol.len) == symbol.Bits();
      MsbBitsInjective(Shr(c, k), symbol.code, symbol.len);
    }
  }

  lemma RangeInTable(symbol: CodeSymbol)
    requires 0 < symbol.len <= LOOKUP_DEPTH && symbol.code < Pow2(symbol.len)
    ensures
      var k := LOOKUP_DEPTH - symbol.len;
      && Shl(symbol.code, k) + Pow2(k) <= TABLE_SIZE
      && Or(Shl(symbol.code, k), Pow2(k) - 1) == Shl(symbol.code, k) + Pow2(k) - 1
  {
    var k := LOOKUP_DEPTH - symbol.len;
    SmallPowers();
    hide Shl, Or, Pow2;
    OrIsSum(symbol.code, k, Pow2(k) - 1);
    ShlIsProduct(symbol.code, k);
    Pow2Sum(symbol.len, k);
    ProductBound(symbol.code, Pow2(symbol.len), Pow2(k));
  }

  lemma ProductBound(a: nat, b: nat, p: nat)
    requires a < b
    ensures a * p + p <= b * p
  {
    assert (a + 1) * p <= b * p;
  }

  /** Symbols too long for the table leave no trace in it. */
  lemma {:induction false} LongSymbolsLeaveNoEntry(code: PrefixCode, mode: Mode, k: nat, m: nat, c: nat)
    requires Usable(code, mode) && k <= m <= |code.symbols|
    requires k < |code.symbols| ==> code.symbols[k].len > LOOKUP_DEPTH
    ensures EntryUpTo(code, mode, m, c) == EntryUpTo(code, mode, k, c)
  {
    if k < m {
      assert code.symbols[k].len <= code.symbols[m - 1].len;
      LongSymbolsLeaveNoEntry(code, mode, k, m - 1, c);
    }
  }

  /** The entry is that of the one symbol which covers the index, or zero. */
  lemma {:induction false} EntryOfCovering(code: PrefixCode, mode: Mode, k: nat, c: nat, i: nat)
    requires Usable(code, mode) && i < k <= |code.symbols| && Covers(code.symbols[i], c)
    ensures 0 < code.symbols[i].len && (mode.fullDecode ==> code.codeValues[i] <= MAX_DIFF_LENGTH)
    ensures EntryUpTo(code, mode, k, c) == EntryOf(mode, code.symbols[i].len, code.codeValues[i], c)
  {
    SymbolFits(code, mode, i);
    if Covers(code.symbols[k - 1], c) {
      MatchIsUnique(code.symbols, MsbBits(c, LOOKUP_DEPTH), i, k - 1);
    } else {
      EntryOfCovering(code, mode, k - 1, c, i);
    }
  }

  lemma {:induction false} EntryOfUncovered(code: PrefixCode, mode: Mode, k: nat, c: nat)
    requires Usable(code, mode) && k <= |code.symbols|
    requires forall i :: 0 <= i < k ==> !Covers(code.symbols[i], c)
    ensures EntryUpTo(code, mode, k, c) == 0
  {
    if k > 0 {
      EntryOfUncovered(code, mode, k - 1, c);
    }
  }

  /** `w` is what comes next in the stream, `c` its first 11 bits. */
  lemma CoversIsMatch(code: PrefixCode, w: seq<bool>, c: nat, i: nat)
    requires LOOKUP_DEPTH <= |w| && c == MsbValue(w[..LOOKUP_DEPTH]) && i < |code.symbols|
    ensures Covers(code.symbols[i], c) <==>
            code.symbols[i].len <= LOOKUP_DEPTH && Matches(code.symbols, w, i)
  {
    MsbBitsOfValue(w[..LOOKUP_DEPTH]);
    if code.symbols[i].len <= LOOKUP_DEPTH {
      PrefixOfHead(code.symbols[i].Bits(), w, w[..LOOKUP_DEPTH]);
    }
  }

  lemma PrefixOfHead(a: seq<bool>, w: seq<bool>, head: seq<bool>)
    requires head <= w && |a| <= |head|
    ensures a <= w <==> a <= head
  {
  }

  /** A table hit: the entry says what the specification says about the symbol. */
  lemma HitIsRight(code: PrefixCode, mode: Mode, w: seq<bool>, c: nat, i: nat)
    requires Usable(code, mode) && 32 <= |w| && c == MsbValue(w[..LOOKUP_DEPTH])
    requires Matches(code.symbols, w, i) && code.symbols[i].len <= LOOKUP_DEPTH
    ensures
      var entry := EntryUpTo(code, mode, |code.symbols|, c);
      && entry < TWO_32
      && EntryMeans(entry, mode, code.symbols[i].len, code.codeValues[i], w[..LOOKUP_DEPTH])
  {
    CoversIsMatch(code, w, c, i);
    EntryOfCovering(code, mode, |code.symbols|, c, i);
    ValueIsSmall(code, i);
    EntryIsRight(mode, code.symbols[i].len, code.codeValues[i], c, w[..LOOKUP_DEPTH]);
  }

  lemma ValueIsSmall(code: PrefixCode, i: nat)
    requires code.Valid() && i < |code.symbols|
    ensures code.codeValues[i] < 0x8_0000
  {
    assert code.codeValues[i] in code.codeValues;
  }

  /** The payload of a flagged entry is the decoded value. */
  lemma FlaggedIsDecoded(code: PrefixCode, mode: Mode, w: seq<bool>, c: nat, i: nat)
    requires Usable(code, mode) && |w| == 32 && c == MsbValue(w[..LOOKUP_DEPTH])
    requires Matches(code.symbols, w, i) && code.symbols[i].len <= LOOKUP_DEPTH
    requires !(mode.fullDecode && code.symbols[i].len + code.codeValues[i] > LOOKUP_DEPTH && code.codeValues[i] != 16)
    ensures
      var entry := EntryUpTo(code, mode, |code.symbols|, c);
      && entry < TWO_32
      && Flag(entry) && Len(entry) <= 32
      && DecodeSpec(code, mode, w) == Some(Effect(Payload(entry), Len(entry)))
  {
    HitIsRight(code, mode, w, c, i);
    DecodeOfMatch(code, mode, w, i);
    var len, value := code.symbols[i].len, code.codeValues[i];
    if mode.fullDecode && value != 16 && value != 0 {
      assert w[..LOOKUP_DEPTH][len..len + value] == w[len..len + value];
    }
  }

  /** An entry of zero: no symbol of up to 11 bits comes next. */
  lemma MissMeansLonger(code: PrefixCode, mode: Mode, w: seq<bool>, c: nat)
    requires Usable(code, mode) && 32 <= |w| && c == MsbValue(w[..LOOKUP_DEPTH])
    ensures
      var entry := EntryUpTo(code, mode, |code.symbols|, c);
      entry == 0 <==> NoneUpTo(code.symbols, w, LOOKUP_DEPTH)
  {
    var entry := EntryUpTo(code, mode, |code.symbols|, c);
    if i: nat :| Matches(code.symbols, w, i) && code.symbols[i].len <= LOOKUP_DEPTH {
      HitIsRight(code, mode, w, c, i);
      SymbolFits(code, mode, i);
      ZeroEntry();
    } else {
      forall i | 0 <= i < |code.symbols|
        ensures !Covers(code.symbols[i], c)
      {
        CoversIsMatch(code, w, c, i);
      }
      EntryOfUncovered(code, mode, |code.symbols|, c);
    }
  }

  lemma ZeroEntry()
    ensures !Flag(0)
  {
  }

  // ----- the table as it is filled

  /** `setup` of the lookup table. */
  method FillTable(code: PrefixCode, mode: Mode) returns (decodeLookup: seq<nat>)
    requires Usable(code, mode)
    ensures |decodeLookup| == TABLE_SIZE
    ensures forall c :: 0 <= c < TABLE_SIZE ==> decodeLookup[c] == EntryUpTo(code, mode, |code.symbols|, c)
  {
    decodeLookup := seq<nat>(TABLE_SIZE, _ => 0);
    var i := 0;
    while i < |code.symbols|
      invariant 0 <= i <= |code.symbols| && |decodeLookup| == TABLE_SIZE
      invariant forall c :: 0 <= c < TABLE_SIZE ==> decodeLookup[c] == EntryUpTo(code, mode, i, c)
    {
      var codeLen := code.symbols[i].len;
      SymbolFits(code, mode, i);
      if codeLen > LOOKUP_DEPTH {
        forall c | 0 <= c < TABLE_SIZE
          ensures EntryUpTo(code, mode, |code.symbols|, c) == EntryUpTo(code, mode, i, c)
        {
          LongSymbolsLeaveNoEntry(code, mode, i, |code.symbols|, c);
        }
        break;
      }
      decodeLookup := FillRange(code, mode, i, decodeLookup);
      i := i + 1;
    }
  }

  /** The entries of one symbol. The indices never leave the table. */
  method FillRange(code: PrefixCode, mode: Mode, i: nat, before: seq<nat>) returns (decodeLookup: seq<nat>)
    requires Usable(code, mode) && i < |code.symbols| && 0 < code.symbols[i].len <= LOOKUP_DEPTH
    requires |before| == TABLE_SIZE
    requires forall c :: 0 <= c < TABLE_SIZE ==> before[c] == EntryUpTo(code, mode, i, c)
    ensures |decodeLookup| == TABLE_SIZE
    ensures forall c :: 0 <= c < TABLE_SIZE ==> decodeLookup[c] == EntryUpTo(code, mode, i + 1, c)
  {
    var symbol, diffLen := code.symbols[i], code.codeValues[i];
    assert symbol.Fits(code.tag.MaxCodeLength());
    SymbolFits(code, mode, i);
    RangeInTable(symbol);
    hide Usable, Covers, EntryOf, Or, Shl;
    var ll := Shl(symbol.code, LOOKUP_DEPTH - symbol.len);
    var ul := Or(ll, Pow2(LOOKUP_DEPTH - symbol.len) - 1);
    decodeLookup := before;
    var c := ll;
    while c <= ul
      invariant ll <= c <= ul + 1 && |decodeLookup| == TABLE_SIZE
      invariant forall d :: 0 <= d < TABLE_SIZE ==>
                              decodeLookup[d] == if ll <= d < c then EntryOf(mode, symbol.len, diffLen, d) else before[d]
    {
      assert c < |decodeLookup|;
      decodeLookup := decodeLookup[c := EntryOf(mode, symbol.len, diffLen, c)];
      c := c + 1;
    }
    forall d | 0 <= d < TABLE_SIZE
      ensures decodeLookup[d] == EntryUpTo(code, mode, i + 1, d)
    {
      CoveredRange(symbol, d);
    }
  }

  // ----- the decoder

  /** The decoder behind the table. */
  datatype Backend =
    | Lookup(lookup: PrefixCodeLookupDecoder)
    | Vector(vector: PrefixCodeVectorDecoder)
    | Tree(tree: PrefixCodeTreeDecoder)
  {
    function Code(): PrefixCode {
      match this
      case Lookup(d) => d.code
      case Vector(d) => d.code
      case Tree(d) => d.code
    }

    function GetMode(): Mode
      reads Owner()
    {
      match this
      case Lookup(d) => d.mode
      case Vector(d) => d.mode
      case Tree(d) => d.mode
    }

    /** The decoder object itself. */
    function Owner(): object {
      match this
      case Lookup(d) => d
      case Vector(d) => d
      case Tree(d) => d
    }

    ghost predicate Valid()
      reads Owner()
      reads if Tree? then {tree.tree} else {}
      reads if Tree? && tree.tree.root != null then {tree.tree.root} + tree.tree.root.Repr else {}
    {
      match this
      case Lookup(d) => d.Valid()
      case Vector(d) => d.Valid()
      case Tree(d) => d.Valid()
    }
  }

  class PrefixCodeLUTDecoder {
    const backend: Backend
    const code: PrefixCode := backend.Code()
    var decodeLookup: seq<nat>

    ghost predicate Valid()
      reads this, backend.Owner()
      reads if backend.Tree? then {backend.tree.tree} else {}
      reads if backend.Tree? && backend.tree.tree.root != null
            then {backend.tree.tree.root} + backend.tree.tree.root.Repr else {}
    {
      && backend.Valid() && Usable(code, backend.GetMode())
      && |decodeLookup| == TABLE_SIZE
      && forall c :: 0 <= c < TABLE_SIZE ==> decodeLookup[c] == EntryUpTo(code, backend.GetMode(), |code.symbols|, c)
    }

    /** The backend has been set up; the table is filled for the same settings. */
    constructor (backend: Backend)
      requires backend.Valid() && Usable(backend.Code(), backend.GetMode())
      ensures this.backend == backend && Valid()
    {
      this.backend := backend;
      decodeLookup := [];
      new;
      decodeLookup := FillTable(code, backend.GetMode());
    }

    /** Falls back to the decoder behind the table. */
    method FinishReadingPartialSymbol(bs: BitStreamer, partial: CodeSymbol, ghost w: seq<bool>, ghost from: nat)
      returns (r: Option<Found>, ghost i: nat)
      requires Valid() && Reading(bs, w, from, partial)
      requires code.MaxCodeLength() <= |w|
      requires NoneUpTo(code.symbols, w, partial.len)
      modifies bs`cache
      ensures Valid() && Finished(bs, code, w, from, r, i)
    {
      hide Usable, Reading, Finished, EntryUpTo, NoneUpTo;
      match backend {
        case Lookup(d) => r, i := d.FinishReadingPartialSymbol(bs, partial, w, from);
        case Vector(d) => r, i := d.FinishReadingPartialSymbol(bs, partial, w, from);
        case Tree(d) => r, i := d.FinishReadingPartialSymbol(bs, partial, w, from);
      }
    }

    method Decode(bs: BitStreamer) returns (d: Decoded)
      requires Valid() && bs.Valid() && CanUseWithPrefixCodes(bs.order)
      modifies bs
      ensures Valid() && bs.Valid()
      ensures DecodesTo(code, backend.GetMode(), old(bs.Upcoming(32)), old(bs.CanFill(32)), old(bs.Cursor()), d, bs.Cursor())
    {
      hide DecodeSpec, StreamBit, EntryUpTo, Reading, Holds, Usable;
      var ok := bs.Fill(32);
      if !ok {
        return OverRead;
      }
      ghost var w := bs.Upcoming(32);
      StartReading(bs, w);
      d := DecodeFilled(bs, w, bs.Cursor());
    }

    /** After one refill, no further one is needed. */
    method DecodeFilled(bs: BitStreamer, ghost w: seq<bool>, ghost from: nat) returns (d: Decoded)
      requires Valid() && |w| == 32 && Reading(bs, w, from, CodeSymbol(0, 0))
      modifies bs`cache
      ensures Valid() && bs.Valid()
      ensures DecodesTo(code, backend.GetMode(), w, true, from, d, bs.Cursor())
    {
      hide DecodeSpec, Reading, StreamBit, EntryUpTo, Flag, Len, Payload, NoneUpTo, Matches, Finished, Holds;
      hide PrefixCode.Valid, Usable, MsbValue, SymbolEffect;
      ghost var mode := backend.GetMode();
      var partial := PeekPartial(bs, w, from);
      var lutEntry := decodeLookup[partial.code];
      ghost var i := EntryFacts(code, mode, w, partial.code, lutEntry);
      if Flag(lutEntry) {
        SkipEntry(bs, Len(lutEntry), w, from);
        return Value(Payload(lutEntry));
      }
      if lutEntry != 0 {
        d := FinishHit(bs, code, backend.GetMode(), Len(lutEntry), Payload(lutEntry), w, from, i);
      } else {
        d := FinishMiss(bs, partial, w, from);
      }
    }

    /** No short symbol comes next: the backend goes on after the 11 bits. */
    method FinishMiss(bs: BitStreamer, partial: CodeSymbol, ghost w: seq<bool>, ghost from: nat) returns (d: Decoded)
      requires Valid() && |w| == 32 && Reading(bs, w, from, CodeSymbol(0, 0))
      requires partial.len == LOOKUP_DEPTH && partial.code == MsbValue(w[..LOOKUP_DEPTH])
      requires NoneUpTo(code.symbols, w, LOOKUP_DEPTH)
      modifies bs`cache
      ensures Valid() && bs.Valid()
      ensures DecodesTo(code, backend.GetMode(), w, true, from, d, bs.Cursor())
    {
      hide DecodeSpec, Reading, StreamBit, EntryUpTo, NoneUpTo, Matches, Finished, Holds;
      hide PrefixCode.Valid, Usable, MsbValue, SymbolEffect;
      MaxCodeLengthFits(code, backend.GetMode());
      SkipInto(bs, partial, w, from);
      ghost var i;
      var r;
      r, i := FinishReadingPartialSymbol(bs, partial, w, from);
      d := FinishDecode(bs, code, backend.GetMode(), r, w, from, i);
    }
  }

  /** The next 11 bits, as a symbol that is still unknown. */
  method PeekPartial(bs: BitStreamer, ghost w: seq<bool>, ghost from: nat) returns (partial: CodeSymbol)
    requires |w| == 32 && Reading(bs, w, from, CodeSymbol(0, 0))
    ensures partial.len == LOOKUP_DEPTH
    ensures partial.code < TABLE_SIZE && partial.code == MsbValue(w[..LOOKUP_DEPTH])
  {
    hide StreamBit, Holds, MsbValue;
    assert w[0..] == w;
    WindowHead(bs.order, bs.input, bs.Cursor(), w, LOOKUP_DEPTH);
    var bits := bs.PeekBitsNoFill(LOOKUP_DEPTH);
    ValueOfRow(bits, w[..LOOKUP_DEPTH]);
    SmallPowers();
    partial := CodeSymbol(bits, LOOKUP_DEPTH);
  }

  /** Skips the bits that the entry stands for. */
  method SkipEntry(bs: BitStreamer, len: nat, ghost w: seq<bool>, ghost from: nat)
    requires |w| == 32 && len <= 32 && Reading(bs, w, from, CodeSymbol(0, 0))
    modifies bs`cache
    ensures bs.Valid() && CanUseWithPrefixCodes(bs.order) && bs.Cursor() == from + len
    ensures |w| <= len + bs.cache.fillLevel && bs.Upcoming(|w| - len) == w[len..]
  {
    hide StreamBit, Holds;
    assert w[0..] == w;
    WindowHead(bs.order, bs.input, bs.Cursor(), w, len);
    bs.SkipBitsNoFill(len);
  }

  lemma MaxCodeLengthFits(code: PrefixCode, mode: Mode)
    requires Usable(code, mode)
    ensures code.MaxCodeLength() <= 32
  {
    SymbolFits(code, mode, 0);
  }

  /** The three kinds of entries. */
  lemma EntryFacts(code: PrefixCode, mode: Mode, w: seq<bool>, c: nat, entry: nat) returns (i: nat)
    requires Usable(code, mode) && |w| == 32 && c == MsbValue(w[..LOOKUP_DEPTH])
    requires entry == EntryUpTo(code, mode, |code.symbols|, c)
    ensures entry < TWO_32 && Len(entry) <= 32
    ensures Flag(entry) ==> DecodeSpec(code, mode, w) == Some(Effect(Payload(entry), Len(entry)))
    ensures !Flag(entry) && entry != 0 ==>
              && Matches(code.symbols, w, i)
              && Payload(entry) >= 0
              && Len(entry) == code.symbols[i].len && Payload(entry) == code.codeValues[i]
    ensures !Flag(entry) && entry == 0 ==> NoneUpTo(code.symbols, w, LOOKUP_DEPTH)
  {
    MissMeansLonger(code, mode, w, c);
    i := 0;
    if entry == 0 {
      ZeroEntry();
    } else {
      i :| Matches(code.symbols, w, i) && code.symbols[i].len <= LOOKUP_DEPTH;
      HitIsRight(code, mode, w, c, i);
      SymbolFits(code, mode, i);
      if !(mode.fullDecode && code.symbols[i].len + code.codeValues[i] > LOOKUP_DEPTH && code.codeValues[i] != 16) {
        FlaggedIsDecoded(code, mode, w, c, i);
      }
    }
  }

  /** The symbol was in the table, its difference was too long for it. */
  method FinishHit(bs: BitStreamer, code: PrefixCode, mode: Mode, len: nat, codeValue: nat,
                   ghost w: seq<bool>, ghost from: nat, ghost i: nat)
    returns (d: Decoded)
    requires Usable(code, mode) && |w| == 32 && Reading(bs, w, from, CodeSymbol(0, 0))
    requires Matches(code.symbols, w, i) && len == code.symbols[i].len && codeValue == code.codeValues[i]
    modifies bs`cache
    ensures bs.Valid() && DecodesTo(code, mode, w, true, from, d, bs.Cursor())
  {
    SymbolFits(code, mode, i);
    hide Reading, StreamBit, Holds, Walk, MsbValue, SymbolEffect, DecodeSpec, Matches, Usable;
    DecodeOfMatch(code, mode, w, i);
    EffectConsumes(mode, len, codeValue, w);
    SkipEntry(bs, len, w, from);
    var value := ProcessSymbol(bs, mode, len, codeValue, w);
    return Value(value);
  }
}
