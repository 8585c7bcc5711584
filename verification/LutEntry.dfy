/** The entries of the 11-bit lookup table: payload:23|flag:1|len:8, packed into 32 bits.

    The payload is the value of a symbol or the fully decoded difference, with its sign; `len`
    is the number of bits consumed; the flag says that nothing is left to be done. Zero means
    that no symbol fits into the 11 bits.
 */
module LutEntry {
  import opened Bits
  import opened CodeSymbols
  import opened Difference
  import opened Decoding

  const PAYLOAD_SHIFT: nat := 9
  const FLAG_MASK: nat := 0x100
  const LEN_MASK: nat := 0xff
  const LOOKUP_DEPTH: nat := 11
  const TABLE_SIZE: nat := 2048

  // ----- what `decode` reads from an entry

  function Payload(entry: nat): int
    requires entry < TWO_32
  {
    ToSigned(entry) / 512
  }

  function Len(entry: nat): nat {
    And(entry, LEN_MASK)
  }

  predicate Flag(entry: nat) {
    And(entry, FLAG_MASK) != 0
  }

  /** The entry with these three fields. */
  function Pack(payload: int, flag: bool, len: nat): (entry: nat)
    requires -0x40_0000 <= payload < 0x40_0000 && len < 256
    ensures entry < TWO_32
  {
    512 * (if payload < 0 then payload + 0x80_0000 else payload) + (if flag then 256 else 0) + len
  }

  /** Reading the fields back. */
  lemma UnpackOfPack(payload: int, flag: bool, len: nat)
    requires -0x40_0000 <= payload < 0x40_0000 && len < 256
    ensures
      var entry := Pack(payload, flag, len);
      && Payload(entry) == payload && Flag(entry) == flag && Len(entry) == len
      && (flag || payload > 0 || len > 0 ==> entry != 0)
  {
    PayloadOfPack(payload, flag, len);
    var high := if payload < 0 then payload + 0x80_0000 else payload;
    MasksOfSum(2 * high + (if flag then 1 else 0), len);
  }

  lemma PayloadOfPack(payload: int, flag: bool, len: nat)
    requires -0x40_0000 <= payload < 0x40_0000 && len < 256
    ensures Payload(Pack(payload, flag, len)) == payload
  {
  }

  /** The flag is the lowest bit above the length. */
  lemma MasksOfSum(x: nat, len: nat)
    requires len < 256
    ensures And(256 * x + len, LEN_MASK) == len
    ensures And(256 * x + len, FLAG_MASK) != 0 <==> x % 2 == 1
  {
    hide And, Shl, Pow2, Bit;
    SmallPowers();
    ShlIsProduct(x, 8);
    AndLow(x, 8, len);
    AndBit(256 * x + len, 8);
    BitOfBytePair(x, len, 8);
    BitOfHalf(x, 0);
  }

  lemma SmallPowers()
    ensures Pow2(8) == 256 && Pow2(9) == 512 && Pow2(11) == TABLE_SIZE
    ensures Pow2(15) == 0x8000 && Pow2(16) == 0x1_0000 && Pow2(23) == 0x80_0000
  {
    Pow2Sum(8, 3);
    Pow2Sum(8, 7);
    Pow2Sum(8, 8);
    Pow2Sum(16, 7);
  }

  // ----- what `setup` stores

  /** The entry of a symbol with length `codeLen` and value `diffLen`, for table index `c`. */
  function EntryOf(mode: Mode, codeLen: nat, diffLen: nat, c: nat): nat
    requires 0 < codeLen <= LOOKUP_DEPTH && (mode.fullDecode ==> diffLen <= MAX_DIFF_LENGTH)
  {
    if !mode.fullDecode || (codeLen + diffLen > LOOKUP_DEPTH && diffLen != 16) then
      var entry := Or(Shl(diffLen, PAYLOAD_SHIFT), codeLen);
      if !mode.fullDecode then Or(entry, FLAG_MASK) else entry
    else
      var entry := Or(FLAG_MASK, codeLen) + (if diffLen != 16 || mode.fixDNGBug16 then diffLen else 0);
      if diffLen == 0 then entry
      else
        var diff := StoredDiff(codeLen, diffLen, c);
        Or(entry, Trunc(Shl(ToUnsigned(Extend(diff, diffLen)), PAYLOAD_SHIFT), INT_WIDTH))
  }

  /** The difference bits within the 11 bits `c`, or the constant of category 16. */
  function StoredDiff(codeLen: nat, diffLen: nat, c: nat): (diff: nat)
    requires 0 < diffLen <= 16 && (codeLen + diffLen <= LOOKUP_DEPTH || diffLen == 16)
    ensures diff < TWO_32 && -TWO_31 <= Extend(diff, diffLen) < TWO_31
  {
    StoredDiffIsSmall(codeLen, diffLen, c);
    if diffLen != 16 then
      And(ExtractHighBits(c, codeLen + diffLen, LOOKUP_DEPTH), Pow2(diffLen) - 1)
    else
      ToUnsigned(-32768)
  }

  lemma StoredDiffIsSmall(codeLen: nat, diffLen: nat, c: nat)
    requires 0 < diffLen <= 16 && (codeLen + diffLen <= LOOKUP_DEPTH || diffLen == 16)
    ensures
      var diff := if diffLen != 16
                  then And(ExtractHighBits(c, codeLen + diffLen, LOOKUP_DEPTH), Pow2(diffLen) - 1)
                  else ToUnsigned(-32768);
      diff < TWO_32 && -TWO_31 <= Extend(diff, diffLen) < TWO_31
  {
    SmallPowers();
    if diffLen != 16 {
      AndBound(ExtractHighBits(c, codeLen + diffLen, LOOKUP_DEPTH), Pow2(diffLen) - 1);
      Pow2Monotone(diffLen, 16);
    } else {
      assert Pow2(16) - 1 == 0xFFFF;
    }
  }

  // ----- the entry of a symbol says what decoding it says

  lemma OrFlag(x: nat, len: nat)
    requires len < 256
    ensures Or(Or(Shl(x, 9), len), 256) == 512 * x + 256 + len
    ensures Or(Shl(x, 9), len) == 512 * x + len
    ensures Or(256, len) == 256 + len
  {
    SmallPowers();
    ShlIsProduct(x, 9);
    ShlIsProduct(1, 8);
    OrIsSum(x, 9, len);
    OrIsSum(1, 8, len);
    OrCommutes(256, len);
    OrLow(x, 9, len, 256);
  }

  /** `or`-ing the shifted difference into flag and length. */
  lemma OrPayload(p: int, e: nat)
    requires -0x40_0000 <= p < 0x40_0000 && e < 512
    ensures -TWO_31 <= p < TWO_31
    ensures Or(e, Trunc(Shl(ToUnsigned(p), 9), 32)) == 512 * (if p < 0 then p + 0x80_0000 else p) + e
  {
    SmallPowers();
    var u := ToUnsigned(p);
    var t: nat := if p < 0 then p + 0x80_0000 else p;
    TruncShl(u, 9, 32);
    var x := if p < 0 then 511 else 0;
    ShlIsProduct(x, 23);
    TruncOfSum(x, 23, t);
    ShlIsProduct(t, 9);
    OrCommutes(e, Shl(t, 9));
    OrIsSum(t, 9, e);
  }

  /** What an entry has to say about the 11 bits `w` that it stands for. */
  ghost predicate EntryMeans(entry: nat, mode: Mode, codeLen: nat, diffLen: nat, w: seq<bool>)
    requires entry < TWO_32
  {
    if mode.fullDecode && codeLen + diffLen > LOOKUP_DEPTH && diffLen != 16 then
      entry != 0 && !Flag(entry) && Len(entry) == codeLen && Payload(entry) == diffLen
    else
      && Flag(entry) && Len(entry) == codeLen + PayloadLength(mode, diffLen)
      && Payload(entry) == EntryValue(mode, codeLen, diffLen, w)
  }

  /** `SymbolEffect` as far as 11 bits determine it. */
  ghost function EntryValue(mode: Mode, codeLen: nat, diffLen: nat, w: seq<bool>): int {
    if !mode.fullDecode then diffLen
    else if diffLen == 16 then -32768
    else if diffLen == 0 then 0
    else if codeLen + diffLen <= |w| && diffLen <= 16 then PayloadDiff(w[codeLen..codeLen + diffLen])
    else 0
  }

  lemma EntryIsRight(mode: Mode, codeLen: nat, diffLen: nat, c: nat, w: seq<bool>)
    requires 0 < codeLen <= LOOKUP_DEPTH && (mode.fullDecode ==> diffLen <= MAX_DIFF_LENGTH)
    requires diffLen < 0x8_0000
    requires |w| == LOOKUP_DEPTH && c == MsbValue(w)
    ensures
      var entry := EntryOf(mode, codeLen, diffLen, c);
      entry < TWO_32 && EntryMeans(entry, mode, codeLen, diffLen, w)
  {
    hide Or, Trunc, Shl, Extend, StoredDiff, Payload, Flag, Len, PayloadDiff;
    if !mode.fullDecode || (codeLen + diffLen > LOOKUP_DEPTH && diffLen != 16) {
      OrFlag(diffLen, codeLen);
      UnpackOfPack(diffLen, !mode.fullDecode, codeLen);
    } else if diffLen == 0 {
      OrFlag(0, codeLen);
      UnpackOfPack(0, true, codeLen);
    } else {
      FullEntryIsRight(mode, codeLen, diffLen, c, w);
    }
  }

  lemma FullEntryIsRight(mode: Mode, codeLen: nat, diffLen: nat, c: nat, w: seq<bool>)
    requires mode.fullDecode && 0 < codeLen <= LOOKUP_DEPTH && 0 < diffLen <= MAX_DIFF_LENGTH
    requires codeLen + diffLen <= LOOKUP_DEPTH || diffLen == 16
    requires |w| == LOOKUP_DEPTH && c == MsbValue(w)
    ensures
      var entry := EntryOf(mode, codeLen, diffLen, c);
      entry < TWO_32 && EntryMeans(entry, mode, codeLen, diffLen, w)
  {
    hide Or, Trunc, Shl, Extend, StoredDiff, Payload, Flag, Len, PayloadDiff;
    var value := EntryValue(mode, codeLen, diffLen, w);
    if diffLen == 16 {
      ExtendOfSixteen(codeLen, c);
    } else {
      StoredDiffIsPayload(codeLen, diffLen, c, w);
    }
    var len := codeLen + PayloadLength(mode, diffLen);
    OrFlag(0, codeLen);
    OrPayload(value, 256 + len);
    UnpackOfPack(value, true, len);
  }

  lemma ExtendOfSixteen(codeLen: nat, c: nat)
    ensures Extend(StoredDiff(codeLen, 16, c), 16) == -32768
  {
    SmallPowers();
    ShlIsProduct(0x1_FFFF, 15);
    BitShl(0x1_FFFF, 15, 15);
  }

  /** The bits masked out of the index are the bits after the symbol. */
  lemma StoredDiffIsPayload(codeLen: nat, diffLen: nat, c: nat, w: seq<bool>)
    requires 0 < diffLen && codeLen + diffLen <= LOOKUP_DEPTH
    requires |w| == LOOKUP_DEPTH && c == MsbValue(w)
    ensures Extend(StoredDiff(codeLen, diffLen, c), diffLen) == PayloadDiff(w[codeLen..codeLen + diffLen])
    ensures -0x1_0000 <= PayloadDiff(w[codeLen..codeLen + diffLen]) < 0x1_0000
  {
    var payload := w[codeLen..codeLen + diffLen];
    MaskedBits(codeLen, diffLen, w, payload);
    hide MsbValue, And, Shr;
    MsbValueBound(payload);
    ExtendMeans(MsbValue(payload), diffLen);
    Pow2Monotone(diffLen, 16);
    SmallPowers();
  }

  lemma MaskedBits(codeLen: nat, diffLen: nat, w: seq<bool>, payload: seq<bool>)
    requires codeLen + diffLen <= |w| == LOOKUP_DEPTH && payload == w[codeLen..codeLen + diffLen]
    ensures And(ExtractHighBits(MsbValue(w), codeLen + diffLen, LOOKUP_DEPTH), Pow2(diffLen) - 1)
            == MsbValue(payload)
  {
    hide MsbValue, And, Shr, Shl, Pow2;
    var known, rest := w[..codeLen + diffLen], w[codeLen + diffLen..];
    var head := known[..codeLen];
    MsbValueCut(w, known, rest);
    MsbValueCut(known, head, payload);
    MsbValueBound(rest);
    MsbValueBound(payload);
    ShrOfShl(MsbValue(known), |rest|, MsbValue(rest));
    AndLow(MsbValue(head), diffLen, MsbValue(payload));
  }

  lemma MsbValueCut(s: seq<bool>, a: seq<bool>, b: seq<bool>)
    requires |a| <= |s| && a == s[..|a|] && b == s[|a|..]
    ensures MsbValue(s) == Shl(MsbValue(a), |b|) + MsbValue(b)
  {
    hide MsbValue, Shl;
    assert s == a + b;
    MsbValueSplit(a, b);
  }
}
