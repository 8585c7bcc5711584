/** End to end: encoder, bit stream and every decoder together.

    `Workloop` follows the repository's own round-trip fuzzer: decode as much of an arbitrary
    buffer as there is, encode what came out, decode that again and compare.
 */
module Codec {
  import opened Bits
  import opened BitCache
  import opened BitOrder
  import opened BitStreamer
  import opened BitVacuumer
  import opened BitRoundTrip
  import opened CodeSymbols
  import opened HuffmanCodes
  import opened PrefixCodes
  import opened Decoding
  import opened Encoder
  import opened LookupDecoder
  import opened VectorDecoder
  import opened TreeDecoder
  import opened LutDecoder
  import opened BinaryPrefixTree
  import opened Results

  // ----- all decoders

  datatype Decoder = Plain(backend: Backend) | LUT(lut: PrefixCodeLUTDecoder) {

    function Back(): Backend {
      match this
      case Plain(b) => b
      case LUT(d) => d.backend
    }

    function Code(): PrefixCode {
      Back().Code()
    }

    function GetMode(): Mode
      reads Back().Owner()
    {
      Back().GetMode()
    }

    ghost predicate Valid()
      reads Back().Owner()
      reads if LUT? then {lut} else {}
      reads if Back().Tree? then {Back().tree.tree} else {}
      reads if Back().Tree? && Back().tree.tree.root != null
            then {Back().tree.tree.root} + Back().tree.tree.root.Repr else {}
    {
      && Usable(Code(), GetMode())
      && match this
         case Plain(b) => b.Valid()
         case LUT(d) => d.Valid()
    }

    /** Six decoders, one contract. */
    method Decode(bs: BitStreamer) returns (d: Decoded)
      requires Valid() && bs.Valid() && CanUseWithPrefixCodes(bs.order)
      modifies bs
      ensures Valid() && bs.Valid()
      ensures DecodesTo(Code(), GetMode(), old(bs.Upcoming(32)), old(bs.CanFill(32)), old(bs.Cursor()), d, bs.Cursor())
    {
      hide DecodesTo, Usable, EntryUpTo, StreamBit;
      match this {
        case LUT(l) => d := l.Decode(bs);
        case Plain(b) =>
          match b {
            case Lookup(l) => d := l.Decode(bs);
            case Vector(v) => d := v.Decode(bs);
            case Tree(t) => d := t.Decode(bs);
          }
      }
    }
  }

  lemma ValidIsUsable(decoder: Decoder)
    requires decoder.Valid()
    ensures Usable(decoder.Code(), decoder.GetMode())
  {
  }

  /** Writing to a vacuumer does not touch a decoder. */
  twostate lemma DecoderStaysValid(decoder: Decoder, new bv: BitVacuumer)
    requires old(decoder.Valid())
    requires forall o: object {:trigger old(allocated(o))} :: old(allocated(o)) && o != bv ==> unchanged(o)
    ensures decoder.Valid() && decoder.GetMode() == old(decoder.GetMode())
  {
    hide EntryUpTo, Usable, PrefixCode.Valid, SpellsOut, Node.Valid, BitVacuumer.Valid;
    var owner: object := decoder.Back().Owner();
    assert old(allocated(owner)) && unchanged(owner);
    if decoder.LUT? {
      var lut: object := decoder.lut;
      assert old(allocated(lut)) && unchanged(lut);
    }
    if decoder.Back().Tree? {
      var tree: object := decoder.Back().tree.tree;
      assert old(allocated(tree)) && unchanged(tree);
      var root := decoder.Back().tree.tree.root;
      forall node: object | root != null && (node == root || node in old(root.Repr))
        ensures unchanged(node)
      {
        assert old(allocated(node));
      }
    }
  }

  // ----- what a buffer says

  /** `values` can be decoded one after the other from the start of `input`, each beginning inside
      the data; `starts` are the bit positions where they begin, and the one after the last. */
  ghost predicate Transcript(code: PrefixCode, mode: Mode, o: Order, input: seq<byte>,
                             values: seq<int>, starts: seq<nat>)
    requires Usable(code, mode)
  {
    && |starts| == |values| + 1 && starts[0] == 0
    && forall k {:trigger values[k]} ::
         0 <= k < |values| ==> Says(code, mode, o, input, starts[k], values[k], starts[k + 1])
  }

  ghost predicate Says(code: PrefixCode, mode: Mode, o: Order, input: seq<byte>, from: nat, value: int, to: nat)
    requires Usable(code, mode)
  {
    && InBounds(o, input, from)
    && from <= to
    && DecodeSpec(code, mode, Window(o, input, from, 32)) == Some(Effect(value, to - from))
  }

  /** A stream standing at the start of a value delivers it. */
  method DecodeNext(decoder: Decoder, bs: BitStreamer, ghost value: int, ghost to: nat) returns (d: Decoded)
    requires decoder.Valid() && bs.Valid() && CanUseWithPrefixCodes(bs.order)
    requires Says(decoder.Code(), decoder.GetMode(), bs.order, bs.input, bs.Cursor(), value, to)
    modifies bs
    ensures decoder.Valid() && bs.Valid() && d == Value(value) && bs.Cursor() == to
  {
    hide StreamBit, Holds, Usable, DecodeSpec, InBounds;
    bs.NoOverRead(0, 32);
    d := decoder.Decode(bs);
  }

  // ----- encoded lists

  ghost predicate AllEncodable(code: PrefixCode, mode: Mode, values: seq<int>) {
    forall i :: 0 <= i < |values| ==> Encodable(code, mode, values[i])
  }

  ghost function EncodedAll(code: PrefixCode, mode: Mode, values: seq<int>): seq<bool>
    requires Usable(code, mode) && AllEncodable(code, mode, values)
  {
    if values == [] then []
    else
      EncodedAll(code, mode, values[..|values| - 1]) + EncodedBits(code, mode, values[|values| - 1])
  }

  function RecoveredAll(mode: Mode, values: seq<int>): (r: seq<int>)
    ensures |r| == |values|
    ensures forall i :: 0 <= i < |r| ==> r[i] == Recovered(mode, values[i])
  {
    seq(|values|, i requires 0 <= i < |values| => Recovered(mode, values[i]))
  }

  lemma UsableIsValid(code: PrefixCode, mode: Mode)
    requires Usable(code, mode)
    ensures code.Valid()
  {
  }

  lemma EncodedNext(code: PrefixCode, mode: Mode, values: seq<int>, i: nat)
    requires Usable(code, mode) && AllEncodable(code, mode, values) && i < |values|
    ensures EncodedAll(code, mode, values[..i + 1])
            == EncodedAll(code, mode, values[..i]) + EncodedBits(code, mode, values[i])
  {
    var head := values[..i + 1];
    assert head[..i] == values[..i] && head[i] == values[i];
  }

  lemma EncodedSnoc(code: PrefixCode, mode: Mode, values: seq<int>, value: int)
    requires Usable(code, mode) && AllEncodable(code, mode, values) && Encodable(code, mode, value)
    ensures AllEncodable(code, mode, values + [value])
    ensures EncodedAll(code, mode, values + [value])
            == EncodedAll(code, mode, values) + EncodedBits(code, mode, value)
  {
    var more := values + [value];
    assert more[..|values|] == values;
  }

  lemma {:induction false} EncodedPrefix(code: PrefixCode, mode: Mode, values: seq<int>, i: nat)
    requires Usable(code, mode) && AllEncodable(code, mode, values) && i <= |values|
    ensures EncodedAll(code, mode, values[..i]) <= EncodedAll(code, mode, values)
    decreases |values| - i
  {
    hide EncodedAll;
    if i == |values| {
      assert values[..i] == values;
    } else {
      EncodedNext(code, mode, values, i);
      EncodedPrefix(code, mode, values, i + 1);
    }
  }

  /** Where the values begin in the bits of the list. */
  ghost function StartsOf(code: PrefixCode, mode: Mode, values: seq<int>): (starts: seq<nat>)
    requires Usable(code, mode) && AllEncodable(code, mode, values)
    ensures |starts| == |values| + 1
    ensures forall k :: 0 <= k <= |values| ==> starts[k] == |EncodedAll(code, mode, values[..k])|
  {
    seq<nat>(|values| + 1, k requires 0 <= k <= |values| => |EncodedAll(code, mode, values[..k])|)
  }

  /** Any buffer that starts with what was written for a list says that list, as far as each value
      survives. */
  lemma WrittenSays(code: PrefixCode, mode: Mode, o: Order, data: seq<byte>, bits: seq<bool>,
                    input: seq<byte>, values: seq<int>)
    requires Usable(code, mode) && AllEncodable(code, mode, values) && CanUseWithPrefixCodes(o)
    requires Spells(o, data, bits) && Wire(o, data) <= input && |bits| % CHUNK_BITS == 0
    requires EncodedAll(code, mode, values) <= bits
    ensures Transcript(code, mode, o, input, RecoveredAll(mode, values), StartsOf(code, mode, values))
  {
    hide Spells, Wire, StreamBit, InBounds, EncodedBits, Usable, Encodable, DecodeSpec, Recovered, EncodedAll;
    UsableIsValid(code, mode);
    hide PrefixCode.Valid;
    ReadsBack(o, data, bits, input);
    var starts := StartsOf(code, mode, values);
    forall k: nat | k < |values|
      ensures Says(code, mode, o, input, starts[k], Recovered(mode, values[k]), starts[k + 1])
    {
      EncodedNext(code, mode, values, k);
      EncodedPrefix(code, mode, values, k + 1);
      var row := EncodedBits(code, mode, values[k]);
      FieldWindow(o, input, bits, EncodedAll(code, mode, values[..k]), row);
      EncodedLength(code, mode, values[k]);
      WindowStarts(o, input, starts[k], row);
      DecodeOfEncoded(code, mode, values[k], Window(o, input, starts[k], 32));
    }
    EmptyStart(code, mode, values);
  }

  lemma EmptyStart(code: PrefixCode, mode: Mode, values: seq<int>)
    requires Usable(code, mode) && AllEncodable(code, mode, values)
    ensures EncodedAll(code, mode, values[..0]) == []
    ensures EncodedAll(code, mode, values[..|values|]) == EncodedAll(code, mode, values)
  {
    assert values[..|values|] == values;
  }

  lemma WindowStarts(o: Order, input: seq<byte>, from: nat, row: seq<bool>)
    requires Window(o, input, from, |row|) == row && |row| <= 32
    ensures row <= Window(o, input, from, 32)
  {
    hide StreamBit;
    WindowDrop(o, input, from, |row|, 32);
  }

  // ----- encode, then decode

  /** Encodes a list into a buffer that is large enough for a streamer. */
  method EncodeAll(encoder: PrefixCodeVectorEncoder, o: Order, values: seq<int>) returns (input: seq<byte>)
    requires Usable(encoder.code, encoder.mode) && AllEncodable(encoder.code, encoder.mode, values)
    requires CanUseWithPrefixCodes(o)
    ensures o.MaxProcessBytes() <= |input|
    ensures Transcript(encoder.code, encoder.mode, o, input, RecoveredAll(encoder.mode, values),
                       StartsOf(encoder.code, encoder.mode, values))
  {
    hide Spells, Wire, EncodedBits, Usable, Encodable, Transcript, EncodedAll, PaddingBits;
    hide BitVacuumer.Valid, BitVacuumer.Written;
    UsableIsValid(encoder.code, encoder.mode);
    hide PrefixCode.Valid;
    EmptyStart(encoder.code, encoder.mode, values);
    var bv := new BitVacuumer(o);
    var i := 0;
    while i != |values|
      invariant 0 <= i <= |values|
      invariant bv.Valid() && !bv.flushed && bv.order == o && fresh(bv)
      invariant bv.Written() == EncodedAll(encoder.code, encoder.mode, values[..i])
    {
      EncodedNext(encoder.code, encoder.mode, values, i);
      encoder.Encode(bv, values[i]);
      i := i + 1;
    }
    input := FinishRecord(bv, encoder.code, encoder.mode, values);
  }

  /** Flushes, and brings the buffer up to the size that a streamer asks for. */
  method FinishRecord(bv: BitVacuumer, ghost code: PrefixCode, ghost mode: Mode, ghost values: seq<int>)
    returns (input: seq<byte>)
    requires Usable(code, mode) && AllEncodable(code, mode, values) && CanUseWithPrefixCodes(bv.order)
    requires bv.Valid() && !bv.flushed && bv.Written() == EncodedAll(code, mode, values)
    modifies bv
    ensures bv.order.MaxProcessBytes() <= |input|
    ensures Transcript(code, mode, bv.order, input, RecoveredAll(mode, values), StartsOf(code, mode, values))
  {
    hide Spells, Wire, Usable, Encodable, Transcript, EncodedAll, PaddingBits, BitVacuumer.Valid;
    bv.Flush();
    PaddedLength(|EncodedAll(code, mode, values)|);
    input := ResizeToMinimum(bv.order, bv.output);
    WrittenSays(code, mode, bv.order, bv.data, bv.Written(), input, values);
  }

  /** Decodes `n` values. */
  method DecodeAll(decoder: Decoder, o: Order, input: seq<byte>, n: nat,
                   ghost values: seq<int>, ghost starts: seq<nat>)
    returns (ok: bool, read: seq<int>)
    requires decoder.Valid() && CanUseWithPrefixCodes(o) && o.MaxProcessBytes() <= |input|
    requires Transcript(decoder.Code(), decoder.GetMode(), o, input, values, starts) && n == |values|
    ensures ok && read == values
  {
    hide Usable, Says, BitStreamer.Valid;
    var bs := new BitStreamer(o, input);
    ok, read := true, [];
    var i := 0;
    while i != n
      invariant 0 <= i <= n && decoder.Valid()
      invariant bs.Valid() && bs.order == o && bs.input == input && fresh(bs)
      invariant bs.Cursor() == starts[i] && ok && read == values[..i]
    {
      assert Says(decoder.Code(), decoder.GetMode(), o, input, starts[i], values[i], starts[i + 1]);
      var d := DecodeNext(decoder, bs, values[i], starts[i + 1]);
      if !d.Value? {
        assert false;
      }
      read := read + [d.v];
      i := i + 1;
    }
  }

  /** The end-to-end law: through any order that prefix codes may use, any of the six decoders gives
      back the list that was encoded, except that a difference outside of the 16-bit range comes back
      as -32768. */
  method EncodeThenDecode(decoder: Decoder, encoder: PrefixCodeVectorEncoder, o: Order, values: seq<int>)
    returns (ok: bool, read: seq<int>)
    requires decoder.Valid() && CanUseWithPrefixCodes(o)
    requires encoder.code == decoder.Code() && encoder.mode == decoder.GetMode()
    requires AllEncodable(encoder.code, encoder.mode, values)
    ensures ok && |read| == |values|
    ensures forall i :: 0 <= i < |values| ==> read[i] == Recovered(encoder.mode, values[i])
    ensures read == values <==>
            (encoder.mode.fullDecode ==> forall i :: 0 <= i < |values| ==> -32768 <= values[i] <= 32767)
  {
    hide Usable, Transcript;
    var input := EncodeAll(encoder, o, values);
    ok, read := DecodeAll(decoder, o, input, |values|, RecoveredAll(encoder.mode, values),
                          StartsOf(encoder.code, encoder.mode, values));
  }

  // ----- decode, encode, decode again

  /** Nothing more can be decoded from bit `from` on: no symbol comes next, or less than one
      cache is left. */
  ghost predicate Exhausted(code: PrefixCode, mode: Mode, o: Order, input: seq<byte>, from: nat)
    requires Usable(code, mode)
  {
    DecodeSpec(code, mode, Window(o, input, from, 32)) == None || !InBounds(o, input, from + 64)
  }

  lemma TranscriptSnoc(code: PrefixCode, mode: Mode, o: Order, input: seq<byte>,
                       values: seq<int>, starts: seq<nat>, value: int, to: nat)
    requires Usable(code, mode) && Transcript(code, mode, o, input, values, starts)
    requires Says(code, mode, o, input, starts[|values|], value, to)
    ensures Transcript(code, mode, o, input, values + [value], starts + [to])
  {
    hide Says;
    var moreValues, moreStarts := values + [value], starts + [to];
    forall k | 0 <= k < |moreValues|
      ensures Says(code, mode, o, input, moreStarts[k], moreValues[k], moreStarts[k + 1])
    {
      if k < |values| {
        assert Says(code, mode, o, input, starts[k], values[k], starts[k + 1]);
      }
    }
  }

  /** One value from a stream that has not left its input. It is what the buffer says, and the
      encoder can take it. */
  method DecodeSome(decoder: Decoder, bs: BitStreamer) returns (d: Decoded)
    requires decoder.Valid() && bs.Valid() && CanUseWithPrefixCodes(bs.order) && bs.pos <= |bs.input|
    modifies bs
    ensures decoder.Valid() && decoder.GetMode() == old(decoder.GetMode())
    ensures bs.Valid() && !d.OverRead?
    ensures d.BadCode? ==> Exhausted(decoder.Code(), decoder.GetMode(), bs.order, bs.input, old(bs.Cursor()))
    ensures d.Value? ==>
              && Says(decoder.Code(), decoder.GetMode(), bs.order, bs.input, old(bs.Cursor()), d.v, bs.Cursor())
              && old(bs.Cursor()) < bs.Cursor()
              && Encodable(decoder.Code(), decoder.GetMode(), d.v)
              && Recovered(decoder.GetMode(), d.v) == d.v
  {
    hide StreamBit, Holds, Usable, DecodeSpec, InBounds, Encodable, Recovered;
    bs.StillInside();
    bs.NoOverRead(0, 32);
    ghost var w := bs.Upcoming(32);
    d := decoder.Decode(bs);
    if d.Value? {
      DecodeConsumes(decoder.Code(), decoder.GetMode(), w);
      DecodedIsEncodable(decoder.Code(), decoder.GetMode(), w);
    }
  }

  /** One turn of the loop: a value is decoded and encoded again, or there is none. Both buffers
      say the same list, before and after. */
  method TranscodeOne(decoder: Decoder, encoder: PrefixCodeVectorEncoder, bsSrc: BitStreamer, bv: BitVacuumer,
                      values: seq<int>, ghost starts: seq<nat>)
    returns (more: bool, values': seq<int>, ghost starts': seq<nat>)
    requires decoder.Valid() && encoder.code == decoder.Code() && encoder.mode == decoder.GetMode()
    requires bsSrc.Valid() && CanUseWithPrefixCodes(bsSrc.order) && bsSrc.pos <= |bsSrc.input|
    requires Transcript(encoder.code, encoder.mode, bsSrc.order, bsSrc.input, values, starts)
    requires |starts| == |values| + 1 && starts[|values|] == bsSrc.Cursor()
    requires Recorded(encoder.code, encoder.mode, bv, values) && CanUseWithPrefixCodes(bv.order)
    modifies bsSrc, bv
    ensures decoder.Valid() && encoder.mode == decoder.GetMode() && bsSrc.Valid()
    ensures Transcript(encoder.code, encoder.mode, bsSrc.order, bsSrc.input, values', starts')
    ensures Recorded(encoder.code, encoder.mode, bv, values')
    ensures |starts'| == |values'| + 1
    ensures more ==> starts'[|values'|] == bsSrc.Cursor() > old(bsSrc.Cursor())
    ensures !more ==> Exhausted(encoder.code, encoder.mode, bsSrc.order, bsSrc.input, starts'[|values'|])
  {
    hide *;
    ValidIsUsable(decoder);
    values', starts' := values, starts;
    var v := DecodeSome(decoder, bsSrc);
    more := v.Value?;
    if more {
      EncodeNext(decoder, encoder, bv, values, v.v);
      TranscriptSnoc(encoder.code, encoder.mode, bsSrc.order, bsSrc.input, values, starts, v.v, bsSrc.Cursor());
      values', starts' := values + [v.v], starts + [bsSrc.Cursor()];
    }
  }

  /** What has been written so far is the encoded list, and every value of it survives. */
  ghost predicate Recorded(code: PrefixCode, mode: Mode, bv: BitVacuumer, values: seq<int>)
    requires Usable(code, mode)
    reads bv
  {
    && bv.Valid() && !bv.flushed
    && AllEncodable(code, mode, values) && RecoveredAll(mode, values) == values
    && bv.Written() == EncodedAll(code, mode, values)
  }

  /** One more value is encoded. */
  method EncodeNext(decoder: Decoder, encoder: PrefixCodeVectorEncoder, bv: BitVacuumer,
                    ghost values: seq<int>, value: int)
    requires decoder.Valid() && encoder.code == decoder.Code() && encoder.mode == decoder.GetMode()
    requires Recorded(encoder.code, encoder.mode, bv, values) && CanUseWithPrefixCodes(bv.order)
    requires Encodable(encoder.code, encoder.mode, value) && Recovered(encoder.mode, value) == value
    modifies bv
    ensures decoder.Valid() && encoder.mode == decoder.GetMode()
    ensures Recorded(encoder.code, encoder.mode, bv, values + [value])
  {
    UsableIsValid(encoder.code, encoder.mode);
    hide Usable, Encodable, Recovered, EncodedAll, Decoder.Valid, Decoder.GetMode;
    hide BitVacuumer.Valid, BitVacuumer.Written, PrefixCode.Valid;
    encoder.Encode(bv, value);
    EncodedSnoc(encoder.code, encoder.mode, values, value);
    DecoderStaysValid(decoder, bv);
  }

  /** A streamer after its first refill. */
  method OpenFilled(o: Order, input: seq<byte>) returns (bs: BitStreamer)
    requires o.MaxProcessBytes() <= |input|
    ensures fresh(bs) && bs.order == o && bs.input == input && bs.Valid() && bs.Cursor() == 0
  {
    hide StreamBit, Holds, InBounds;
    bs := new BitStreamer(o, input);
    bs.StillInside();
    bs.NoOverRead(0, 32);
    var filled := bs.Fill(32);
  }

  /** The first half of the fuzzer: decode from the source as long as that works, and encode
      every value at once. */
  method Transcode(decoder: Decoder, encoder: PrefixCodeVectorEncoder, o: Order, inputSrc: seq<byte>)
    returns (values: seq<int>, inputRec: seq<byte>, ghost starts: seq<nat>)
    requires decoder.Valid() && CanUseWithPrefixCodes(o) && o.MaxProcessBytes() <= |inputSrc|
    requires encoder.code == decoder.Code() && encoder.mode == decoder.GetMode()
    ensures o.MaxProcessBytes() <= |inputRec| && AllEncodable(encoder.code, encoder.mode, values)
    ensures Transcript(encoder.code, encoder.mode, o, inputSrc, values, starts)
    ensures Exhausted(encoder.code, encoder.mode, o, inputSrc, starts[|values|])
    ensures Transcript(encoder.code, encoder.mode, o, inputRec, values, StartsOf(encoder.code, encoder.mode, values))
  {
    hide *;
    ghost var code, mode := encoder.code, encoder.mode;
    var bsSrc := OpenFilled(o, inputSrc);
    var bv := new BitVacuumer(o);
    DecoderStaysValid(decoder, bv);
    ValidIsUsable(decoder);
    values, starts := [], [0];
    NothingYet(code, mode, o, inputSrc, bv);
    var position := bsSrc.GetInputPosition();
    var more := true;
    while more && position <= |inputSrc|
      invariant decoder.Valid() && mode == decoder.GetMode() && fresh(bsSrc) && fresh(bv)
      invariant bsSrc.Valid() && bsSrc.order == o == bv.order && bsSrc.input == inputSrc && position == bsSrc.pos
      invariant Transcript(code, mode, o, inputSrc, values, starts) && Recorded(code, mode, bv, values)
      invariant |starts| == |values| + 1
      invariant if more then starts[|values|] == bsSrc.Cursor()
                else Exhausted(code, mode, o, inputSrc, starts[|values|])
      decreases more, 8 * |inputSrc| - bsSrc.Cursor()
    {
      bsSrc.StillInside();
      more, values, starts := TranscodeOne(decoder, encoder, bsSrc, bv, values, starts);
      position := bsSrc.GetInputPosition();
    }
    if more {
      NothingLeft(bsSrc, code, mode);
    }
    RecordedFacts(code, mode, bv, values);
    inputRec := FinishRecord(bv, code, mode, values);
  }

  lemma RecordedFacts(code: PrefixCode, mode: Mode, bv: BitVacuumer, values: seq<int>)
    requires Usable(code, mode) && Recorded(code, mode, bv, values)
    ensures bv.Valid() && !bv.flushed && AllEncodable(code, mode, values)
    ensures bv.Written() == EncodedAll(code, mode, values) && RecoveredAll(mode, values) == values
  {
  }

  lemma NothingLeft(bs: BitStreamer, code: PrefixCode, mode: Mode)
    requires Usable(code, mode) && bs.Valid() && bs.pos > |bs.input|
    ensures Exhausted(code, mode, bs.order, bs.input, bs.Cursor())
  {
    bs.PastTheInput();
  }

  lemma NothingYet(code: PrefixCode, mode: Mode, o: Order, input: seq<byte>, bv: BitVacuumer)
    requires Usable(code, mode) && bv.Valid() && !bv.flushed && bv.Written() == []
    ensures Transcript(code, mode, o, input, [], [0]) && Recorded(code, mode, bv, [])
  {
  }

  /** The whole fuzzer, for any buffer: both buffers are decoded once more, no read fails, and the
      values are the same ones. Only a buffer that is too small for a streamer is refused. */
  method Workloop(decoder: Decoder, encoder: PrefixCodeVectorEncoder, o: Order, inputSrc: seq<byte>)
    returns (accepted: bool, ok: bool, values: seq<int>, vSrc: seq<int>, vRec: seq<int>, ghost starts: seq<nat>)
    requires decoder.Valid() && (o.MSB? || o.MSB32? || o.JPEG?)
    requires encoder.code == decoder.Code() && encoder.mode == decoder.GetMode()
    ensures accepted <==> (if o.JPEG? then 8 else 4) <= |inputSrc|
    ensures accepted ==> ok && vSrc == vRec == values
    ensures accepted ==> Transcript(encoder.code, encoder.mode, o, inputSrc, values, starts)
    ensures accepted ==> Exhausted(encoder.code, encoder.mode, o, inputSrc, starts[|values|])
  {
    hide Usable, Says, Encodable, EncodedAll, Exhausted;
    accepted := o.MaxProcessBytes() <= |inputSrc|;
    if !accepted {
      ok, values, vSrc, vRec, starts := true, [], [], [], [];
      return;
    }
    var inputRec;
    values, inputRec, starts := Transcode(decoder, encoder, o, inputSrc);
    var okSrc, okRec;
    okSrc, vSrc := DecodeAll(decoder, o, inputSrc, |values|, values, starts);
    okRec, vRec := DecodeAll(decoder, o, inputRec, |values|, values,
                             StartsOf(encoder.code, encoder.mode, values));
    ok := okSrc && okRec;
  }

  // ----- everything together, from a table of code lengths or from a list of symbols

  datatype Implementation = UseLookup | UseVector | UseTree

  ghost predicate IsKind(backend: Backend, kind: Implementation) {
    match kind
    case UseLookup => backend.Lookup?
    case UseVector => backend.Vector?
    case UseTree => backend.Tree?
  }

  /** Sets up one of the three decoders. Only the first one needs a Huffman code. */
  method MakeBackend(kind: Implementation, code: PrefixCode, mode: Mode) returns (r: Result<Backend, SetupError>)
    requires code.Valid() && (kind.UseLookup? ==> IsHuffman(code))
    requires mode.fullDecode ==> code.tag.Baseline?
    ensures r.Ok? <==> Usable(code, mode)
    ensures r.Ok? ==> r.value.Valid() && r.value.Code() == code && r.value.GetMode() == mode
    ensures r.Ok? ==> IsKind(r.value, kind)
  {
    hide IsHuffman, SpellsOut, EntryUpTo;
    match kind {
      case UseLookup =>
        var d := new PrefixCodeLookupDecoder(code);
        var done := d.Setup(mode.fullDecode, mode.fixDNGBug16);
        r := if done.Ok? then Ok(Lookup(d)) else Err(done.error);
      case UseVector =>
        var d := new PrefixCodeVectorDecoder(code);
        var done := d.Setup(mode.fullDecode, mode.fixDNGBug16);
        r := if done.Ok? then Ok(Vector(d)) else Err(done.error);
      case UseTree =>
        var d := new PrefixCodeTreeDecoder(code);
        var done := d.Setup(mode.fullDecode, mode.fixDNGBug16);
        r := if done.Ok? then Ok(Tree(d)) else Err(done.error);
    }
  }

  /** And puts the table of short symbols in front of it, or not. */
  method MakeDecoder(kind: Implementation, withTable: bool, code: PrefixCode, mode: Mode)
    returns (r: Result<Decoder, SetupError>)
    requires code.Valid() && (kind.UseLookup? ==> IsHuffman(code))
    requires mode.fullDecode ==> code.tag.Baseline?
    ensures r.Ok? <==> Usable(code, mode)
    ensures r.Ok? ==> r.value.Valid() && r.value.Code() == code && r.value.GetMode() == mode
    ensures r.Ok? ==> IsKind(r.value.Back(), kind) && (r.value.LUT? <==> withTable)
  {
    hide IsHuffman, SpellsOut, EntryUpTo, Usable;
    var backend := MakeBackend(kind, code, mode);
    if backend.Err? {
      return Err(backend.error);
    }
    if !withTable {
      return Ok(Plain(backend.value));
    }
    var lut := new PrefixCodeLUTDecoder(backend.value);
    return Ok(LUT(lut));
  }

  datatype CodecError =
    | BadTable(table: TableError) | TooFewValues | BadSymbols(code: CodeError) | NeedsHuffman | BadSetup(setup: SetupError)

  /** The values that a table leaves to be checked: there are enough, and none is too large. */
  ghost predicate ValuesAreAccepted(tag: CodeTag, counts: seq<byte>, values: seq<nat>) {
    && Total(counts) <= |values|
    && forall v :: v in values[..Total(counts)] ==> v < if tag.Baseline? then 0x100 else 0x8_0000
  }

  /** A code from its table, as in the decoder fuzzer: counts per length, then as many values. */
  method MakeHuffmanCode(tag: CodeTag, counts: seq<byte>, values: seq<nat>) returns (r: Result<PrefixCode, CodecError>)
    requires |counts| == if tag.Baseline? then 16 else 26
    ensures r.Ok? <==> TableIsAccepted(tag, counts) && ValuesAreAccepted(tag, counts, values)
    ensures r.Ok? ==>
              && r.value.Valid() && IsHuffman(r.value) && r.value.tag == tag
              && IsTrimmed([0] + counts, r.value.nCodesPerLength)
              && r.value.codeValues == values[..Total(counts)]
  {
    hide IsHuffman, PrefixCode.Valid, IsTrimmed, CodesFit, Total;
    var hc := new HuffmanCode(tag);
    var count := hc.SetNCodesPerLength(counts);
    if count.Err? {
      return Err(BadTable(count.error));
    }
    if |values| < count.value {
      return Err(TooFewValues);
    }
    var accepted := hc.SetCodeValues(values[..count.value]);
    if accepted.Err? {
      return Err(BadTable(accepted.error));
    }
    var code := hc.ToPrefixCode();
    return Ok(code.value);
  }

  ghost predicate AreDiffLengths(codeValues: seq<nat>) {
    forall v :: v in codeValues ==> v <= 16
  }

  /** From a code to a decoded list. It fails exactly if full decoding is asked for and a value is no
      category. */
  method CodecOfCode(code: PrefixCode, kind: Implementation, withTable: bool, mode: Mode, o: Order, values: seq<int>)
    returns (r: Result<seq<int>, CodecError>)
    requires code.Valid() && (kind.UseLookup? ==> IsHuffman(code)) && (o.MSB? || o.MSB32? || o.JPEG?)
    requires mode.fullDecode ==> code.tag.Baseline?
    requires forall i :: 0 <= i < |values| ==> InAlphabet(code.codeValues, mode, values[i])
    ensures r.Ok? <==> (mode.fullDecode ==> AreDiffLengths(code.codeValues))
    ensures r.Ok? ==> |r.value| == |values|
    ensures r.Ok? ==> forall i :: 0 <= i < |values| ==> r.value[i] == Recovered(mode, values[i])
  {
    UsableIff(code, mode);
    hide Usable, InAlphabet, PrefixCode.Valid, IsHuffman, Decoder.Valid, Recovered, AreDiffLengths;
    hide Decoder.Code, Decoder.GetMode;
    var encoder := new PrefixCodeVectorEncoder(code);
    var ready := encoder.Setup(mode.fullDecode, mode.fixDNGBug16);
    var decoder := MakeDecoder(kind, withTable, code, mode);
    if decoder.Err? {
      return Err(BadSetup(decoder.error));
    }
    SameAlphabet(code, mode, values);
    var ok, read := EncodeThenDecode(decoder.value, encoder, o, values);
    return Ok(read);
  }

  /** For every table of code lengths, every decoder, every order and both settings: the codec is set up
      exactly if the table and its values are acceptable, and then what is encoded is decoded. */
  method CodecOfTable(tag: CodeTag, counts: seq<byte>, codeValues: seq<nat>, kind: Implementation, withTable: bool,
                      mode: Mode, o: Order, values: seq<int>)
    returns (r: Result<seq<int>, CodecError>)
    requires |counts| == (if tag.Baseline? then 16 else 26) && (o.MSB? || o.MSB32? || o.JPEG?)
    requires mode.fullDecode ==> tag.Baseline?
    requires Total(counts) <= |codeValues| ==>
               forall i :: 0 <= i < |values| ==> InAlphabet(codeValues[..Total(counts)], mode, values[i])
    ensures r.Ok? <==>
            && TableIsAccepted(tag, counts) && ValuesAreAccepted(tag, counts, codeValues)
            && (mode.fullDecode ==> AreDiffLengths(codeValues[..Total(counts)]))
    ensures r.Ok? ==> |r.value| == |values|
    ensures r.Ok? ==> forall i :: 0 <= i < |values| ==> r.value[i] == Recovered(mode, values[i])
  {
    hide InAlphabet, PrefixCode.Valid, IsHuffman, IsTrimmed, TableIsAccepted, Total, Recovered, AreDiffLengths;
    var code := MakeHuffmanCode(tag, counts, codeValues);
    if code.Err? {
      return Err(code.error);
    }
    r := CodecOfCode(code.value, kind, withTable, mode, o, values);
  }

  /** The same from a list of symbols, which need not be canonical; the bit-serial decoder refuses it. */
  method CodecOfSymbols(tag: CodeTag, symbols: seq<CodeSymbol>, codeValues: seq<nat>, kind: Implementation,
                        withTable: bool, mode: Mode, o: Order, values: seq<int>)
    returns (r: Result<seq<int>, CodecError>)
    requires AllFit(symbols, if tag.Baseline? then 16 else 26) && (o.MSB? || o.MSB32? || o.JPEG?)
    requires forall v :: v in codeValues ==> v < if tag.Baseline? then 0x100 else 0x8_0000
    requires mode.fullDecode ==> tag.Baseline?
    requires forall i :: 0 <= i < |values| ==> InAlphabet(codeValues, mode, values[i])
    ensures r.Ok? <==>
            && !kind.UseLookup? && symbols != [] && |symbols| == |codeValues|
            && Ordered(symbols) && PrefixFree(symbols)
            && (mode.fullDecode ==> AreDiffLengths(codeValues))
    ensures r.Ok? ==> |r.value| == |values|
    ensures r.Ok? ==> forall i :: 0 <= i < |values| ==> r.value[i] == Recovered(mode, values[i])
  {
    hide InAlphabet, PrefixCode.Valid, Recovered, AreDiffLengths, AllFit, Ordered, PrefixFree;
    if kind.UseLookup? {
      return Err(NeedsHuffman);
    }
    var code := MakePrefixCode(tag, symbols, codeValues);
    if code.Err? {
      return Err(BadSymbols(code.error));
    }
    r := CodecOfCode(code.value, kind, withTable, mode, o, values);
  }

  lemma UsableIff(code: PrefixCode, mode: Mode)
    requires code.Valid() && (mode.fullDecode ==> code.tag.SupportsFullDecode())
    ensures Usable(code, mode) <==> (mode.fullDecode ==> AreDiffLengths(code.codeValues))
  {
  }

  lemma SameAlphabet(code: PrefixCode, mode: Mode, values: seq<int>)
    requires forall i :: 0 <= i < |values| ==> InAlphabet(code.codeValues, mode, values[i])
    ensures AllEncodable(code, mode, values)
  {
    hide InAlphabet;
  }
}
