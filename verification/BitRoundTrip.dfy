/** What is written to a bit stream is read back, in all five orders.

    The methods follow the round-trip fuzzer of the repository, which puts a list of values
    of 0 to 32 bits, flushes, and expects to get the same values and no exception.
 */
module BitRoundTrip {
  import opened Bits
  import opened BitOrder
  import opened ByteStuffing
  import opened BitStreamer
  import opened BitVacuumer

  datatype Field = Field(val: nat, len: nat) {
    predicate Valid() {
      len <= 32 && val < Pow2(len)
    }
  }

  /** The bits of a list of fields, one after the other. */
  ghost function FieldBits(o: Order, fields: seq<Field>): seq<bool> {
    if fields == [] then []
    else var f := fields[|fields| - 1]; FieldBits(o, fields[..|fields| - 1]) + o.Row(f.val, f.len)
  }

  /** Reading any input that starts with what a vacuumer wrote gives the bits that were put,
      and reaching their end is no over-read. */
  lemma ReadsBack(o: Order, data: seq<byte>, bits: seq<bool>, input: seq<byte>)
    requires Spells(o, data, bits) && |bits| % CHUNK_BITS == 0
    requires Wire(o, data) <= input
    ensures Window(o, input, 0, |bits|) == bits
    ensures forall i: nat :: i <= |bits| ==> InBounds(o, input, i)
  {
    hide StreamBit, Stuff, Walk;
    AlignedFacts(o, |bits|);
    hide Aligned;
    forall i: nat | i < |bits|
      ensures StreamBit(o, input, i) == bits[i]
    {
      BitReadsBack(o, data, bits, input, i);
    }
    forall i: nat | i <= |bits|
      ensures InBounds(o, input, i)
    {
      if o.JPEG? {
        StuffedInBounds(input, data, i / 8);
      }
    }
  }

  lemma BitReadsBack(o: Order, data: seq<byte>, bits: seq<bool>, input: seq<byte>, i: nat)
    requires Spells(o, data, bits) && Aligned(o, |bits|) && Wire(o, data) <= input && i < |bits|
    ensures StreamBit(o, input, i) == bits[i]
  {
    hide StreamBit, Stuff, Aligned;
    assert bits[i] == Window(Layout(o), data, 0, |bits|)[i];
    hide Window;
    if o.JPEG? {
      StuffedBits(input, data, i);
    } else {
      AlignedBytes(o, |data|);
      StreamBitOfPrefix(o, data, input[|data|..], i);
      assert data + input[|data|..] == input;
    }
  }

  lemma StuffedInBounds(input: seq<byte>, data: seq<byte>, k: nat)
    requires Stuff(data) <= input && k <= |data|
    ensures Walk(input, k).At? && Walk(input, k).pos <= |input|
  {
    hide Stuff, Walk;
    DestuffStuffed(input, data, k);
    StuffCut(data, k, data[..k], data[k..]);
  }

  lemma FieldNext(o: Order, fields: seq<Field>, i: nat)
    requires i < |fields|
    ensures FieldBits(o, fields[..i + 1]) == FieldBits(o, fields[..i]) + o.Row(fields[i].val, fields[i].len)
  {
    var head := fields[..i + 1];
    assert head[..i] == fields[..i] && head[i] == fields[i];
  }

  lemma {:induction false} FieldPrefix(o: Order, fields: seq<Field>, i: nat)
    requires i <= |fields|
    ensures FieldBits(o, fields[..i]) <= FieldBits(o, fields)
    decreases |fields| - i
  {
    if i == |fields| {
      assert fields[..i] == fields;
    } else {
      FieldNext(o, fields, i);
      FieldPrefix(o, fields, i + 1);
    }
  }

  lemma NoFields(o: Order, fields: seq<Field>)
    ensures FieldBits(o, fields[..0]) == [] && FieldBits(o, fields[..|fields|]) == FieldBits(o, fields)
  {
    assert fields[..|fields|] == fields;
  }

  /** The bits of a number determine it. */
  lemma RowInjective(o: Order, a: nat, b: nat, n: nat)
    requires a < Pow2(n) && b < Pow2(n) && o.Row(a, n) == o.Row(b, n)
    ensures a == b
  {
    if o.LSB? {
      LsbBitsInjective(a, b, n);
    } else {
      MsbBitsInjective(a, b, n);
    }
  }

  /** A buffer shorter than what a streamer accepts is filled up with zero bytes. */
  method ResizeToMinimum(o: Order, output: seq<byte>) returns (input: seq<byte>)
    ensures output <= input
    ensures |input| == if |output| < (if o.JPEG? then 8 else 4) then if o.JPEG? then 8 else 4 else |output|
    ensures forall i :: |output| <= i < |input| ==> input[i] == 0
  {
    input := output;
    while |input| < o.MaxProcessBytes()
      invariant output <= input
      invariant |output| <= |input| && (|input| <= o.MaxProcessBytes() || input == output)
      invariant forall i :: |output| <= i < |input| ==> input[i] == 0
    {
      input := input + [0];
    }
  }

  method ProduceBitstream(o: Order, fields: seq<Field>)
    returns (input: seq<byte>, ghost data: seq<byte>, ghost bits: seq<bool>)
    requires forall i :: 0 <= i < |fields| ==> fields[i].Valid()
    ensures if o.JPEG? then |input| >= 8 else |input| >= 4
    ensures Spells(o, data, bits) && Wire(o, data) <= input && |bits| % CHUNK_BITS == 0
    ensures bits == FieldBits(o, fields) + Zeros(PaddingBits(|FieldBits(o, fields)|))
  {
    hide Spells, Wire, PaddingBits, FieldBits, Order.Row, BitCache.Cache.Valid, BitCache.Cache.Contents;
    NoFields(o, fields);
    var bv := new BitVacuumer(o);
    var i := 0;
    while i != |fields|
      invariant 0 <= i <= |fields|
      invariant bv.Valid() && !bv.flushed && bv.order == o
      invariant bv.Written() == FieldBits(o, fields[..i])
    {
      FieldNext(o, fields, i);
      bv.Put(fields[i].val, fields[i].len);
      i := i + 1;
    }
    bv.Flush();
    data, bits := bv.data, bv.Written();
    PaddedLength(|FieldBits(o, fields)|);
    input := ResizeToMinimum(o, bv.output);
  }

  /** Every field comes back and no read fails. */
  method ReparseBitstream(o: Order, input: seq<byte>, fields: seq<Field>, ghost data: seq<byte>, ghost bits: seq<bool>)
    returns (ok: bool, read: seq<nat>)
    requires forall i :: 0 <= i < |fields| ==> fields[i].Valid()
    requires o.MaxProcessBytes() <= |input|
    requires Spells(o, data, bits) && Wire(o, data) <= input && |bits| % CHUNK_BITS == 0
    requires FieldBits(o, fields) <= bits
    ensures ok && |read| == |fields|
    ensures forall i :: 0 <= i < |fields| ==> read[i] == fields[i].val
  {
    hide Spells, Wire, StreamBit, InBounds, FieldBits, Order.Row, Holds, Walk;
    NoFields(o, fields);
    ReadsBack(o, data, bits, input);
    var bs := new BitStreamer(o, input);
    read := [];
    var i := 0;
    while i != |fields|
      invariant 0 <= i <= |fields| && |read| == i
      invariant bs.Valid() && bs.order == o && bs.input == input
      invariant bs.Cursor() == |FieldBits(o, fields[..i])|
      invariant forall k :: 0 <= k < i ==> read[k] == fields[k].val
    {
      var len := fields[i].len;
      ghost var from := bs.Cursor();
      FieldNext(o, fields, i);
      FieldPrefix(o, fields, i + 1);
      bs.NoOverRead(0, 32);
      ok := bs.Fill(32);
      var actual := 0;
      if len != 0 {
        FieldWindow(o, input, bits, FieldBits(o, fields[..i]), o.Row(fields[i].val, len));
        actual := bs.GetBitsNoFill(len);
        RowInjective(o, actual, fields[i].val, len);
      }
      read := read + [actual];
      i := i + 1;
    }
    ok := true;
  }

  lemma PaddedLength(n: nat)
    ensures (n + PaddingBits(n)) % CHUNK_BITS == 0
  {
  }

  lemma FieldWindow(o: Order, input: seq<byte>, bits: seq<bool>, before: seq<bool>, row: seq<bool>)
    requires Window(o, input, 0, |bits|) == bits && before + row <= bits
    ensures Window(o, input, |before|, |row|) == row
  {
    hide StreamBit;
    forall j: nat | j < |row|
      ensures Window(o, input, |before|, |row|)[j] == row[j]
    {
      assert Window(o, input, 0, |bits|)[|before| + j] == bits[|before| + j] == (before + row)[|before| + j];
    }
  }

  /** The round trip. */
  method CheckFlavour(o: Order, fields: seq<Field>) returns (ok: bool, read: seq<nat>)
    requires forall i :: 0 <= i < |fields| ==> fields[i].len <= 32 && fields[i].val < Pow2(fields[i].len)
    ensures ok && |read| == |fields|
    ensures forall i :: 0 <= i < |fields| ==> read[i] == fields[i].val
  {
    ghost var data, bits;
    var input;
    input, data, bits := ProduceBitstream(o, fields);
    ok, read := ReparseBitstream(o, input, fields, data, bits);
  }
}
