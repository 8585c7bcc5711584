/** Byte stuffing in JPEG entropy-coded segments (ITU-T T.81, section F.1.2.3).

    `Stuff` is the writer's half, `Walk` and `DataByte` the reader's. They are inverse to each
    other, whatever follows the stuffed bytes.
 */
module ByteStuffing {
  import opened Bits
  import opened BitOrder

  function StuffByte(b: byte): (s: seq<byte>)
    ensures 1 <= |s| <= 2
  {
    if b == 0xFF then [0xFF, 0x00] else [b]
  }

  function Stuff(data: seq<byte>): (s: seq<byte>)
    ensures |data| <= |s| <= 2 * |data|
  {
    if data == [] then [] else Stuff(data[..|data| - 1]) + StuffByte(data[|data| - 1])
  }

  lemma {:induction false} StuffConcat(a: seq<byte>, b: seq<byte>)
    ensures Stuff(a + b) == Stuff(a) + Stuff(b)
  {
    if b == [] {
      assert a + b == a;
    } else {
      hide Stuff, StuffByte;
      var init, last := b[..|b| - 1], b[|b| - 1];
      StuffConcat(a, init);
      StuffSnoc(init, last);
      StuffSnoc(a + init, last);
      Concat(a, init, [last]);
      Concat(Stuff(a), Stuff(init), StuffByte(last));
      assert b == init + [last];
    }
  }

  lemma StuffSnoc(data: seq<byte>, b: byte)
    ensures Stuff(data + [b]) == Stuff(data) + StuffByte(b)
  {
    assert (data + [b])[..|data|] == data;
  }

  lemma {:induction false} StuffPlain(data: seq<byte>)
    requires 0xFF !in data
    ensures Stuff(data) == data
  {
    if data != [] {
      StuffPlain(data[..|data| - 1]);
    }
  }

  /** Stuffed bytes never contain a marker, not even half of one at their end. */
  lemma {:induction false} NoMarkerInStuffed(data: seq<byte>, i: nat)
    requires i < |Stuff(data)| && Stuff(data)[i] == 0xFF
    ensures i + 1 < |Stuff(data)| && Stuff(data)[i + 1] == 0
  {
    var init := data[..|data| - 1];
    if i < |Stuff(init)| {
      NoMarkerInStuffed(init, i);
    }
  }

  /** Reading stuffed bytes delivers the data, and the scan keeps in step with the writer. */
  lemma {:induction false} DestuffStuffed(input: seq<byte>, data: seq<byte>, k: nat)
    requires Stuff(data) <= input && k <= |data|
    ensures Walk(input, k) == At(|Stuff(data[..k])|)
    ensures k < |data| ==> DataByte(input, k) == data[k]
  {
    hide Walk, DataByte, Stuff;
    if k == 0 {
      StartOfScan(input, data);
    } else {
      DestuffStuffed(input, data, k - 1);
      StuffedByteAt(input, data, k - 1);
      StepCases(input, k - 1, |Stuff(data[..k - 1])|);
    }
    if k < |data| {
      StuffedByteAt(input, data, k);
      StepCases(input, k, |Stuff(data[..k])|);
    }
  }

  lemma StartOfScan(input: seq<byte>, data: seq<byte>)
    ensures Walk(input, 0) == At(|Stuff(data[..0])|)
  {
  }

  lemma StuffedByteAt(input: seq<byte>, data: seq<byte>, k: nat)
    requires Stuff(data) <= input && k < |data|
    ensures
      var p := |Stuff(data[..k])|;
      && |Stuff(data[..k + 1])| == p + |StuffByte(data[k])|
      && ByteAt(input, p) == data[k] && (data[k] == 0xFF ==> ByteAt(input, p + 1) == 0)
  {
    StuffSplit(data, k);
    StuffNext(data, k);
    var a, c := Stuff(data[..k]), Stuff(data[k + 1..]);
    hide Stuff;
    assert input[|a|] == (a + StuffByte(data[k]) + c)[|a|];
    if data[k] == 0xFF {
      assert input[|a| + 1] == (a + StuffByte(data[k]) + c)[|a| + 1];
    }
  }

  lemma StuffSplit(data: seq<byte>, k: nat)
    requires k < |data|
    ensures Stuff(data) == Stuff(data[..k]) + StuffByte(data[k]) + Stuff(data[k + 1..])
  {
    hide Stuff, StuffByte;
    StuffNext(data, k);
    StuffCut(data, k + 1, data[..k + 1], data[k + 1..]);
  }

  lemma StuffCut(data: seq<byte>, k: nat, a: seq<byte>, b: seq<byte>)
    requires k <= |data| && a == data[..k] && b == data[k..]
    ensures Stuff(data) == Stuff(a) + Stuff(b)
  {
    hide Stuff;
    assert a + b == data;
    StuffConcat(a, b);
  }

  lemma StuffNext(data: seq<byte>, k: nat)
    requires k < |data|
    ensures Stuff(data[..k + 1]) == Stuff(data[..k]) + StuffByte(data[k])
  {
    var head := data[..k + 1];
    assert head[..k] == data[..k] && head[k] == data[k];
  }

  /** After the data the marker ends the stream, and the scan reports where it is. */
  lemma MarkerAfterStuffed(data: seq<byte>, marker: byte, rest: seq<byte>, i: nat)
    requires marker != 0 && 8 * |data| <= i
    ensures
      var input := Stuff(data) + [0xFF, marker] + rest;
      && Walk(input, |data| + 1) == Ended(|Stuff(data)|)
      && !StreamBit(JPEG, input, i)
  {
    var input := Stuff(data) + [0xFF, marker] + rest;
    DestuffStuffed(input, data, |data|);
    assert data[..|data|] == data;
    ZerosAfterMarker(input, |data|, i);
  }

  /** Conversely, whatever a scan has passed over is the stuffed form of what it delivered. */
  lemma {:induction false} ScannedIsStuffed(input: seq<byte>, k: nat)
    requires Walk(input, k).At?
    ensures Padded(input, 0, Walk(input, k).pos) == Stuff(Delivered(input, k))
  {
    if k > 0 {
      ScannedIsStuffed(input, k - 1);
      ScanStep(input, k - 1);
      DeliveredSnoc(input, k - 1);
      hide StuffByte, Padded, DataByte, Stuff, Delivered, Walk;
      StuffSnoc(Delivered(input, k - 1), DataByte(input, k - 1));
    }
  }

  lemma ScanStep(input: seq<byte>, k: nat)
    requires Walk(input, k).At? && Walk(input, k + 1).At?
    ensures Padded(input, 0, Walk(input, k + 1).pos)
            == Padded(input, 0, Walk(input, k).pos) + StuffByte(DataByte(input, k))
  {
    StepCases(input, k, Walk(input, k).pos);
  }

  function Delivered(input: seq<byte>, k: nat): (data: seq<byte>)
    ensures |data| == k
  {
    seq<byte>(k, j requires 0 <= j < k => DataByte(input, j))
  }

  lemma DeliveredSnoc(input: seq<byte>, k: nat)
    ensures Delivered(input, k + 1) == Delivered(input, k) + [DataByte(input, k)]
  {
    hide DataByte;
  }

  /** The bits of stuffed data are the bits of the data. */
  lemma StuffedBits(input: seq<byte>, data: seq<byte>, i: nat)
    requires Stuff(data) <= input && i < 8 * |data|
    ensures StreamBit(JPEG, input, i) == StreamBit(MSB, data, i)
  {
    hide Stuff, Walk, DataByte, Bit;
    DestuffStuffed(input, data, i / 8);
  }
}
