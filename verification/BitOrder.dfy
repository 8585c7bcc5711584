/** The five bit orders, and what each says the bits of a byte buffer are.

    `StreamBit` is the meaning of a buffer: one boolean per position, independent of any
    cache, chunk size or reading pattern. Past its end a buffer reads as zero bytes.
 */
module BitOrder {
  import opened Bits
  import opened BitCache

  datatype Order = LSB | MSB | MSB16 | MSB32 | JPEG {

    predicate FixedSizeChunks() {
      !JPEG?
    }

    function EmptyCache(): (c: Cache)
      ensures c.Valid() && c.Contents() == []
    {
      EmptyCacheIsValid();
      if LSB? then LeftInRightOut(0, 0) else RightInLeftOut(0, 0)
    }

    /** The order in which the stream stores the bits of a number. */
    function Row(v: nat, n: nat): (s: seq<bool>)
      ensures |s| == n
    {
      if LSB? then LsbBits(v, n) else MsbBits(v, n)
    }

    /** The size of one chunk of the stream, in bytes. */
    function ChunkBytes(): (n: nat)
      ensures n == 2 || n == 4
    {
      if MSB16? then 2 else 4
    }

    predicate ChunkIsBigEndian() {
      MSB? || JPEG?
    }

    function MinLoadStep(): (n: nat)
      ensures 1 <= n <= ChunkBytes() && ChunkBytes() % n == 0
    {
      match this
      case MSB16 => 2
      case MSB32 => 4
      case _ => 1
    }

    /** How many bytes one refill may look at. */
    function MaxProcessBytes(): (n: nat)
      ensures n == 4 || n == 8
    {
      if JPEG? then 8 else 4
    }

    /** Reading a chunk from memory, byte-swapped when its order is not the host's. */
    function LoadChunk(bytes: seq<byte>): nat {
      if ChunkIsBigEndian() then BigEndian(bytes) else LittleEndian(bytes)
    }

    /** Writing a chunk to memory; the output iterator takes it apart low byte first. */
    function StoreChunk(chunk: nat): (bytes: seq<byte>)
      ensures |bytes| == ChunkBytes()
    {
      if ChunkIsBigEndian() then ToBigEndian(chunk, ChunkBytes()) else ToLittleEndian(chunk, ChunkBytes())
    }
  }

  lemma EmptyCacheIsValid()
    ensures LeftInRightOut(0, 0).Valid() && RightInLeftOut(0, 0).Valid()
  {
    forall i: nat
      ensures !Bit(0, i)
    {
      BitZero(i);
    }
    Cache.ValidFromBits(LeftInRightOut(0, 0));
    Cache.ValidFromBits(RightInLeftOut(0, 0));
  }

  // ----- the meaning of a buffer

  function ByteAt(input: seq<byte>, i: nat): byte {
    if i < |input| then input[i] else 0
  }

  /** `n` bytes from `pos` on, zero-extended past the end. */
  function Padded(input: seq<byte>, pos: nat, n: nat): (bytes: seq<byte>)
    ensures |bytes| == n
    ensures forall j :: 0 <= j < n ==> bytes[j] == ByteAt(input, pos + j)
  {
    seq<byte>(n, j requires 0 <= j < n => ByteAt(input, pos + j))
  }

  predicate StreamBit(o: Order, input: seq<byte>, i: nat) {
    match o
    case LSB => Bit(ByteAt(input, i / 8), i % 8)
    case MSB => Bit(ByteAt(input, i / 8), 7 - i % 8)
    case MSB16 => Bit(ByteAt(input, 2 * (i / 16) + 1 - i % 16 / 8), 7 - i % 8)
    case MSB32 => Bit(ByteAt(input, 4 * (i / 32) + 3 - i % 32 / 8), 7 - i % 8)
    case JPEG => Bit(DataByte(input, i / 8), 7 - i % 8)
  }

  function Window(o: Order, input: seq<byte>, from: nat, n: nat): (w: seq<bool>)
    ensures |w| == n
    ensures forall j :: 0 <= j < n ==> w[j] == StreamBit(o, input, from + j)
  {
    seq(n, j requires 0 <= j < n => StreamBit(o, input, from + j))
  }

  lemma WindowSplit(o: Order, input: seq<byte>, from: nat, m: nat, n: nat)
    ensures Window(o, input, from, m + n) == Window(o, input, from, m) + Window(o, input, from + m, n)
  {
    hide StreamBit;
  }

  lemma WindowDrop(o: Order, input: seq<byte>, from: nat, m: nat, n: nat)
    requires m <= n
    ensures Window(o, input, from, n)[..m] == Window(o, input, from, m)
    ensures Window(o, input, from, n)[m..] == Window(o, input, from + m, n - m)
  {
    hide StreamBit;
  }

  // ----- JPEG entropy-coded segments (ITU-T T.81, sections B.1.1.5 and F.1.2.3)

  /** Where the next data byte is, or which marker ended the segment. */
  datatype Scan = At(pos: nat) | Ended(marker: nat)

  /** 0xFF not followed by a stuffed zero byte is a marker, not data. */
  predicate IsMarker(input: seq<byte>, p: nat) {
    ByteAt(input, p) == 0xFF && ByteAt(input, p + 1) != 0
  }

  function Step(input: seq<byte>, s: Scan): Scan {
    match s
    case Ended(_) => s
    case At(p) =>
      if ByteAt(input, p) != 0xFF then At(p + 1)
      else if ByteAt(input, p + 1) == 0 then At(p + 2)
      else Ended(p)
  }

  /** The scan after `k` data bytes. */
  function Walk(input: seq<byte>, k: nat): Scan {
    if k == 0 then At(0) else Step(input, Walk(input, k - 1))
  }

  /** The `k`-th data byte; the stream continues with zeros once a marker is met. */
  function DataByte(input: seq<byte>, k: nat): byte {
    var s := Walk(input, k);
    if s.At? && !IsMarker(input, s.pos) then ByteAt(input, s.pos) else 0
  }

  lemma {:induction false} WalkForward(input: seq<byte>, k: nat, m: nat)
    ensures Walk(input, k).Ended? ==> Walk(input, k + m) == Walk(input, k)
    ensures Walk(input, k).At? && Walk(input, k + m).At? ==>
              Walk(input, k).pos + m <= Walk(input, k + m).pos <= Walk(input, k).pos + 2 * m
  {
    if m > 0 {
      WalkForward(input, k, m - 1);
    }
  }

  lemma {:induction false} MarkerIsInside(input: seq<byte>, k: nat)
    ensures Walk(input, k).Ended? ==> Walk(input, k).marker + 1 < |input| && IsMarker(input, Walk(input, k).marker)
  {
    if k > 0 {
      MarkerIsInside(input, k - 1);
    }
  }

  /** What the scan does with the next one or two bytes. */
  lemma StepCases(input: seq<byte>, k: nat, p: nat)
    requires Walk(input, k) == At(p)
    ensures ByteAt(input, p) != 0xFF ==> Walk(input, k + 1) == At(p + 1) && DataByte(input, k) == ByteAt(input, p)
    ensures ByteAt(input, p) == 0xFF && ByteAt(input, p + 1) == 0 ==>
              Walk(input, k + 1) == At(p + 2) && DataByte(input, k) == 0xFF
    ensures IsMarker(input, p) ==> Walk(input, k + 1) == Ended(p) && p + 1 < |input|
  {
  }

  /** After the end of the segment every bit is zero. */
  lemma ZerosAfterMarker(input: seq<byte>, k: nat, i: nat)
    requires Walk(input, k).Ended? || (Walk(input, k).At? && IsMarker(input, Walk(input, k).pos))
    requires 8 * k <= i
    ensures !StreamBit(JPEG, input, i)
  {
    WalkForward(input, k, i / 8 - k);
    if Walk(input, k).At? {
      WalkForward(input, k + 1, if i / 8 == k then 0 else i / 8 - k - 1);
    }
    BitZero(7 - i % 8);
  }

  // ----- chunks are windows

  /** A chunk loaded from an aligned position holds exactly the next bits of the stream. */
  lemma ChunkIsWindow(o: Order, input: seq<byte>, p: nat)
    requires o.FixedSizeChunks() && p % o.MinLoadStep() == 0
    ensures
      var chunk := o.LoadChunk(Padded(input, p, o.ChunkBytes()));
      && chunk < Pow2(8 * o.ChunkBytes())
      && o.Row(chunk, 8 * o.ChunkBytes()) == Window(o, input, 8 * p, 8 * o.ChunkBytes())
  {
    var n := o.ChunkBytes();
    var bytes := Padded(input, p, n);
    var chunk := o.LoadChunk(bytes);
    EndianBound(bytes);
    forall j: nat | j < 8 * n
      ensures o.Row(chunk, 8 * n)[j] == StreamBit(o, input, 8 * p + j)
    {
      ChunkBitIsStreamBit(o, input, p, j);
    }
  }

  lemma ChunkBitIsStreamBit(o: Order, input: seq<byte>, p: nat, j: nat)
    requires o.FixedSizeChunks() && p % o.MinLoadStep() == 0 && j < 8 * o.ChunkBytes()
    ensures o.Row(o.LoadChunk(Padded(input, p, o.ChunkBytes())), 8 * o.ChunkBytes())[j]
            == StreamBit(o, input, 8 * p + j)
  {
    match o
    case LSB => LsbChunkBit(input, p, j);
    case MSB => MsbChunkBit(input, p, j);
    case MSB16 => Msb16ChunkBit(input, p, j);
    case MSB32 => Msb32ChunkBit(input, p, j);
  }

  lemma PartOfPadded(input: seq<byte>, p: nat, n: nat, i: nat, k: nat)
    requires i + k <= n
    ensures Padded(input, p, n)[i..i + k] == Padded(input, p + i, k)
  {
  }

  lemma UnitIndex(q: nat, u: nat, j: nat)
    requires (u == 2 || u == 4) && j < 8 * u
    ensures (8 * (u * q) + j) / (8 * u) == q && (8 * (u * q) + j) % (8 * u) == j
    ensures (8 * (u * q) + j) % 8 == j % 8
  {
    if u == 2 {
      HalfIndex(q, j);
    } else {
      WordIndex(q, j);
    }
  }

  lemma HalfIndex(q: nat, j: nat)
    requires j < 16
    ensures (16 * q + j) / 16 == q && (16 * q + j) % 16 == j && (16 * q + j) % 8 == j % 8
  {
    DivisionIsUnique(16 * q + j, 16, q, j);
    BitInByte(2 * q, j);
  }

  lemma WordIndex(q: nat, j: nat)
    requires j < 32
    ensures (32 * q + j) / 32 == q && (32 * q + j) % 32 == j && (32 * q + j) % 8 == j % 8
  {
    DivisionIsUnique(32 * q + j, 32, q, j);
    BitInByte(4 * q, j);
  }

  lemma BitInByte(b: nat, j: nat)
    ensures (8 * b + j) % 8 == j % 8
  {
    DivisionIsUnique(8 * b + j, 8, b + j / 8, j % 8);
  }

  lemma LsbChunkBit(input: seq<byte>, p: nat, j: nat)
    requires j < 32
    ensures LsbBits(LittleEndian(Padded(input, p, 4)), 32)[j] == StreamBit(LSB, input, 8 * p + j)
  {
    LsbOfLittleEndian(Padded(input, p, 4), j);
  }

  lemma MsbChunkBit(input: seq<byte>, p: nat, j: nat)
    requires j < 32
    ensures MsbBits(BigEndian(Padded(input, p, 4)), 32)[j] == StreamBit(MSB, input, 8 * p + j)
  {
    MsbOfBigEndian(Padded(input, p, 4), j);
  }

  lemma Msb16ChunkBit(input: seq<byte>, p: nat, j: nat)
    requires p % 2 == 0 && j < 16
    ensures MsbBits(LittleEndian(Padded(input, p, 2)), 16)[j] == StreamBit(MSB16, input, 8 * p + j)
  {
    MsbOfLittleEndian(Padded(input, p, 2), j);
    UnitIndex(p / 2, 2, j);
  }

  lemma Msb32ChunkBit(input: seq<byte>, p: nat, j: nat)
    requires p % 4 == 0 && j < 32
    ensures MsbBits(LittleEndian(Padded(input, p, 4)), 32)[j] == StreamBit(MSB32, input, 8 * p + j)
  {
    MsbOfLittleEndian(Padded(input, p, 4), j);
    UnitIndex(p / 4, 4, j);
  }

  /** One data byte of a JPEG segment holds the next eight bits of the stream. */
  lemma DataByteIsWindow(input: seq<byte>, k: nat)
    ensures MsbBits(DataByte(input, k), 8) == Window(JPEG, input, 8 * k, 8)
  {
    forall j: nat | j < 8
      ensures MsbBits(DataByte(input, k), 8)[j] == StreamBit(JPEG, input, 8 * k + j)
    {
      MsbBitsAt(DataByte(input, k), 8, j);
      assert (8 * k + j) / 8 == k && (8 * k + j) % 8 == j;
    }
  }

  /** Four bytes without 0xFF are four data bytes: the speculative fast path is right. */
  lemma PlainChunkIsWindow(input: seq<byte>, k: nat, p: nat)
    requires Walk(input, k) == At(p)
    requires forall j :: 0 <= j < 4 ==> Padded(input, p, 4)[j] != 0xFF
    ensures Walk(input, k + 4) == At(p + 4)
    ensures
      var chunk := BigEndian(Padded(input, p, 4));
      chunk < Pow2(32) && MsbBits(chunk, 32) == Window(JPEG, input, 8 * k, 32)
  {
    var bytes := Padded(input, p, 4);
    var chunk := BigEndian(bytes);
    EndianBound(bytes);
    assert bytes[0] != 0xFF && bytes[1] != 0xFF && bytes[2] != 0xFF && bytes[3] != 0xFF;
    assert Walk(input, k + 1) == At(p + 1);
    assert Walk(input, k + 2) == At(p + 2);
    assert Walk(input, k + 3) == At(p + 3);
    assert Walk(input, k + 4) == At(p + 4);
    assert forall m: nat {:trigger Walk(input, k + m)} :: m < 4 ==> Walk(input, k + m) == At(p + m);
    forall j: nat | j < 32
      ensures MsbBits(chunk, 32)[j] == StreamBit(JPEG, input, 8 * k + j)
    {
      hide StreamBit, Bit, MsbBits, BigEndian, Walk;
      MsbOfBigEndian(bytes, j);
      PlainBit(input, k, p, j);
    }
  }

  lemma PlainBit(input: seq<byte>, k: nat, p: nat, j: nat)
    requires Walk(input, k + j / 8) == At(p + j / 8) && ByteAt(input, p + j / 8) != 0xFF
    ensures StreamBit(JPEG, input, 8 * k + j) == Bit(ByteAt(input, p + j / 8), 7 - j % 8)
  {
    assert (8 * k + j) / 8 == k + j / 8 && (8 * k + j) % 8 == j % 8;
  }
}
