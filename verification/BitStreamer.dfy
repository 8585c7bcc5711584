/** Reading a bit stream, 64 cached bits at a time.

    The source derives one streamer per bit order from a common template; here one class is
    parametrised by its order. Everything a caller may rely on is said about `StreamBit`: a
    streamer stands at a bit position, its `Cursor`, and hands out the bits found there.
 */
module BitStreamer {
  import opened Bits
  import opened BitCache
  import opened BitOrder
  import opened Results
  import opened VariableLengthLoad

  const UNKNOWN_POS := -1

  /** `roundUpDivision` of Common.h. */
  function RoundUpDivision(value: nat, div: nat): nat
    requires div != 0
  {
    var offset := value % div;
    (if offset == 0 then value else value - offset + div) / div
  }

  datatype ByteStreamPosition = ByteStreamPosition(bytePos: nat, numBitsToSkip: nat)

  /** Where to restart reading, on a load boundary, to stand at bit `8 * pos - fillLevel` again. */
  function GetAsByteStreamPosition(o: Order, pos: nat, fillLevel: nat): (r: ByteStreamPosition)
    requires o.FixedSizeChunks()
    requires pos % o.MinLoadStep() == 0 && fillLevel <= 8 * pos
    ensures 8 * r.bytePos + r.numBitsToSkip == 8 * pos - fillLevel
    ensures r.bytePos % (if o.MSB32? then 4 else if o.MSB16? then 2 else 1) == 0
    ensures r.numBitsToSkip < if o.MSB32? then 32 else if o.MSB16? then 16 else 8
  {
    RestartIsOnBoundary(o, pos, fillLevel);
    var step := o.MinLoadStep();
    var numBytesToBacktrack := step * RoundUpDivision(fillLevel, 8 * step);
    ByteStreamPosition(pos - numBytesToBacktrack, 8 * numBytesToBacktrack - fillLevel)
  }

  lemma RestartIsOnBoundary(o: Order, pos: nat, fillLevel: nat)
    requires o.FixedSizeChunks()
    requires pos % o.MinLoadStep() == 0 && fillLevel <= 8 * pos
    ensures
      var step := o.MinLoadStep();
      var back := step * RoundUpDivision(fillLevel, 8 * step);
      && fillLevel <= 8 * back < fillLevel + 8 * step
      && back <= pos && (pos - back) % step == 0
  {
    var step := o.MinLoadStep();
    var q := RoundUpDivision(fillLevel, 8 * step);
    RoundUpBounds(fillLevel, 8 * step);
    hide RoundUpDivision;
    MultipleOfStep(pos, q, step);
  }

  lemma MultipleOfStep(pos: nat, q: nat, step: nat)
    requires step == 1 || step == 2 || step == 4
    requires pos % step == 0 && 8 * step * q < 8 * pos + 8 * step
    ensures step * q <= pos && (pos - step * q) % step == 0
  {
  }

  lemma RoundUpBounds(value: nat, div: nat)
    requires div == 8 || div == 16 || div == 32
    ensures value <= div * RoundUpDivision(value, div) < value + div
  {
  }

  /** `cache` holds the bits of the stream from position `from` on. */
  ghost predicate Holds(o: Order, input: seq<byte>, from: nat, cache: Cache) {
    && cache.Valid()
    && cache.LeftInRightOut? == o.LSB?
    && cache.Contents() == Window(o, input, from, cache.fillLevel)
  }

  /** Pushes the chunk found at byte `p`, the next one after what is cached. */
  function PushChunk(o: Order, ghost input: seq<byte>, ghost from: nat, cache: Cache, ghost p: nat, block: seq<byte>)
    : (c: Cache)
    requires o.FixedSizeChunks() && p % o.MinLoadStep() == 0
    requires Holds(o, input, from, cache) && from + cache.fillLevel == 8 * p
    requires cache.fillLevel < CACHE_SIZE && cache.fillLevel + 8 * o.ChunkBytes() <= CACHE_SIZE
    requires block == Padded(input, p, o.ChunkBytes())
    ensures Holds(o, input, from, c) && c.fillLevel == cache.fillLevel + 8 * o.ChunkBytes()
  {
    PushChunkHolds(o, input, from, cache, p);
    cache.Push(o.LoadChunk(block), 8 * o.ChunkBytes())
  }

  lemma PushChunkHolds(o: Order, input: seq<byte>, from: nat, cache: Cache, p: nat)
    requires o.FixedSizeChunks() && p % o.MinLoadStep() == 0
    requires Holds(o, input, from, cache) && from + cache.fillLevel == 8 * p
    requires cache.fillLevel < CACHE_SIZE && cache.fillLevel + 8 * o.ChunkBytes() <= CACHE_SIZE
    ensures
      var chunk := o.LoadChunk(Padded(input, p, o.ChunkBytes()));
      chunk < Pow2(8 * o.ChunkBytes()) && Holds(o, input, from, cache.Push(chunk, 8 * o.ChunkBytes()))
  {
    hide StreamBit, Cache.Push, Bit, MsbBits, LsbBits, Cache.Valid, Cache.Contents, Padded;
    ChunkIsWindow(o, input, p);
    WindowSplit(o, input, from, cache.fillLevel, 8 * o.ChunkBytes());
  }

  lemma OneChunkOn(o: Order, p: nat)
    requires p % o.MinLoadStep() == 0
    ensures (p + o.ChunkBytes()) % o.MinLoadStep() == 0
  {
    match o
    case MSB16 => DivisionIsUnique(p + 2, 2, p / 2 + 1, 0);
    case MSB32 => DivisionIsUnique(p + 4, 4, p / 4 + 1, 0);
    case _ =>
  }

  /** Pushes four bytes at once, before it is known whether they are all data. */
  function PushFour(ghost input: seq<byte>, ghost from: nat, cache: Cache, bytes: seq<byte>): (c: Cache)
    requires Holds(JPEG, input, from, cache) && cache.fillLevel <= 32 && |bytes| == 4
    ensures c.fillLevel == cache.fillLevel + 32
    ensures MsbBits(BigEndian(bytes), 32) == Window(JPEG, input, from + cache.fillLevel, 32) ==>
              Holds(JPEG, input, from, c)
  {
    EndianBound(bytes);
    PushHolds(input, from, cache, BigEndian(bytes), 32);
    cache.Push(BigEndian(bytes), 32)
  }

  lemma PushHolds(input: seq<byte>, from: nat, cache: Cache, v: nat, n: nat)
    requires Holds(JPEG, input, from, cache) && cache.fillLevel + n <= CACHE_SIZE && cache.fillLevel < CACHE_SIZE
    requires v < Pow2(n)
    ensures MsbBits(v, n) == Window(JPEG, input, from + cache.fillLevel, n) ==>
              Holds(JPEG, input, from, cache.Push(v, n))
  {
    hide StreamBit, Cache.Push, Bit, MsbBits, LsbBits, Cache.Valid, Cache.Contents;
    WindowSplit(JPEG, input, from, cache.fillLevel, n);
  }

  /** Pushes one byte, before it is known whether it is data. */
  function PushByte(ghost input: seq<byte>, ghost from: nat, cache: Cache, c0: byte): (c: Cache)
    requires Holds(JPEG, input, from, cache) && cache.fillLevel <= CACHE_SIZE - 8
    ensures c.fillLevel == cache.fillLevel + 8
    ensures forall k: nat :: from + cache.fillLevel == 8 * k && c0 == DataByte(input, k) ==>
                               Holds(JPEG, input, from, c)
  {
    PushByteHolds(input, from, cache, c0);
    cache.Push(c0, 8)
  }

  lemma PushByteHolds(input: seq<byte>, from: nat, cache: Cache, c0: byte)
    requires Holds(JPEG, input, from, cache) && cache.fillLevel <= CACHE_SIZE - 8
    ensures c0 < Pow2(8)
    ensures forall k: nat :: from + cache.fillLevel == 8 * k && c0 == DataByte(input, k) ==>
                               Holds(JPEG, input, from, cache.Push(c0, 8))
  {
    hide StreamBit, Cache.Push, Bit, MsbBits, LsbBits, Cache.Valid, Cache.Contents, DataByte;
    assert Pow2(8) == 256;
    forall k: nat | from + cache.fillLevel == 8 * k && c0 == DataByte(input, k)
      ensures Holds(JPEG, input, from, cache.Push(c0, 8))
    {
      DataByteIsWindow(input, k);
      PushHolds(input, from, cache, c0, 8);
    }
  }

  /** Takes the 0xFF of a marker back and pads with zeros, as the stream does. */
  function EndStream(ghost input: seq<byte>, ghost from: nat, ghost before: Cache, ghost k: nat, pushed: Cache)
    : (c: Cache)
    requires Holds(JPEG, input, from, before) && before.fillLevel <= CACHE_SIZE - 8
    requires from + before.fillLevel == 8 * k
    requires Walk(input, k).At? && IsMarker(input, Walk(input, k).pos)
    requires pushed == PushByte(input, from, before, 0xFF)
    ensures Holds(JPEG, input, from, c) && c.fillLevel == CACHE_SIZE
  {
    EndStreamHolds(input, from, before, k, pushed);
    pushed.UnpushAndPad(8)
  }

  lemma EndStreamHolds(input: seq<byte>, from: nat, before: Cache, k: nat, pushed: Cache)
    requires Holds(JPEG, input, from, before) && before.fillLevel <= CACHE_SIZE - 8
    requires from + before.fillLevel == 8 * k
    requires Walk(input, k).At? && IsMarker(input, Walk(input, k).pos)
    requires pushed == PushByte(input, from, before, 0xFF)
    ensures pushed.Valid() && pushed.RightInLeftOut? && 8 <= pushed.fillLevel
    ensures Holds(JPEG, input, from, pushed.UnpushAndPad(8))
    ensures pushed.UnpushAndPad(8).fillLevel == CACHE_SIZE
  {
    hide StreamBit, Bit, MsbBits, LsbBits, Cache.Valid, Cache.Contents, Cache.UnpushAndPad, Cache.Push;
    assert Pow2(8) == 256;
    assert pushed.Contents()[..before.fillLevel] == before.Contents();
    WindowAfterMarker(input, k, from, before.fillLevel);
  }

  /** Up to the marker the data, from there on zeros. */
  lemma WindowAfterMarker(input: seq<byte>, k: nat, from: nat, kept: nat)
    requires from + kept == 8 * k && kept <= CACHE_SIZE
    requires Walk(input, k).At? && IsMarker(input, Walk(input, k).pos)
    ensures Window(JPEG, input, from, kept) + Zeros(CACHE_SIZE - kept) == Window(JPEG, input, from, CACHE_SIZE)
  {
    hide StreamBit, Walk;
    WindowSplit(JPEG, input, from, kept, CACHE_SIZE - kept);
    var w := Window(JPEG, input, 8 * k, CACHE_SIZE - kept);
    forall j: nat | j < CACHE_SIZE - kept
      ensures !w[j]
    {
      ZerosAfterMarker(input, k, 8 * k + j);
    }
    assert w == Zeros(CACHE_SIZE - kept);
  }

  lemma StaysEnded(input: seq<byte>, k: nat, bits: nat)
    requires Walk(input, k).At? && IsMarker(input, Walk(input, k).pos) && 8 * k + 8 <= bits
    ensures Walk(input, bits / 8) == Ended(Walk(input, k).pos)
  {
    WalkForward(input, k + 1, bits / 8 - (k + 1));
  }

  /** Past the marker and past the end of the input, a refill pushes zeros. */
  lemma ZeroChunk(input: seq<byte>, k: nat, p: nat, from: nat)
    requires Walk(input, k).Ended? && |input| <= p && 8 * k <= from
    ensures
      var chunk := BigEndian(Padded(input, p, 4));
      chunk < Pow2(32) && MsbBits(chunk, 32) == Window(JPEG, input, from, 32)
  {
    hide StreamBit, Walk, BigEndian, MsbBits, Pow2;
    var bytes := Padded(input, p, 4);
    EndianBound(bytes);
    forall j: nat | j < 32
      ensures MsbBits(BigEndian(bytes), 32)[j] == StreamBit(JPEG, input, from + j)
    {
      MsbOfBigEndian(bytes, j);
      BitZero(7 - j % 8);
      ZerosAfterMarker(input, k, from + j);
    }
  }

  /** Position `i` is not past the end of the data. */
  ghost predicate InBounds(o: Order, input: seq<byte>, i: nat) {
    if o.JPEG? then Walk(input, i / 8).At? && Walk(input, i / 8).pos <= |input|
    else i <= 8 * |input|
  }

  lemma {:induction false} MarkerAt(input: seq<byte>, k: nat, m: nat)
    requires k <= m && Walk(input, k).At? && Walk(input, m) == Ended(Walk(input, k).pos)
    ensures Walk(input, k + 1) == Ended(Walk(input, k).pos)
  {
    if Walk(input, k + 1).At? {
      var p := Walk(input, k + 1).pos;
      WalkForward(input, k + 1, m - k - 1);
      EndsLater(input, k + 1, m);
    } else {
      WalkForward(input, k + 1, m - k - 1);
    }
  }

  /** A marker met later lies further on. */
  lemma {:induction false} EndsLater(input: seq<byte>, k: nat, m: nat)
    requires k <= m && Walk(input, k).At? && Walk(input, m).Ended?
    ensures Walk(input, k).pos <= Walk(input, m).marker
    decreases m - k
  {
    if k < m && Walk(input, k + 1).At? {
      EndsLater(input, k + 1, m);
    } else if k < m {
      WalkForward(input, k + 1, m - k - 1);
    }
  }

  /** An empty cache holds no bits, of any position. */
  lemma NothingHeld(o: Order, input: seq<byte>, cache: Cache, from: nat, to: nat)
    requires Holds(o, input, from, cache) && cache.fillLevel == 0
    ensures Holds(o, input, to, cache)
  {
    hide StreamBit;
  }

  // ----- how far a scan can be skipped

  /** The last refill that is needed for `n` bits does not start past `limit`. */
  predicate LastRefillIsNear(p: int, fillLevel: nat, n: int, limit: int) {
    n <= fillLevel || p + 4 * ((n - fillLevel - 1) / 32) <= limit
  }

  /** Skipping `nbits` of the `n` bits, with a refill if it takes one. */
  lemma NearStep(p: int, fillLevel: nat, n: nat, nbits: nat, limit: int)
    requires 0 < nbits <= 32 && nbits <= n
    ensures nbits <= fillLevel ==>
              (LastRefillIsNear(p, fillLevel, n, limit) <==> LastRefillIsNear(p, fillLevel - nbits, n - nbits, limit))
    ensures fillLevel < nbits && p > limit ==> !LastRefillIsNear(p, fillLevel, n, limit)
    ensures fillLevel < nbits && p <= limit ==>
              (LastRefillIsNear(p, fillLevel, n, limit)
               <==> LastRefillIsNear(p + 4, fillLevel + 32 - nbits, n - nbits, limit))
  {
    if n - fillLevel > 32 {
      OneRefillLess(n - fillLevel);
    } else if n > fillLevel {
      FewBits(n - fillLevel);
    }
  }

  /** How many of the first `k` data bytes there are before the segment ends. */
  ghost function DataCount(input: seq<byte>, k: nat): nat {
    if k == 0 || Walk(input, k).At? then k else DataCount(input, k - 1)
  }

  /** Whether `n` bits can be skipped by a scan that stands behind `c` data bytes and has not met a marker.
      Either the last refill still starts in the data, or the marker is met by an earlier one. That
      one fills the cache, and counts what it has not read as past the input. */
  ghost predicate CanSkipScan(input: seq<byte>, c: nat, fillLevel: nat, n: int) {
    n <= fillLevel ||
    var last := c + 4 * ((n - fillLevel - 1) / 32);
    if Walk(input, last).At? then Walk(input, last).pos <= |input| + 16
    else
      var before := DataCount(input, last) - c;
      var rest := n - fillLevel - 32 * (before / 4) + fillLevel % 32;
      LastRefillIsNear(4 - before % 4, 64, rest, 16)
  }

  lemma {:induction false} DataCountIs(input: seq<byte>, m: nat, k: nat)
    requires m < k && Walk(input, m).At? && Walk(input, m + 1).Ended?
    ensures Walk(input, k).Ended? && DataCount(input, k) == m
  {
    if m + 1 < k {
      DataCountIs(input, m, k - 1);
      WalkForward(input, k - 1, 1);
    }
  }

  lemma {:induction false} DataCountEnds(input: seq<byte>, c: nat, k: nat)
    requires c <= k && Walk(input, c).At? && Walk(input, k).Ended?
    ensures
      var m := DataCount(input, k);
      c <= m < k && Walk(input, m).At? && Walk(input, m + 1).Ended?
  {
    hide Step;
    if Walk(input, k - 1).Ended? {
      DataCountEnds(input, c, k - 1);
    }
  }

  /** Skipping cached bits changes nothing. */
  lemma SkipCached(input: seq<byte>, c: nat, fillLevel: nat, n: nat, nbits: nat)
    requires nbits <= fillLevel && nbits <= n && (nbits == 32 || nbits == n)
    ensures CanSkipScan(input, c, fillLevel, n) <==> CanSkipScan(input, c, fillLevel - nbits, n - nbits)
  {
    hide Walk, DataCount;
    if nbits == 32 {
      DivisionIsUnique(fillLevel - 32, 32, fillLevel / 32 - 1, fillLevel % 32);
    }
  }

  /** A refill that fails was needed. */
  lemma SkipFails(input: seq<byte>, c: nat, fillLevel: nat, n: nat)
    requires fillLevel < n && Walk(input, c).At? && Walk(input, c).pos > |input| + 16
    ensures !CanSkipScan(input, c, fillLevel, n)
  {
    hide Walk, DataCount;
    var last := c + 4 * ((n - fillLevel - 1) / 32);
    WalkForward(input, c, last - c);
    if Walk(input, last).Ended? {
      EndsLater(input, c, last);
      MarkerIsInside(input, last);
    }
  }

  /** After a refill without a marker there is one less to go. */
  lemma SkipRefilled(input: seq<byte>, c: nat, fillLevel: nat, n: nat, nbits: nat)
    requires fillLevel < nbits <= 32 && nbits <= n && (nbits == 32 || nbits == n)
    requires Walk(input, c).At? && Walk(input, c).pos <= |input| + 16 && Walk(input, c + 4).At?
    ensures CanSkipScan(input, c, fillLevel, n) <==> CanSkipScan(input, c + 4, fillLevel + 32 - nbits, n - nbits)
  {
    hide Walk, DataCount;
    if n - 32 > fillLevel {
      OneRefillLess(n - fillLevel);
      var last := c + 4 * ((n - fillLevel - 1) / 32);
      if Walk(input, last).Ended? {
        DataCountEnds(input, c + 4, last);
        OneGroupLess(DataCount(input, last) - c);
      }
    } else {
      FewBits(n - fillLevel);
    }
  }

  lemma OneRefillLess(bits: nat)
    requires bits > 32
    ensures (bits - 32 - 1) / 32 == (bits - 1) / 32 - 1
  {
    DivisionIsUnique(bits - 33, 32, (bits - 1) / 32 - 1, (bits - 1) % 32);
  }

  lemma FewBits(bits: nat)
    requires 0 < bits <= 32
    ensures (bits - 1) / 32 == 0
  {
    DivisionIsUnique(bits - 1, 32, 0, bits - 1);
  }

  lemma OneGroupLess(before: nat)
    requires before >= 4
    ensures (before - 4) / 4 == before / 4 - 1 && (before - 4) % 4 == before % 4
  {
    DivisionIsUnique(before - 4, 4, before / 4 - 1, before % 4);
  }

  /** The refill that meets the marker fills the cache. */
  lemma SkipEnded(input: seq<byte>, c: nat, m: nat, fillLevel: nat, n: nat, nbits: nat)
    requires fillLevel < nbits <= 32 && nbits <= n && (nbits == 32 || nbits == n)
    requires Walk(input, c).At? && Walk(input, c).pos <= |input| + 16
    requires c <= m < c + 4 && Walk(input, m).At? && Walk(input, m + 1).Ended?
    ensures CanSkipScan(input, c, fillLevel, n)
            <==> LastRefillIsNear(|input| + 4 - (m - c), 64 - nbits, n - nbits, |input| + 16)
  {
    hide Walk, DataCount;
    if n - 32 > fillLevel {
      OneRefillLess(n - fillLevel);
      DataCountIs(input, m, c + 4 * ((n - fillLevel - 1) / 32));
      DivisionIsUnique(m - c, 4, 0, m - c);
      DivisionIsUnique(fillLevel, 32, 0, fillLevel);
    } else {
      FewBits(n - fillLevel);
    }
  }

  /** Skipping `nbits` of the `n` bits: they are cached, or there is a refill, which fails, finds data or meets
      the marker. */
  lemma StepOfScan(input: seq<byte>, c: nat, fillLevel: nat, n: nat, nbits: nat, ok: bool, ended: bool, m: nat)
    requires 0 < nbits <= 32 && nbits <= n && (nbits == 32 || nbits == n) && Walk(input, c).At?
    requires nbits <= fillLevel ==> ok && !ended
    requires fillLevel < nbits ==> (ok <==> Walk(input, c).pos <= |input| + 16)
    requires fillLevel < nbits && ok && !ended ==> Walk(input, c + 4).At?
    requires fillLevel < nbits && ok && ended ==>
               c <= m < c + 4 && Walk(input, m).At? && Walk(input, m + 1).Ended?
    ensures !ok ==> !CanSkipScan(input, c, fillLevel, n)
    ensures nbits <= fillLevel ==>
              (CanSkipScan(input, c, fillLevel, n) <==> CanSkipScan(input, c, fillLevel - nbits, n - nbits))
    ensures fillLevel < nbits && ok && !ended ==>
              (CanSkipScan(input, c, fillLevel, n) <==> CanSkipScan(input, c + 4, fillLevel + 32 - nbits, n - nbits))
    ensures fillLevel < nbits && ok && ended ==>
              (CanSkipScan(input, c, fillLevel, n)
               <==> LastRefillIsNear(|input| + 4 - (m - c), 64 - nbits, n - nbits, |input| + 16))
  {
    hide Walk, CanSkipScan, LastRefillIsNear;
    if nbits <= fillLevel {
      SkipCached(input, c, fillLevel, n, nbits);
    } else if !ok {
      SkipFails(input, c, fillLevel, n);
    } else if !ended {
      SkipRefilled(input, c, fillLevel, n, nbits);
    } else {
      SkipEnded(input, c, m, fillLevel, n, nbits);
    }
  }

  lemma RestartPosition(cursor: nat, step: nat, bytePos: nat, skip: nat)
    requires step == 1 || step == 2 || step == 4
    requires 8 * bytePos + skip == cursor && bytePos % step == 0 && skip < 8 * step
    ensures bytePos == cursor / (8 * step) * step
  {
  }

  class BitStreamer {
    const order: Order
    const input: seq<byte>
    var cache: Cache
    var pos: nat
    var endOfStreamPos: int

    /** How many bits of the stream have been put into the cache so far. */
    ghost var loaded: nat

    /** How many data bytes precede the marker, once one has been met. */
    ghost var dataBytes: nat

    ghost predicate Valid()
      reads this
    {
      && order.MaxProcessBytes() <= |input|
      && cache.fillLevel <= loaded
      && Holds(order, input, loaded - cache.fillLevel, cache)
      && InStep(pos)
    }

    /** The byte position `p` of the replenisher agrees with the bits in the cache. */
    ghost predicate InStep(p: nat)
      reads this
    {
      if order.FixedSizeChunks() then
        && endOfStreamPos == UNKNOWN_POS
        && loaded == 8 * p
        && p % order.MinLoadStep() == 0
      else if endOfStreamPos == UNKNOWN_POS then
        && loaded % 8 == 0
        && Walk(input, loaded / 8) == At(p)
      else
        && endOfStreamPos >= 0
        && Walk(input, loaded / 8) == Ended(endOfStreamPos)
        && Walk(input, dataBytes) == At(endOfStreamPos)
        && 8 * dataBytes <= loaded
        && |input| < p
        && 8 * p <= 8 * |input| + 32 + (loaded - 8 * dataBytes)
    }

    /** The number of bits consumed so far. */
    ghost function Cursor(): nat
      reads this
      requires Valid()
    {
      loaded - cache.fillLevel
    }

    /** The next `n` bits of the stream. */
    ghost function Upcoming(n: nat): (w: seq<bool>)
      reads this
      requires Valid()
      ensures |w| == n
    {
      Window(order, input, Cursor(), n)
    }

    /** The last position that may be refilled from. */
    ghost function Limit(): nat {
      |input| + if order.JPEG? then 16 else 8
    }

    /** Whether `Fill(n)` succeeds: reading far past the end of the input is an error. */
    ghost predicate CanFill(n: nat)
      reads this
    {
      cache.fillLevel >= n || pos <= Limit()
    }

    constructor (order: Order, input: seq<byte>)
      requires order.MaxProcessBytes() <= |input|
      ensures this.order == order && this.input == input
      ensures Valid() && Cursor() == 0 && cache.fillLevel == 0 && pos == 0
      ensures endOfStreamPos == UNKNOWN_POS
    {
      this.order := order;
      this.input := input;
      cache := order.EmptyCache();
      pos := 0;
      endOfStreamPos := UNKNOWN_POS;
      loaded := 0;
      dataBytes := 0;
    }

    /** The constructor of the source: too small an input is refused. */
    static method Open(order: Order, input: seq<byte>) returns (bs: BitStreamer?)
      ensures bs == null <==> |input| < if order.JPEG? then 8 else 4
      ensures bs != null ==> fresh(bs) && bs.order == order && bs.input == input
      ensures bs != null ==> bs.Valid() && bs.Cursor() == 0 && bs.pos == 0
    {
      if |input| < order.MaxProcessBytes() {
        return null;
      }
      bs := new BitStreamer(order, input);
    }

    /** The next bytes to be processed; `ok` is false for an over-read. */
    method GetInput() returns (ok: bool, bytes: seq<byte>)
      requires Valid()
      ensures ok <==> pos <= |input| + if order.JPEG? then 16 else 8
      ensures ok ==> bytes == Padded(input, pos, if order.JPEG? then 8 else 4)
    {
      var n := order.MaxProcessBytes();
      if pos + n <= |input| {
        return true, input[pos..pos + n];
      }
      if pos > |input| + 2 * n {
        return false, [];
      }
      var tmp := new byte[n];
      LoadByMemcpy(tmp, input, pos);
      return true, tmp[..];
    }

    /** What a refill of a JPEG stream comes to: four data bytes, or what precedes the marker and a
        cache full of zeros. Past the marker four zero bytes. */
    twostate predicate RefilledTo(numBytes: int)
      requires old(Valid()) && order.JPEG?
      reads this
    {
      if old(endOfStreamPos) != UNKNOWN_POS then
        numBytes == 4 && cache.fillLevel == old(cache.fillLevel) + 32 && endOfStreamPos == old(endOfStreamPos)
      else if Walk(input, old(loaded) / 8 + 4).At? then
        cache.fillLevel == old(cache.fillLevel) + 32 && loaded == old(loaded) + 32 && endOfStreamPos == UNKNOWN_POS
      else
        && cache.fillLevel == 64 && endOfStreamPos != -1
        && old(loaded) / 8 <= dataBytes < old(loaded) / 8 + 4
        && numBytes == |input| - old(pos) + 4 - (dataBytes - old(loaded) / 8)
    }

    /** Makes sure that at least `nbits` bits are cached. */
    method Fill(nbits: nat) returns (ok: bool)
      requires Valid() && 0 < nbits <= MAX_GET_BITS
      modifies this
      ensures Valid() && Cursor() == old(Cursor())
      ensures ok <==> old(CanFill(nbits))
      ensures ok ==> nbits <= cache.fillLevel
      ensures !ok || old(cache.fillLevel) >= nbits ==> unchanged(this)
      ensures order.FixedSizeChunks() && ok && old(cache.fillLevel) < nbits ==>
                pos == old(pos) + 4 && cache.fillLevel == old(cache.fillLevel) + 32
      ensures order.JPEG? && ok && old(cache.fillLevel) < nbits ==> RefilledTo(pos - old(pos))
      ensures old(endOfStreamPos) != UNKNOWN_POS ==> endOfStreamPos == old(endOfStreamPos)
    {
      hide StreamBit, Holds, Walk;
      if cache.fillLevel >= nbits {
        return true;
      }
      var bytes;
      ok, bytes := GetInput();
      if !ok {
        return;
      }
      var numBytes;
      if order.JPEG? {
        numBytes := FillCacheJPEG(bytes);
      } else {
        numBytes := FillCache(bytes);
      }
      MarkNumBytesAsConsumed(numBytes);
    }

    method PeekBitsNoFill(nbits: nat) returns (v: nat)
      requires Valid() && 0 < nbits <= MAX_GET_BITS && nbits <= cache.fillLevel
      ensures v < Pow2(nbits) && order.Row(v, nbits) == Upcoming(nbits)
    {
      hide StreamBit;
      WindowDrop(order, input, Cursor(), nbits, cache.fillLevel);
      v := cache.Peek(nbits);
    }

    method SkipBitsNoFill(nbits: nat)
      requires Valid() && nbits <= MAX_GET_BITS && nbits <= cache.fillLevel
      modifies this`cache
      ensures Valid() && Cursor() == old(Cursor()) + nbits
      ensures cache.fillLevel == old(cache.fillLevel) - nbits
    {
      hide StreamBit, Walk, Window, Cache.Valid, Cache.Contents, Order.FixedSizeChunks;
      WindowDrop(order, input, Cursor(), nbits, cache.fillLevel);
      cache := cache.Skip(nbits);
    }

    method GetBitsNoFill(nbits: nat) returns (v: nat)
      requires Valid() && 0 < nbits <= MAX_GET_BITS && nbits <= cache.fillLevel
      modifies this`cache
      ensures Valid() && Cursor() == old(Cursor()) + nbits
      ensures cache.fillLevel == old(cache.fillLevel) - nbits
      ensures v < Pow2(nbits) && order.Row(v, nbits) == old(Upcoming(nbits))
    {
      v := PeekBitsNoFill(nbits);
      SkipBitsNoFill(nbits);
    }

    method PeekBits(nbits: nat) returns (ok: bool, v: nat)
      requires Valid() && 0 < nbits <= MAX_GET_BITS
      modifies this
      ensures Valid() && Cursor() == old(Cursor())
      ensures ok <==> old(CanFill(nbits))
      ensures ok ==> v < Pow2(nbits) && order.Row(v, nbits) == Upcoming(nbits)
      ensures !ok ==> unchanged(this)
    {
      v := 0;
      ok := Fill(nbits);
      if ok {
        v := PeekBitsNoFill(nbits);
      }
    }

    method SkipBits(nbits: nat) returns (ok: bool)
      requires Valid() && 0 < nbits <= MAX_GET_BITS
      modifies this
      ensures Valid() && Cursor() == old(Cursor()) + (if ok then nbits else 0)
      ensures ok <==> old(CanFill(nbits))
      ensures !ok ==> unchanged(this)
    {
      ok := Fill(nbits);
      if ok {
        SkipBitsNoFill(nbits);
      }
    }

    method GetBits(nbits: nat) returns (ok: bool, v: nat)
      requires Valid() && 0 < nbits <= MAX_GET_BITS
      modifies this
      ensures Valid() && Cursor() == old(Cursor()) + (if ok then nbits else 0)
      ensures ok <==> old(CanFill(nbits))
      ensures ok ==> v < Pow2(nbits) && order.Row(v, nbits) == old(Upcoming(nbits))
      ensures !ok ==> unchanged(this)
    {
      v := 0;
      ok := Fill(nbits);
      if ok {
        v := GetBitsNoFill(nbits);
      }
    }

    /** Whether `SkipManyBits(n)` succeeds: its last refill must not start too far past the input. A JPEG
        segment that has ended goes on like the other orders, in zeros. */
    ghost predicate CanSkipMany(n: int)
      reads this
    {
      if order.FixedSizeChunks() || endOfStreamPos != UNKNOWN_POS then
        LastRefillIsNear(pos, cache.fillLevel, n, Limit())
      else
        CanSkipScan(input, loaded / 8, cache.fillLevel, n)
    }

    /** One step of `SkipManyBits`, on the way to skipping `ahead` bits. */
    method FillAndSkip(nbits: nat, ghost ahead: nat) returns (ok: bool)
      requires Valid() && 0 < nbits <= MAX_GET_BITS && nbits <= ahead
      modifies this
      ensures Valid()
      ensures ok ==> Cursor() == old(Cursor()) + nbits
      ensures InBounds(order, input, old(Cursor()) + ahead) ==> ok
      ensures order.FixedSizeChunks() || nbits == MAX_GET_BITS || nbits == ahead ==>
                if ok then CanSkipMany(ahead - nbits) <==> old(CanSkipMany(ahead)) else !old(CanSkipMany(ahead))
    {
      hide StreamBit, Holds, Walk, Window, InBounds, CanSkipScan, LastRefillIsNear;
      NoOverRead(ahead, nbits);
      ghost var isScan := order.JPEG? && endOfStreamPos == UNKNOWN_POS;
      ghost var c, fillLevel, p := loaded / 8, cache.fillLevel, pos;
      ok := Fill(nbits);
      if ok {
        SkipBitsNoFill(nbits);
      }
      if isScan && (nbits == MAX_GET_BITS || nbits == ahead) {
        if endOfStreamPos != UNKNOWN_POS {
          MarkerAt(input, dataBytes, loaded / 8);
        }
        StepOfScan(input, c, fillLevel, ahead, nbits, ok, endOfStreamPos != UNKNOWN_POS, dataBytes);
      } else if !isScan {
        NearStep(p, fillLevel, ahead, nbits, Limit());
      }
    }

    /** Skips any number of bits, also more than are cached; a negative number skips nothing.
        It fails only by leaving the input. */
    method SkipManyBits(nbits: int) returns (ok: bool)
      requires Valid()
      modifies this
      ensures Valid()
      ensures ok ==> Cursor() == old(Cursor()) + (if nbits < 0 then 0 else nbits)
      ensures nbits < 0 || InBounds(order, input, old(Cursor()) + nbits) ==> ok
      ensures ok <==> old(CanSkipMany(nbits))
    {
      hide Valid, InBounds, CanSkipScan;
      var remainingBitsToSkip := nbits;
      while remainingBitsToSkip >= MAX_GET_BITS
        invariant Valid()
        invariant remainingBitsToSkip <= nbits
        invariant if nbits < 0 then remainingBitsToSkip == nbits else 0 <= remainingBitsToSkip
        invariant Cursor() == old(Cursor()) + (nbits - remainingBitsToSkip)
        invariant CanSkipMany(remainingBitsToSkip) <==> old(CanSkipMany(nbits))
      {
        ok := FillAndSkip(MAX_GET_BITS, remainingBitsToSkip);
        if !ok {
          return;
        }
        remainingBitsToSkip := remainingBitsToSkip - MAX_GET_BITS;
      }
      ok := true;
      if remainingBitsToSkip > 0 {
        ok := FillAndSkip(remainingBitsToSkip, remainingBitsToSkip);
        NothingToSkip(0);
      } else {
        NothingToSkip(remainingBitsToSkip);
      }
    }

    lemma NothingToSkip(n: int)
      requires n <= 0
      ensures CanSkipMany(n)
    {
    }

    /** `skipBytes`; `None` where the number of bits overflows. */
    method SkipBytes(nbytes: int) returns (r: Option<bool>)
      requires Valid() && IsInt32(nbytes)
      modifies this
      ensures Valid()
      ensures r.None? <==> 8 * nbytes < -0x8000_0000 || 0x7FFF_FFFF < 8 * nbytes
      ensures r.None? ==> unchanged(this)
      ensures r == Some(true) ==> Cursor() == old(Cursor()) + (if nbytes < 0 then 0 else 8 * nbytes)
      ensures r.Some? && (nbytes < 0 || InBounds(order, input, old(Cursor()) + 8 * nbytes)) ==> r.value
      ensures r.Some? ==> (r.value <==> old(CanSkipMany(8 * nbytes)))
    {
      hide CanSkipMany, Valid, InBounds;
      if !IsInt32(8 * nbytes) {
        return None;
      }
      var ok := SkipManyBits(8 * nbytes);
      return Some(ok);
    }

    /** Reading never fails while the bits asked for start inside the data. */
    lemma NoOverRead(ahead: nat, nbits: nat)
      requires Valid() && nbits <= MAX_GET_BITS
      ensures InBounds(order, input, Cursor() + ahead) ==> CanFill(nbits)
    {
      hide StreamBit, Holds, Walk;
      if InBounds(order, input, Cursor() + ahead) && cache.fillLevel < nbits && order.JPEG? {
        var c := (Cursor() + ahead) / 8;
        WalkForward(input, Cursor() / 8, c - Cursor() / 8);
        var p := Walk(input, Cursor() / 8).pos;
        if endOfStreamPos == UNKNOWN_POS {
          WalkForward(input, Cursor() / 8, loaded / 8 - Cursor() / 8);
        } else if dataBytes < Cursor() / 8 {
          DataEnds();
        }
      }
    }

    /** While the replenisher is inside the input, so is the next bit. */
    lemma StillInside()
      requires Valid() && pos <= |input|
      ensures InBounds(order, input, Cursor()) && Cursor() <= 8 * |input|
    {
      hide StreamBit, Holds, Walk;
      if order.JPEG? {
        WalkForward(input, 0, loaded / 8);
        WalkForward(input, Cursor() / 8, loaded / 8 - Cursor() / 8);
        StartOfWalk(input);
      }
    }

    /** Once it has left the input, at most the bits of the cache are ahead. */
    lemma PastTheInput()
      requires Valid() && pos > |input|
      ensures !InBounds(order, input, Cursor() + 64)
    {
      hide StreamBit, Walk, Window;
      if order.JPEG? {
        WalkForward(input, loaded / 8, (Cursor() + CACHE_SIZE) / 8 - loaded / 8);
      }
    }

    lemma StartOfWalk(input: seq<byte>)
      ensures Walk(input, 0) == At(0)
    {
    }

    /** The byte after the last data byte of a segment is the marker. */
    lemma DataEnds()
      requires Valid() && order.JPEG? && endOfStreamPos != UNKNOWN_POS
      ensures forall k: nat :: dataBytes < k ==> Walk(input, k) == Ended(endOfStreamPos)
    {
      MarkerAt(input, dataBytes, loaded / 8);
      forall k: nat | dataBytes < k
        ensures Walk(input, k) == Ended(endOfStreamPos)
      {
        WalkForward(input, dataBytes + 1, k - dataBytes - 1);
      }
    }

    function GetInputPosition(): (p: nat)
      reads this
      ensures p == pos
    {
      pos
    }

    /** The number of bytes consumed, a byte counting as soon as one of its bits has been.
        In a JPEG segment that has ended, the position of the 0xFF of the marker. */
    method GetStreamPosition() returns (p: int)
      requires Valid()
      ensures order.FixedSizeChunks() ==> p == (Cursor() + 7) / 8
      ensures order.JPEG? && endOfStreamPos == UNKNOWN_POS ==> p == pos && Walk(input, loaded / 8) == At(p)
      ensures order.JPEG? && endOfStreamPos != UNKNOWN_POS ==>
                0 <= p && IsMarker(input, p) && Walk(input, dataBytes) == At(p)
    {
      if order.JPEG? {
        if endOfStreamPos >= 0 {
          MarkerIsInside(input, loaded / 8);
          p := endOfStreamPos;
        } else {
          p := pos;
        }
      } else {
        p := pos - cache.fillLevel / 8;
      }
    }

    /** A streamer for the same input that stands at byte `bytePos`. */
    method OpenAt(bytePos: nat) returns (replacement: BitStreamer)
      requires Valid() && order.FixedSizeChunks() && bytePos % order.MinLoadStep() == 0
      ensures fresh(replacement) && replacement.order == order && replacement.input == input
      ensures replacement.Valid() && replacement.Cursor() == 8 * bytePos
      ensures replacement.cache.fillLevel == 0 && replacement.pos == bytePos
    {
      hide StreamBit, Holds;
      replacement := new BitStreamer(order, input);
      if bytePos != 0 {
        NothingHeld(order, input, replacement.cache, 0, 8 * bytePos);
        replacement.loaded := 8 * bytePos;
        replacement.MarkNumBytesAsConsumed(bytePos);
      }
    }

    /** Throws the cache away and reads again from the input. Nothing is lost: the streamer
        stands at the same bit. It fails exactly when the restart would over-read. */
    method Reload() returns (ok: bool)
      requires Valid() && order.FixedSizeChunks()
      modifies this
      ensures Valid() && Cursor() == old(Cursor())
      ensures var c := old(Cursor());
              ok <==> (if order.MSB32? then c / 32 * 4 else if order.MSB16? then c / 16 * 2 else c / 8) <= |input| + 8
      ensures ok ==> 32 - (if order.MSB32? then 32 else if order.MSB16? then 16 else 8) < cache.fillLevel <= 32
      ensures !ok ==> unchanged(this)
    {
      hide StreamBit, Holds;
      var bsPos := GetAsByteStreamPosition(order, pos, cache.fillLevel);
      RestartPosition(Cursor(), order.MinLoadStep(), bsPos.bytePos, bsPos.numBitsToSkip);
      var replacement := OpenAt(bsPos.bytePos);
      ok := replacement.Fill(MAX_GET_BITS);
      if !ok {
        return;
      }
      replacement.SkipBitsNoFill(bsPos.numBitsToSkip);
      cache, pos, endOfStreamPos := replacement.cache, replacement.pos, replacement.endOfStreamPos;
      loaded, dataBytes := replacement.loaded, replacement.dataBytes;
    }

    /** Moves the position of the replenisher. The bits up to there are in the cache by then, or have
        been skipped: afterwards the position agrees with the bits again. */
    method MarkNumBytesAsConsumed(numBytes: nat)
      requires numBytes != 0 && numBytes % order.MinLoadStep() == 0
      requires order.MaxProcessBytes() <= |input| && cache.fillLevel <= loaded
      requires Holds(order, input, loaded - cache.fillLevel, cache) && InStep(pos + numBytes)
      modifies this`pos
      ensures Valid() && Cursor() == loaded - cache.fillLevel && pos == old(pos) + numBytes
    {
      hide StreamBit, Holds;
      pos := pos + numBytes;
    }

    /** Pushes the chunks of one load into the cache. */
    method FillCache(bytes: seq<byte>) returns (numBytes: nat)
      requires Valid() && order.FixedSizeChunks() && cache.fillLevel < MAX_GET_BITS
      requires bytes == Padded(input, pos, order.MaxProcessBytes())
      modifies this`cache, this`loaded
      ensures loaded == old(loaded) + 32 && cache.fillLevel == old(cache.fillLevel) + 32 && numBytes == 4
      ensures Holds(order, input, old(Cursor()), cache)
      ensures InStep(pos + numBytes)
    {
      hide StreamBit, Holds, PushChunk, Walk, Padded;
      var chunkBytes := order.ChunkBytes();
      var numChunks := order.MaxProcessBytes() / chunkBytes;
      ghost var from := Cursor();
      var i, done := 0, 0;
      while i != numChunks
        invariant 0 <= i <= numChunks
        invariant if order.MSB16? then numChunks == 2 && done == 2 * i else numChunks == 1 && done == 4 * i
        invariant loaded == 8 * (pos + done) && (pos + done) % order.MinLoadStep() == 0
        invariant cache.fillLevel == old(cache.fillLevel) + 8 * done
        invariant Holds(order, input, from, cache)
      {
        var block := bytes[done..done + chunkBytes];
        PartOfPadded(input, pos, order.MaxProcessBytes(), done, chunkBytes);
        OneChunkOn(order, pos + done);
        cache := PushChunk(order, input, from, cache, pos + done, block);
        loaded := loaded + 8 * chunkBytes;
        i, done := i + 1, done + chunkBytes;
      }
      return order.MaxProcessBytes();
    }

    /** Pushes four data bytes, dropping stuffed zeros; at a marker the stream turns into zeros. */
    method FillCacheJPEG(bytes: seq<byte>) returns (numBytes: nat)
      requires Valid() && order.JPEG? && cache.fillLevel < MAX_GET_BITS
      requires bytes == Padded(input, pos, 8)
      modifies this`cache, this`endOfStreamPos, this`loaded, this`dataBytes
      ensures loaded - cache.fillLevel == old(Cursor()) && MAX_GET_BITS <= cache.fillLevel
      ensures Holds(order, input, old(Cursor()), cache)
      ensures InStep(pos + numBytes) && numBytes >= 4 && RefilledTo(numBytes)
      ensures old(endOfStreamPos) != UNKNOWN_POS ==> endOfStreamPos == old(endOfStreamPos)
    {
      hide StreamBit, Walk, DataByte, Holds, PushFour;
      PlainRefill(bytes);
      var speculativeCache := PushFour(input, Cursor(), cache, bytes[..4]);
      if 0xFF !in bytes[..4] {
        cache := speculativeCache;
        loaded := loaded + 32;
        assert loaded / 8 == old(loaded) / 8 + 4;
        return 4;
      }
      numBytes := FillCacheBytewise(bytes);
    }

    /** The slow path of `FillCacheJPEG`, which is taken when there is a 0xFF ahead. */
    method FillCacheBytewise(bytes: seq<byte>) returns (numBytes: nat)
      requires Valid() && order.JPEG? && cache.fillLevel < MAX_GET_BITS
      requires bytes == Padded(input, pos, 8) && 0xFF in bytes[..4]
      requires endOfStreamPos == UNKNOWN_POS
      modifies this`cache, this`endOfStreamPos, this`loaded, this`dataBytes
      ensures loaded - cache.fillLevel == old(Cursor()) && MAX_GET_BITS <= cache.fillLevel
      ensures Holds(order, input, old(Cursor()), cache)
      ensures InStep(pos + numBytes) && RefilledTo(numBytes)
      ensures numBytes >= if endOfStreamPos == UNKNOWN_POS then 5 else 6
    {
      hide StreamBit, Walk, DataByte, Holds, PushByte, EndStream, Padded, Order.MinLoadStep;
      ghost var from := Cursor();
      ghost var k := loaded / 8;
      var p := 0;
      var i := 0;
      while i < 4
        invariant 0 <= i <= 4 && i <= p <= 2 * i
        invariant i == p ==> 0xFF !in bytes[..i]
        invariant cache.fillLevel == old(cache.fillLevel) + 8 * i && loaded == old(loaded) + 8 * i
        invariant Holds(order, input, from, cache)
        invariant loaded == 8 * k && Walk(input, k) == At(pos + p)
        invariant endOfStreamPos == UNKNOWN_POS
      {
        var numBytesNeeded := 4 - i;
        var c0 := bytes[p];
        ghost var before := cache;
        StepCases(input, k, pos + p);
        cache := PushByte(input, from, cache, c0);
        if c0 != 0xFF {
          loaded, k := loaded + 8, k + 1;
          p := p + 1;
          i := i + 1;
          continue;
        }
        var c1 := bytes[p + 1];
        if c1 == 0x00 {
          loaded, k := loaded + 8, k + 1;
          p := p + 2;
          i := i + 1;
          continue;
        }
        endOfStreamPos := pos + p;
        dataBytes := k;
        cache := EndStream(input, from, before, k, cache);
        loaded := from + CACHE_SIZE;
        StaysEnded(input, k, loaded);
        WalkForward(input, k + 1, old(loaded) / 8 + 3 - k);
        p := (|input| - pos) + numBytesNeeded;
        assert p >= 6;
        return p;
      }
      assert p >= 5;
      return p;
    }

    /** The speculative refill, before or after the end of the segment. */
    lemma PlainRefill(bytes: seq<byte>)
      requires Valid() && order.JPEG? && cache.fillLevel < MAX_GET_BITS
      requires bytes == Padded(input, pos, 8)
      ensures 0xFF in bytes[..4] ==> endOfStreamPos == UNKNOWN_POS
      ensures 0xFF !in bytes[..4] ==>
                && MsbBits(BigEndian(bytes[..4]), 32) == Window(order, input, loaded, 32)
                && if endOfStreamPos == UNKNOWN_POS
                   then Walk(input, loaded / 8 + 4) == At(pos + 4)
                   else Walk(input, loaded / 8 + 4) == Ended(endOfStreamPos)
    {
      hide StreamBit, Walk, BigEndian, MsbBits, Holds;
      assert bytes[..4] == Padded(input, pos, 4);
      if 0xFF !in bytes[..4] {
        if endOfStreamPos == UNKNOWN_POS {
          PlainChunkIsWindow(input, loaded / 8, pos);
        } else {
          WalkForward(input, loaded / 8, 4);
          ZeroChunk(input, loaded / 8, pos, loaded);
        }
      }
    }
  }
}
