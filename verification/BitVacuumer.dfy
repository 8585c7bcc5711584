/** Writing a bit stream: the counterpart of `BitStreamer`.

    As there, one class is parametrised by the bit order. The output is specified by what a
    reader sees in it: its bytes spell, in the order's own reading, the bits that were put.
 */
module BitVacuumer {
  import opened Bits
  import opened BitCache
  import opened BitOrder
  import opened OutputIterators
  import opened ByteStuffing

  const CHUNK_BITS: nat := 32

  /** How the bytes of an order are laid out before stuffing. */
  function Layout(o: Order): (l: Order)
    ensures l.FixedSizeChunks()
  {
    if o.JPEG? then MSB else o
  }

  /** The bytes of `data` hold exactly `bits`. */
  ghost predicate Spells(o: Order, data: seq<byte>, bits: seq<bool>) {
    8 * |data| == |bits| && Window(Layout(o), data, 0, |bits|) == bits
  }

  /** What is on the wire for `data`. */
  function Wire(o: Order, data: seq<byte>): seq<byte> {
    if o.JPEG? then Stuff(data) else data
  }

  // ----- one chunk

  /** Bytes that follow do not change the bits of whole units before them. */
  lemma StreamBitOfPrefix(o: Order, data: seq<byte>, more: seq<byte>, i: nat)
    requires o.FixedSizeChunks() && |data| % o.MinLoadStep() == 0 && i < 8 * |data|
    ensures StreamBit(o, data + more, i) == StreamBit(o, data, i)
  {
    match o
    case LSB =>
    case MSB =>
    case MSB16 => UnitInside(|data| / 2, 2, i);
    case MSB32 => UnitInside(|data| / 4, 4, i);
  }

  lemma UnitInside(units: nat, u: nat, i: nat)
    requires (u == 2 || u == 4) && i < 8 * (u * units)
    ensures i / (8 * u) < units && i % (8 * u) / 8 < u
    ensures u * (i / (8 * u)) + u <= u * units
  {
    assert 8 * (u * units) == (8 * u) * units;
    assert u * (i / (8 * u) + 1) <= u * units;
  }

  /** Storing a chunk and loading it again gives the chunk. */
  lemma LoadOfStore(o: Order, chunk: nat)
    requires chunk < Pow2(8 * o.ChunkBytes())
    ensures o.LoadChunk(o.StoreChunk(chunk)) == chunk
  {
    LittleEndianRoundTrip(chunk, o.ChunkBytes());
    BigEndianRoundTrip(chunk, o.ChunkBytes());
  }

  /** `n` bits are a whole number of chunks. */
  predicate Aligned(o: Order, n: nat) {
    if o.MSB16? then n % 16 == 0 else n % 32 == 0
  }

  lemma AlignedFacts(o: Order, n: nat)
    ensures Aligned(o, n) ==> Aligned(o, n + 8 * o.ChunkBytes())
    ensures n % CHUNK_BITS == 0 ==> Aligned(o, n) && (n + CHUNK_BITS) % CHUNK_BITS == 0
  {
    WholeWords(n);
    WholeHalves(n);
  }

  lemma WholeWords(n: nat)
    ensures n % 32 == 0 ==> n % 16 == 0 && (n + 32) % 32 == 0
  {
    if n % 32 == 0 {
      var q := n / 32;
      DivisionIsUnique(n, 16, 2 * q, 0);
      DivisionIsUnique(n + 32, 32, q + 1, 0);
    }
  }

  lemma WholeHalves(n: nat)
    ensures n % 16 == 0 ==> (n + 16) % 16 == 0
  {
    if n % 16 == 0 {
      DivisionIsUnique(n + 16, 16, n / 16 + 1, 0);
    }
  }

  lemma AlignedBytes(o: Order, k: nat)
    requires Aligned(o, 8 * k)
    ensures k % o.ChunkBytes() == 0 && k % Layout(o).MinLoadStep() == 0
  {
    if o.MSB16? {
      DivisionIsUnique(k, 2, 8 * k / 16, 0);
    } else {
      DivisionIsUnique(k, 4, 8 * k / 32, 0);
    }
  }

  /** A stored chunk continues the spelling by its own bits. */
  lemma SpellChunk(o: Order, data: seq<byte>, bits: seq<bool>, chunk: nat)
    requires Spells(o, data, bits) && Aligned(o, |bits|)
    requires chunk < Pow2(8 * o.ChunkBytes())
    ensures Spells(o, data + o.StoreChunk(chunk), bits + o.Row(chunk, 8 * o.ChunkBytes()))
  {
    hide StreamBit, Bit, MsbBits, LsbBits, Order.StoreChunk, Order.LoadChunk, Aligned, Order.Row, Window;
    AlignedBytes(o, |data|);
    var l, n := Layout(o), o.ChunkBytes();
    var block := o.StoreChunk(chunk);
    ChunkAfter(o, data, block);
    LoadOfStore(o, chunk);
    HeadOfSpelling(l, data, block, bits);
    WindowSplit(l, data + block, 0, |bits|, 8 * n);
    SameRow(o, chunk, 8 * n);
  }

  lemma SameRow(o: Order, v: nat, n: nat)
    ensures Layout(o).Row(v, n) == o.Row(v, n)
  {
  }

  lemma HeadOfSpelling(l: Order, data: seq<byte>, more: seq<byte>, bits: seq<bool>)
    requires l.FixedSizeChunks() && |data| % l.MinLoadStep() == 0
    requires 8 * |data| == |bits| && Window(l, data, 0, |bits|) == bits
    ensures Window(l, data + more, 0, |bits|) == bits
  {
    hide StreamBit;
    forall i: nat | i < |bits|
      ensures Window(l, data + more, 0, |bits|)[i] == bits[i]
    {
      StreamBitOfPrefix(l, data, more, i);
      assert Window(l, data, 0, |bits|)[i] == StreamBit(l, data, i);
    }
  }

  lemma ChunkAfter(o: Order, data: seq<byte>, block: seq<byte>)
    requires |data| % o.ChunkBytes() == 0 && |block| == o.ChunkBytes()
    ensures Layout(o).Row(o.LoadChunk(block), 8 * |block|)
            == Window(Layout(o), data + block, 8 * |data|, 8 * |block|)
  {
    hide StreamBit, Bit, MsbBits, LsbBits;
    assert Padded(data + block, |data|, |block|) == block;
    ChunkIsWindow(Layout(o), data + block, |data|);
  }

  lemma OneChunkLess(fillLevel: nat)
    requires fillLevel < CACHE_SIZE
    ensures fillLevel % CHUNK_BITS == if fillLevel < CHUNK_BITS then fillLevel else fillLevel - CHUNK_BITS
  {
    if fillLevel >= CHUNK_BITS {
      DivisionIsUnique(fillLevel, CHUNK_BITS, 1, fillLevel - CHUNK_BITS);
    }
  }

  class BitVacuumer {
    const order: Order
    var cache: Cache
    var output: seq<byte>
    var flushed: bool

    /** The bits that have left the cache, and the output before stuffing. */
    ghost var drained: seq<bool>
    ghost var data: seq<byte>

    ghost predicate Valid()
      reads this
    {
      && cache.Valid()
      && cache.LeftInRightOut? == order.LSB?
      && cache.fillLevel < CACHE_SIZE
      && |drained| % CHUNK_BITS == 0
      && Spells(order, data, drained)
      && output == Wire(order, data)
      && (flushed ==> cache.fillLevel == 0)
    }

    /** All the bits put so far. */
    ghost function Written(): seq<bool>
      reads this
      requires Valid()
    {
      drained + cache.Contents()
    }

    constructor (order: Order)
      ensures this.order == order
      ensures Valid() && !flushed && Written() == [] && output == []
    {
      this.order := order;
      cache := order.EmptyCache();
      output := [];
      flushed := false;
      drained := [];
      data := [];
    }

    /** Assignment through `PartitioningOutputIterator`: an integer is taken apart into bytes,
        low part first. */
    method WriteParts(coalesced: nat, numParts: nat)
      modifies this`output
      ensures output == old(output) + ToLittleEndian(coalesced, numParts)
    {
      var parts := Partition(coalesced, 1, numParts);
      ByteParts(coalesced, numParts);
      output := output + parts;
    }

    method WriteChunk(chunk: nat)
      modifies this`output
      ensures output == old(output) + order.StoreChunk(chunk)
    {
      ByteSwapIsBigEndian(chunk, order.ChunkBytes());
      var swapped := if order.ChunkIsBigEndian() then ByteSwap(chunk, order.ChunkBytes()) else chunk;
      WriteParts(swapped, order.ChunkBytes());
    }

    /** Between two chunks: like `Valid`, but perhaps in the middle of 32 bits. */
    ghost predicate AtChunk()
      reads this
    {
      && cache.Valid() && cache.LeftInRightOut? == order.LSB?
      && order.FixedSizeChunks()
      && Aligned(order, |drained|)
      && Spells(order, data, drained) && output == data
    }

    /** Moves one chunk from the cache to the output. */
    method DrainChunk()
      requires AtChunk() && 8 * order.ChunkBytes() <= cache.fillLevel
      modifies this`cache, this`output, this`data, this`drained
      ensures AtChunk()
      ensures drained + cache.Contents() == old(drained + cache.Contents())
      ensures |drained| == |old(drained)| + 8 * order.ChunkBytes()
      ensures cache.fillLevel == old(cache.fillLevel) - 8 * order.ChunkBytes()
    {
      hide Spells, Cache.Valid, Cache.Contents, Order.StoreChunk, Aligned;
      AlignedFacts(order, |drained|);
      ghost var contents := cache.Contents();
      var chunk := cache.Peek(8 * order.ChunkBytes());
      assert order.Row(chunk, 8 * order.ChunkBytes()) == contents[..8 * order.ChunkBytes()];
      cache := cache.Skip(8 * order.ChunkBytes());
      WriteChunk(chunk);
      SpellChunk(order, data, drained, chunk);
      Regroup(drained, contents, 8 * order.ChunkBytes());
      data, drained := output, drained + contents[..8 * order.ChunkBytes()];
    }

    /** Moves 32 bits from the cache to the output. */
    method DrainImpl()
      requires Valid() && order.FixedSizeChunks() && CHUNK_BITS <= cache.fillLevel
      modifies this`cache, this`output, this`data, this`drained
      ensures Valid() && Written() == old(Written())
      ensures cache.fillLevel == old(cache.fillLevel) - CHUNK_BITS
    {
      hide Spells, Cache.Valid, Cache.Contents, Aligned;
      AlignedFacts(order, |drained|);
      var numChunks := CHUNK_BITS / (8 * order.ChunkBytes());
      ghost var done: nat := 0;
      var i := 0;
      while i != numChunks
        invariant 0 <= i <= numChunks
        invariant if order.MSB16? then numChunks == 2 && done == 16 * i else numChunks == 1 && done == 32 * i
        invariant AtChunk()
        invariant cache.fillLevel == old(cache.fillLevel) - done
        invariant |drained| == |old(drained)| + done
        invariant drained + cache.Contents() == old(Written())
      {
        DrainChunk();
        done := done + 8 * order.ChunkBytes();
        i := i + 1;
      }
    }

    /** As `DrainImpl`, with a zero byte stuffed after every 0xFF. */
    method DrainImplJPEG()
      requires Valid() && order.JPEG? && CHUNK_BITS <= cache.fillLevel
      modifies this`cache, this`output, this`data, this`drained
      ensures Valid() && Written() == old(Written())
      ensures cache.fillLevel == old(cache.fillLevel) - CHUNK_BITS
    {
      hide Spells, Cache.Valid, Cache.Contents, Order.StoreChunk, Stuff, Aligned;
      AlignedFacts(order, |drained|);
      ghost var contents := cache.Contents();
      var chunk := cache.Peek(CHUNK_BITS);
      assert order.Row(chunk, CHUNK_BITS) == contents[..CHUNK_BITS];
      cache := cache.Skip(CHUNK_BITS);
      WriteStuffed(chunk);
      SpellChunk(order, data, drained, chunk);
      Regroup(drained, contents, CHUNK_BITS);
      StuffConcat(data, order.StoreChunk(chunk));
      data, drained := data + order.StoreChunk(chunk), drained + contents[..CHUNK_BITS];
    }

    /** Writes one chunk, in one go when none of its bytes needs stuffing. */
    method WriteStuffed(chunk: nat)
      requires order.JPEG?
      modifies this`output
      ensures output == old(output) + Stuff(order.StoreChunk(chunk))
    {
      hide Stuff;
      if 0xFF !in ToLittleEndian(chunk, 4) {
        PlainBytes(chunk);
        WriteChunk(chunk);
        return;
      }
      var bytes := ToBigEndian(chunk, 4);
      var i := 0;
      StuffNothing();
      while i != |bytes|
        invariant 0 <= i <= |bytes|
        invariant output == old(output) + Stuff(bytes[..i])
      {
        StuffNext(bytes, i);
        output := output + [bytes[i]];
        if bytes[i] == 0xFF {
          output := output + [0x00];
        }
        i := i + 1;
      }
      assert bytes[..i] == bytes;
    }

    method Drain()
      requires Valid() && !flushed
      modifies this`cache, this`output, this`data, this`drained
      ensures Valid() && Written() == old(Written())
      ensures cache.fillLevel == old(cache.fillLevel) % CHUNK_BITS
    {
      hide Spells, Cache.Valid, Cache.Contents, Wire, Aligned;
      OneChunkLess(cache.fillLevel);
      if cache.fillLevel < CHUNK_BITS {
        return;
      }
      if order.JPEG? {
        DrainImplJPEG();
      } else {
        DrainImpl();
      }
    }

    /** Appends the low `count` bits of `bits` to the stream. */
    method Put(bits: nat, count: nat)
      requires Valid() && !flushed
      requires count <= 32 && bits < Pow2(count)
      modifies this`cache, this`output, this`data, this`drained
      ensures Valid() && Written() == old(Written()) + order.Row(bits, count)
      ensures cache.fillLevel == old(cache.fillLevel) % CHUNK_BITS + count
    {
      hide Spells, Cache.Valid, Cache.Contents, Cache.Push;
      Drain();
      Concat(drained, cache.Contents(), order.Row(bits, count));
      hide Order.Row, Wire;
      cache := cache.Push(bits, count);
    }

    /** Pads with zero bits to whole chunks of 32 bits and empties the cache. */
    method Flush()
      requires Valid() && !flushed
      modifies this
      ensures Valid() && flushed
      ensures Written() == old(Written()) + Zeros(PaddingBits(|old(Written())|))
      ensures Spells(order, data, Written()) && output == Wire(order, data)
    {
      hide Spells, Cache.Valid, Cache.Contents, Order.Row, PaddingBits;
      Drain();
      PaddingAfter(|drained|, cache.fillLevel);
      if cache.fillLevel == 0 {
        assert drained + cache.Contents() == drained;
        flushed := true;
        return;
      }
      ghost var padding := CHUNK_BITS - cache.fillLevel;
      Put(0, CHUNK_BITS - cache.fillLevel);
      RowOfZero(order, padding);
      Drain();
      assert drained + cache.Contents() == drained;
      flushed := true;
    }
  }

  /** How many bits are missing to a multiple of 32. */
  function PaddingBits(n: nat): nat {
    (CHUNK_BITS - n % CHUNK_BITS) % CHUNK_BITS
  }

  lemma PaddingAfter(whole: nat, rest: nat)
    requires whole % CHUNK_BITS == 0 && rest < CHUNK_BITS
    ensures PaddingBits(whole + rest) == if rest == 0 then 0 else CHUNK_BITS - rest
  {
  }

  lemma RowOfZero(o: Order, n: nat)
    ensures o.Row(0, n) == Zeros(n)
  {
    forall j: nat | j < n
      ensures !o.Row(0, n)[j]
    {
      MsbBitsAt(0, n, j);
      LsbBitsAt(0, n, j);
      BitZero(j);
      BitZero(n - 1 - j);
    }
  }

  lemma StuffNothing()
    ensures Stuff([]) == []
  {
  }

  lemma PlainBytes(chunk: nat)
    requires 0xFF !in ToLittleEndian(chunk, 4)
    ensures Stuff(ToBigEndian(chunk, 4)) == ToBigEndian(chunk, 4)
  {
    forall k: nat | k < 4
      ensures ToBigEndian(chunk, 4)[k] != 0xFF
    {
      BigIsReversedLittle(chunk, 4, k);
    }
    StuffPlain(ToBigEndian(chunk, 4));
  }

  lemma Regroup(a: seq<bool>, b: seq<bool>, n: nat)
    requires n <= |b|
    ensures (a + b[..n]) + b[n..] == a + b
  {
  }
}
