/** Output iterators that change the width of what passes through: parts are coalesced into wider
    integers, or integers are partitioned into parts, always low part first. */
module OutputIterators {
  import opened Bits

  /** The bytes of a row of `n`-byte integers. */
  function BytesOf(chunks: seq<nat>, n: nat): seq<byte> {
    if chunks == [] then [] else BytesOf(chunks[..|chunks| - 1], n) + ToLittleEndian(chunks[|chunks| - 1], n)
  }

  lemma BytesOfSnoc(chunks: seq<nat>, chunk: nat, n: nat)
    ensures BytesOf(chunks + [chunk], n) == BytesOf(chunks, n) + ToLittleEndian(chunk, n)
  {
    assert (chunks + [chunk])[..|chunks|] == chunks;
  }

  lemma {:induction false} BytesOfSplit(a: seq<nat>, b: seq<nat>, n: nat)
    ensures BytesOf(a + b, n) == BytesOf(a, n) + BytesOf(b, n)
  {
    hide ToLittleEndian;
    if b == [] {
      assert a + b == a;
    } else {
      var init, last := b[..|b| - 1], b[|b| - 1];
      BytesOfSplit(a, init, n);
      BytesOfSnoc(a + init, last, n);
      BytesOfSnoc(init, last, n);
      hide BytesOf;
      assert b == init + [last] && a + b == (a + init) + [last];
      Prepend(BytesOf(a, n), BytesOf(init, n), ToLittleEndian(last, n));
    }
  }

  /** Two numbers side by side have their bytes side by side. */
  lemma {:induction false} SideBySide(low: nat, m: nat, high: nat, k: nat)
    requires low < Pow2(8 * m)
    ensures ToLittleEndian(low + high * Pow2(8 * m), m + k) == ToLittleEndian(low, m) + ToLittleEndian(high, k)
  {
    hide Pow2, ToLittleEndian;
    if m > 0 {
      EightMore(8 * (m - 1));
      LowByteOfSum(low, high, Pow2(8 * m), Pow2(8 * (m - 1)));
      SideBySide(low / 256, m - 1, high, k);
      FirstByte(low + high * Pow2(8 * m), m + k);
      FirstByte(low, m);
      Prepend([low % 256], ToLittleEndian(low / 256, m - 1), ToLittleEndian(high, k));
    } else {
      NoBytes(low, high);
    }
  }

  lemma NoBytes(low: nat, high: nat)
    requires low < Pow2(0)
    ensures low == 0 && high * Pow2(0) == high && ToLittleEndian(low, 0) == []
  {
  }

  lemma FirstByte(v: nat, n: nat)
    requires n > 0
    ensures ToLittleEndian(v, n) == [v % 256] + ToLittleEndian(v / 256, n - 1)
  {
  }

  lemma Prepend(a: seq<byte>, b: seq<byte>, c: seq<byte>)
    ensures a + (b + c) == (a + b) + c
  {
  }

  lemma LowByteOfSum(low: nat, high: nat, p: nat, rest: nat)
    requires p == 256 * rest && low < p
    ensures low / 256 < rest
    ensures (low + high * p) / 256 == low / 256 + high * rest && (low + high * p) % 256 == low % 256
  {
    var product := high * rest;
    assert high * p == 256 * product;
  }

  lemma EightMore(n: nat)
    ensures Pow2(n + 8) == 256 * Pow2(n)
  {
    assert Pow2(8) == 256;
    Pow2Sum(8, n);
  }

  /** The parts that an integer is made of. */
  function Parts(coalesced: nat, partBytes: nat, numParts: nat): (parts: seq<nat>)
    ensures |parts| == numParts
    decreases numParts
  {
    if numParts == 0 then []
    else [Trunc(coalesced, 8 * partBytes)] + Parts(Shr(coalesced, 8 * partBytes), partBytes, numParts - 1)
  }

  lemma ShrIsQuotient(v: nat, k: nat)
    ensures v == Trunc(v, k) + Shr(v, k) * Pow2(k) && Trunc(v, k) < Pow2(k)
  {
    TruncSmall(v, k);
    ShlOfShr(v, k);
    var rest := v - Shl(Shr(v, k), k);
    TruncOfSum(Shr(v, k), k, rest);
    ShlIsProduct(Shr(v, k), k);
  }

  /** Partitioning keeps the bytes. */
  lemma {:induction false} PartsKeepBytes(coalesced: nat, partBytes: nat, numParts: nat)
    ensures BytesOf(Parts(coalesced, partBytes, numParts), partBytes) == ToLittleEndian(coalesced, partBytes * numParts)
    decreases numParts
  {
    hide Trunc, Shr, Pow2, ToLittleEndian;
    if numParts == 0 {
      Nothing(coalesced);
    } else {
      var low, high := Trunc(coalesced, 8 * partBytes), Shr(coalesced, 8 * partBytes);
      PartsKeepBytes(high, partBytes, numParts - 1);
      LowAndHigh(coalesced, partBytes, numParts - 1);
      BytesOfSplit([low], Parts(high, partBytes, numParts - 1), partBytes);
      BytesOfSnoc([], low, partBytes);
      assert [] + [low] == [low];
    }
  }

  lemma Nothing(v: nat)
    ensures ToLittleEndian(v, 0) == []
  {
  }

  lemma LowAndHigh(v: nat, partBytes: nat, more: nat)
    ensures partBytes * (more + 1) >= 0 && partBytes * more >= 0
    ensures ToLittleEndian(v, partBytes * (more + 1))
            == ToLittleEndian(Trunc(v, 8 * partBytes), partBytes)
               + ToLittleEndian(Shr(v, 8 * partBytes), partBytes * more)
  {
    hide Trunc, Shr, Pow2, ToLittleEndian;
    ShrIsQuotient(v, 8 * partBytes);
    SideBySide(Trunc(v, 8 * partBytes), partBytes, Shr(v, 8 * partBytes), partBytes * more);
    assert partBytes * (more + 1) == partBytes + partBytes * more;
  }

  lemma ByteAndRest(v: nat)
    ensures Trunc(v, 8) == v % 256 && Shr(v, 8) == v / 256
  {
    assert Pow2(8) == 256;
    hide Trunc, Shr, Pow2;
    ShrIsQuotient(v, 8);
  }

  /** Parts of one byte are bytes. */
  lemma {:induction false} ByteParts(coalesced: nat, numParts: nat)
    ensures Parts(coalesced, 1, numParts) == ToLittleEndian(coalesced, numParts)
    decreases numParts
  {
    if numParts > 0 {
      ByteAndRest(coalesced);
      hide Trunc, Shr;
      ByteParts(Shr(coalesced, 8), numParts - 1);
    }
  }

  /** Assignment to a `PartitioningOutputIterator`. */
  method Partition(coalesced: nat, partBytes: nat, numParts: nat) returns (parts: seq<nat>)
    ensures parts == Parts(coalesced, partBytes, numParts)
  {
    parts := [];
    var rest := coalesced;
    var i := 0;
    while i != numParts
      invariant 0 <= i <= numParts
      invariant parts + Parts(rest, partBytes, numParts - i) == Parts(coalesced, partBytes, numParts)
    {
      var part := Trunc(rest, 8 * partBytes);
      rest := Shr(rest, 8 * partBytes);
      parts := parts + [part];
      i := i + 1;
    }
  }

  /** `CoalescingOutputIterator`, for parts of `partBytes` bytes, `numParts` to an integer. */
  class CoalescingOutputIterator {
    const partBytes: nat
    const numParts: nat
    var output: seq<nat>
    var cache: nat
    var occupancy: nat

    function MaxOccupancy(): nat {
      8 * (partBytes * numParts)
    }

    /** How many parts wait in the cache. */
    ghost predicate Holds(waiting: nat)
      reads this
    {
      && partBytes > 0 && waiting <= numParts
      && occupancy == 8 * (partBytes * waiting)
      && cache < Pow2(occupancy)
    }

    ghost predicate Valid()
      reads this
    {
      exists waiting: nat :: waiting < numParts && Holds(waiting)
    }

    /** Everything that has been assigned, byte by byte. */
    ghost function Bytes(): seq<byte>
      reads this
    {
      BytesOf(output, partBytes * numParts) + ToLittleEndian(cache, occupancy / 8)
    }

    constructor (partBytes: nat, numParts: nat)
      requires partBytes > 0 && numParts > 0
      ensures this.partBytes == partBytes && this.numParts == numParts
      ensures Valid() && output == [] && Bytes() == []
    {
      this.partBytes := partBytes;
      this.numParts := numParts;
      output, cache, occupancy := [], 0, 0;
      new;
      assert Holds(0);
    }

    method MaybeOutputCoalescedParts(ghost waiting: nat)
      requires 0 < waiting && Holds(waiting)
      modifies this`output, this`cache, this`occupancy
      ensures Valid() && Bytes() == old(Bytes())
      ensures waiting == numParts ==> occupancy == 0
    {
      hide BytesOf, ToLittleEndian, Pow2;
      FullIff(partBytes, waiting, numParts);
      NothingCached();
      if occupancy != MaxOccupancy() {
        return;
      }
      BytesOfSnoc(output, cache, partBytes * numParts);
      output := output + [cache];
      cache := 0;
      occupancy := 0;
      assert Holds(0);
    }

    static lemma NothingCached()
      ensures Pow2(0) == 1 && ToLittleEndian(0, 0) == []
    {
    }

    static lemma FullIff(partBytes: nat, waiting: nat, numParts: nat)
      requires partBytes > 0 && waiting <= numParts
      ensures 8 * (partBytes * waiting) == 8 * (partBytes * numParts) <==> waiting == numParts
    {
      if waiting < numParts {
        assert partBytes * (numParts - waiting) > 0;
      }
    }

    /** Assigns one part. */
    method Assign(part: nat)
      requires Valid() && part < Pow2(8 * partBytes)
      modifies this`output, this`cache, this`occupancy
      ensures Valid() && Bytes() == old(Bytes()) + ToLittleEndian(part, partBytes)
    {
      hide Pow2, Or, Shl, ToLittleEndian;
      ghost var waiting: nat :| waiting < numParts && Holds(waiting);
      ghost var m := partBytes * waiting;
      assert occupancy / 8 == m;
      assert partBytes * (waiting + 1) == m + partBytes;
      OrIsSum(part, occupancy, cache);
      OrCommutes(cache, Shl(part, occupancy));
      ShlIsProduct(part, occupancy);
      SideBySide(cache, m, part, partBytes);
      Room(part, 8 * partBytes, cache, occupancy);
      cache := Or(cache, Shl(part, occupancy));
      occupancy := occupancy + 8 * partBytes;
      assert occupancy / 8 == m + partBytes;
      MaybeOutputCoalescedParts(waiting + 1);
    }

    static lemma Room(part: nat, k: nat, cache: nat, n: nat)
      requires part < Pow2(k) && cache < Pow2(n)
      ensures cache + part * Pow2(n) < Pow2(n + k)
    {
      hide Pow2;
      Pow2Sum(n, k);
      RoomProduct(part, Pow2(k), Pow2(n));
    }

    static lemma {:induction false} RoomProduct(a: nat, p: nat, q: nat)
      requires a < p
      ensures a * q + q <= q * p
      decreases p
    {
      assert q * p == q * (p - 1) + q;
      if a < p - 1 {
        RoomProduct(a, p - 1, q);
      }
    }

    /** The destructor: an integer that is not full yet is completed with zero bytes. */
    method Finish()
      requires Valid()
      modifies this`output, this`cache, this`occupancy
      ensures occupancy == 0 && Bytes() == BytesOf(output, partBytes * numParts)
      ensures
        var missing := |Bytes()| - |old(Bytes())|;
        && 0 <= missing < partBytes * numParts
        && Bytes() == old(Bytes()) + seq<byte>(missing, _ => 0)
    {
      hide Pow2, ToLittleEndian, BytesOf;
      ghost var waiting: nat :| waiting < numParts && Holds(waiting);
      if occupancy == 0 {
        return;
      }
      ghost var k := Completion(partBytes, waiting, numParts);
      CompletedBytes(cache, partBytes * waiting, k);
      occupancy := occupancy + (MaxOccupancy() - occupancy);
      MaybeOutputCoalescedParts(numParts);
    }

    static lemma Completion(partBytes: nat, waiting: nat, numParts: nat) returns (k: nat)
      requires partBytes > 0 && waiting < numParts
      ensures 0 < k && partBytes * numParts == partBytes * waiting + k
    {
      k := partBytes * (numParts - waiting);
      assert k == partBytes * numParts - partBytes * waiting;
      assert k > 0;
    }

    static lemma CompletedBytes(v: nat, m: nat, k: nat)
      requires v < Pow2(8 * m)
      ensures v < Pow2(8 * (m + k))
      ensures ToLittleEndian(v, m + k) == ToLittleEndian(v, m) + seq<byte>(k, _ => 0)
    {
      hide Pow2, ToLittleEndian;
      SideBySide(v, m, 0, k);
      ZeroBytes(k);
      Pow2Monotone(8 * m, 8 * (m + k));
    }

    static lemma {:induction false} ZeroBytes(k: nat)
      ensures ToLittleEndian(0, k) == seq<byte>(k, _ => 0)
    {
      if k > 0 {
        ZeroBytes(k - 1);
      }
    }
  }
}
