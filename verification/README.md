# Entropy coding in rawspeed: a verified model

This project models the entropy-coding stack of the library, and four smaller components with
properties over whole runs or over all patterns, and proves that the fast, stateful implementations
do what simple specifications say.

**Bit streams.** The meaning of a buffer is one boolean per position (`BitOrder.StreamBit`), for each
of the five bit orders; for JPEG (ITU-T T.81, sections B.1.1.5 and F.1.2.3) by a scan that drops
stuffed zeros and turns into zeros at a marker. `BitStreamer` refills a 64-bit cache from the buffer,
with the speculative fast path and the unpushing of a marker byte; `BitVacuumer` writes. Both are
proved against `StreamBit`, and what is put comes back, in all five orders.

**Codes.** A table of code lengths becomes canonical symbols (T.81, section C.2); arbitrary symbol
lists pass the checks of `PrefixCode`, which are related to the Kraft sum.

**Decoders.** `Decoding.DecodeSpec` says what a stream decodes to: the one symbol that it starts with,
and the difference behind it. The bit-serial decoder of T.81 Figures F.15 and F.16, the linear search,
the binary tree on the heap, and the table of 2048 pre-decoded entries in front of each of them are all
proved against it. They therefore agree on every stream: they accept the same streams, with the same
value and the same number of bits consumed.

**The codec.** Whatever the encoder writes, every decoder reads. A difference survives exactly if it
fits 16 bits with sign; 32768 is accepted by the encoder and comes back as -32768.
`Codec.CodecOfTable` and `Codec.CodecOfSymbols` put everything together, with the exact condition
under which a table, or a list of symbols, is accepted; `Codec.Workloop` shows that the repository's own
round-trip fuzzer, which decodes arbitrary buffers, can never fail.

**Also modelled.** The set of non-overlapping ranges, whose check of two neighbours is complete. The
widening of floating point numbers, with the exact condition under which it keeps every value; the
library instantiates it only for formats that meet it. Colour filters: shifting a pattern and shifting
its encoding in 32 bits come to the same, wherever the latter is defined. The opcode lists of DNG files:
which of them are accepted, and that the crop tracked at construction is the crop of the image at each
step of a run; what the run makes of the colour filter, and for which filters the colours follow every
run of crops.

## Reading the project

| file | content |
|---|---|
| `Bits.dfy`, `Results.dfy` | numbers as rows of bits; results instead of exceptions |
| `BitCache.dfy`, `BitOrder.dfy`, `BitStreamer.dfy` | caches, the meaning of a buffer, reading |
| `ByteStuffing.dfy`, `OutputIterators.dfy`, `BitVacuumer.dfy` | stuffing and writing |
| `BitRoundTrip.dfy`, `VariableLengthLoad.dfy` | the round trip of bit streams; three loads |
| `CodeSymbols.dfy`, `Kraft.dfy`, `PrefixCodes.dfy`, `HuffmanCodes.dfy` | code words and codes |
| `Difference.dfy`, `Decoding.dfy` | categories and the specification of decoding |
| `LookupDecoder.dfy`, `VectorDecoder.dfy`, `BinaryPrefixTree.dfy`, `TreeDecoder.dfy` | three decoders |
| `LutEntry.dfy`, `LutDecoder.dfy` | the table in front of them |
| `Encoder.dfy`, `Codec.dfy` | the encoder, and everything together |
| `RangeSets.dfy`, `FloatingPoint.dfy` | two smaller components |
| `Points.dfy`, `ColorFilterArrays.dfy`, `RawImages.dfy` | colour filters, and images that are cropped |
| `DngOpcodes.dfy` | opcode lists, which run on such images |

`dafny verify dfyconfig.toml` checks all of it.

## Modelling decisions

- The bit streamers and vacuumers are templates over their bit order in the source; here each is one
  class with a constant `order`. The decoders are separate classes.
- Unsigned machine integers are naturals with the shifts, masks and truncations of the source written
  out (`Shl`, `Or`, `Trunc`); a cache is a value, as it is in the source.
- Exceptions are results, or an `ok` that is false. `assert` and `invariant` of the source are
  preconditions or proved assertions.
- Memory is little-endian, as on the hosts of the source; a byte-swapped access is big-endian.
- The comment above the lookup table speaks of fields payload:16, flag:8, len:8
  (`src/librawspeed/codes/PrefixCodeLUTDecoder.h:81`); the code shifts the payload by 9, and the model
  follows the code.
- `encodeDifference` accepts every difference whose category is in the alphabet. The round trip is
  exact on [-32768, 32767] only; the model keeps the code and proves this condition in both directions.
- `extendBinaryFloatingPoint` asks in a comment for its implicit precondition
  (`src/librawspeed/common/FloatingPoint.h:134`). The model keeps the code and answers the question.
- `subFrame` does not shift a colour filter whose encoding is 1 or 9, the values that also stand for "no
  encoding" and X-Trans (`src/librawspeed/common/RawImage.cpp:191-195`). Some patterns of 2 by 8 are encoded
  like that and are mistaken, and some others are after a crop. The model keeps the code, and proves which
  patterns come right: with one crop exactly those whose encoding is neither (`RawImages.EveryCropIsRightIff`),
  with any number of crops exactly those whose encoding is none of 1, 4, 6 and 9 moved by whole rows
  (`RawImages.EveryRunIsRightIff`, `ColorFilterArrays.NeverMistakenIff`). There are examples that go wrong with
  one crop and with two. Patterns of other sizes are left alone, so that only the uniform ones come right.
- `shiftDcrawFilter` shifts by the full width of its type for a negative multiple of eight rows
  (`src/librawspeed/metadata/ColorFilterArray.cpp:163-167`), which C++ leaves undefined; the
  equality with the shift of the pattern that its tests promise does not extend to those. The model answers
  `None` there, and proves the equality everywhere else. The library itself does not call it.
- The shift-based load computes the number of bits to shift by in `int`
  (`src/librawspeed/adt/VariableLengthLoad.h:91`), and `skipBytes` the number of bits to skip
  (`src/librawspeed/bitstreams/BitStreamer.h:321-325`). Both overflow from 2 to the 28 bytes on, whatever the
  size of the buffer; the model says exactly when.

## Model

| member | source | states |
|---|---|---|
| `BitCache.Cache.Push` | src/librawspeed/bitstreams/BitStream.h:60-68 | Pushing keeps the vacant bits zero and appends the bits of the number, in the order of the cache, to what is held. |
| `BitCache.Cache.PushRight` | src/librawspeed/bitstreams/BitStream.h:93-117 | The same for the cache that fills from the top: `or`-ing the shifted number in is appending, because the vacant bits are zero; a count of 0 does nothing. |
| `BitCache.Cache.Peek` | src/librawspeed/bitstreams/BitStream.h:119-129 | Peeking gives the number whose bits are the next `count` ones. |
| `BitCache.Cache.Skip` | src/librawspeed/bitstreams/BitStream.h:131-140 | Skipping drops the first `count` bits and keeps the invariant. |
| `BitCache.Cache.UnpushAndPad` | src/librawspeed/bitstreams/BitStreamerJPEG.h:159-172 | Taking the last eight bits back and claiming 64 leaves exactly the earlier bits, followed by zeros. |
| `BitOrder.ChunkIsWindow` | src/librawspeed/bitstreams/BitStreamer.h:173-180 | For the four fixed-chunk orders, a chunk loaded from an aligned position holds exactly the next bits that the order assigns to the buffer, past its end too. |
| `BitOrder.PlainChunkIsWindow` | src/librawspeed/bitstreams/BitStreamerJPEG.h:118-132 | Four bytes without 0xFF are four data bytes: the speculative fast path delivers the destuffed bits. |
| `BitOrder.ZerosAfterMarker` | src/librawspeed/bitstreams/BitStreamerJPEG.h:164-172 | After a marker every further bit of the stream is zero. |
| `BitStreamer.GetAsByteStreamPosition` | src/librawspeed/bitstreams/BitStreamPosition.h:43-75 | The position to restart from is not before byte 0, is a multiple of 4 for MSB32 and of 2 for MSB16, and names the same bit. |
| `BitStreamer.BitStreamer.Open` | src/librawspeed/bitstreams/BitStreamer.h:56-60 | Construction fails exactly for inputs of less than 4 bytes, or 8 for JPEG. |
| `BitStreamer.BitStreamer.GetInput` | src/librawspeed/bitstreams/BitStreamer.h:100-132 | The bytes at the position, zero-extended; it fails exactly when the position is more than 8 bytes past the end, or 16 for JPEG. |
| `BitStreamer.BitStreamer.FillCache` | src/librawspeed/bitstreams/BitStreamer.h:155-182 | A refill appends the next 32 bits of the stream, whatever the chunk size; consumed bits are 8 times the position less the fill level. |
| `BitStreamer.BitStreamer.FillCacheJPEG` | src/librawspeed/bitstreams/BitStreamerJPEG.h:106-183 | A refill appends the next bits of the destuffed stream and leaves at least 32; the end-of-stream position is never set twice. Without a marker in reach exactly 32 bits are appended; with one the cache is filled and the position moves past the input by as many bytes as were missing. |
| `BitStreamer.BitStreamer.FillCacheBytewise` | src/librawspeed/bitstreams/BitStreamerJPEG.h:134-183 | The slow path: four data bytes, or the data before a marker and zeros; at least 5 bytes are consumed, at least 6 at a marker. |
| `BitStreamer.BitStreamer.Fill` | src/librawspeed/bitstreams/BitStreamer.h:216-230 | Filling never moves the stream; it succeeds if and only if the bits are cached or the position has not over-read. How much is cached then, and where the position is, for all orders, a marker included. |
| `BitStreamer.BitStreamer.PeekBitsNoFill` | src/librawspeed/bitstreams/BitStreamer.h:253-259 | The number peeked spells the upcoming bits. |
| `BitStreamer.BitStreamer.SkipBitsNoFill` | src/librawspeed/bitstreams/BitStreamer.h:261-267 | The cursor moves by exactly that many bits and the invariant is kept. |
| `BitStreamer.BitStreamer.GetBitsNoFill` | src/librawspeed/bitstreams/BitStreamer.h:269-277 | Both at once. |
| `BitStreamer.BitStreamer.PeekBits` | src/librawspeed/bitstreams/BitStreamer.h:279-286 | With a refill first; a failure changes nothing. |
| `BitStreamer.BitStreamer.SkipBits` | src/librawspeed/bitstreams/BitStreamer.h:288-292 | With a refill first; a failure changes nothing. |
| `BitStreamer.BitStreamer.GetBits` | src/librawspeed/bitstreams/BitStreamer.h:294-301 | With a refill first; the number spells the bits that were upcoming. |
| `BitStreamer.BitStreamer.SkipManyBits` | src/librawspeed/bitstreams/BitStreamer.h:305-317 | Skipping any number of bits drops exactly that many, a negative number none. The exact condition for success, for all orders: the last refill must not start too far past the input, where JPEG counts scanned bytes up to the marker and zero bytes after it. In particular it succeeds whenever the target is inside the data. |
| `BitStreamer.BitStreamer.FillAndSkip` | src/librawspeed/bitstreams/BitStreamer.h:309-316 | One step of that: it fails exactly if the whole skip cannot succeed, and otherwise leaves a skip that succeeds exactly if the whole one does. |
| `BitStreamer.BitStreamer.SkipBytes` | src/librawspeed/bitstreams/BitStreamer.h:321-325 | The same for bytes, with the same exact condition, wherever eight times the number does not overflow; exactly there the result is undefined. |
| `BitStreamer.SkipEnded` | src/librawspeed/bitstreams/BitStreamerJPEG.h:158-176 | The refill that meets the marker: how many bits can still be skipped depends only on where in its four bytes the marker lies. |
| `BitStreamer.SkipRefilled` | src/librawspeed/bitstreams/BitStreamerJPEG.h:118-132 | A refill of four data bytes leaves a skip that succeeds exactly if the one before does. |
| `BitStreamer.BitStreamer.NoOverRead` | src/librawspeed/bitstreams/BitStreamer.h:119-128 | No read fails while the bits asked for start inside the data, in any order and any state. |
| `BitStreamer.BitStreamer.StillInside` | fuzz/librawspeed/codes/PrefixCodeEncoder/PrefixCodeEncoder.cpp:98 | While the input position is inside the buffer, so is the next bit. |
| `BitStreamer.BitStreamer.PastTheInput` | fuzz/librawspeed/codes/PrefixCodeEncoder/PrefixCodeEncoder.cpp:98 | Once it has left the buffer, at most one cache of bits is ahead. |
| `BitStreamer.BitStreamer.DataEnds` | src/librawspeed/bitstreams/BitStreamerJPEG.h:158-176 | Once a marker has been met, the scan stays ended at that marker. |
| `BitStreamer.BitStreamer.GetStreamPosition` | src/librawspeed/bitstreams/BitStreamerJPEG.h:185-189 | The bytes consumed, rounded up; for an ended JPEG segment the position of the 0xFF of the marker. |
| `BitStreamer.BitStreamer.Reload` | src/librawspeed/bitstreams/BitStreamer.h:196-214 | Reloading is transparent: same cursor, hence the same remaining bits, and more than 32 less one load step of them cached. It fails exactly when the restart position is more than 8 bytes past the end. |
| `BitStreamer.BitStreamer.OpenAt` | src/librawspeed/bitstreams/BitStreamer.h:204-207 | A fresh streamer on the same input, moved by whole load steps, stands at the first bit of that byte with nothing cached. |
| `BitStreamer.BitStreamer.MarkNumBytesAsConsumed` | src/librawspeed/bitstreams/BitStreamer.h:92-98 | After a refill, in any order, and on the way to a restart: moving the position by the bytes of whole load steps makes it agree with the bits again, cached bits included. |
| `ByteStuffing.NoMarkerInStuffed` | src/librawspeed/bitstreams/BitVacuumerJPEG.h:84-91 | Stuffed output never contains a marker, not even half of one at its end. |
| `ByteStuffing.DestuffStuffed` | src/librawspeed/bitstreams/BitStreamerJPEG.h:135-152 | Scanning stuffed bytes delivers the data byte by byte, in step with the writer. |
| `ByteStuffing.ScannedIsStuffed` | src/librawspeed/bitstreams/BitStreamerJPEG.h:135-152 | Conversely, whatever a scan has passed over is the stuffed form of what it delivered. |
| `ByteStuffing.MarkerAfterStuffed` | src/librawspeed/bitstreams/BitStreamerJPEG.h:158-176 | Data followed by a marker ends there and continues with zero bits; the scan names the place of the marker. |
| `ByteStuffing.StuffedBits` | src/librawspeed/bitstreams/BitVacuumerJPEG.h:51-92 | The bits read from stuffed data are those of the data. |
| `BitVacuumer.SpellChunk` | src/librawspeed/bitstreams/BitVacuumer.h:68-77 | Appending a stored chunk to the output appends exactly its bits to what a reader of that order sees. |
| `BitVacuumer.LoadOfStore` | src/librawspeed/bitstreams/BitVacuumer.h:69-76 | Loading a stored chunk gives it back, in both byte orders. |
| `BitVacuumer.BitVacuumer.Put` | src/librawspeed/bitstreams/BitVacuumer.h:121-126 | The bits written grow by exactly the bits of the number. |
| `BitVacuumer.BitVacuumer.DrainImpl` | src/librawspeed/bitstreams/BitVacuumer.h:57-78 | Moving 32 bits from the cache to the output neither loses nor adds a bit. |
| `BitVacuumer.BitVacuumer.DrainImplJPEG` | src/librawspeed/bitstreams/BitVacuumerJPEG.h:51-92 | The same with stuffing, on both paths. |
| `BitVacuumer.BitVacuumer.WriteStuffed` | src/librawspeed/bitstreams/BitVacuumerJPEG.h:66-91 | The fast path for bytes without 0xFF writes what the stuffing path would. |
| `BitVacuumer.BitVacuumer.Drain` | src/librawspeed/bitstreams/BitVacuumer.h:80-88 | Keeps the bits written and leaves less than 32 of them cached. |
| `BitVacuumer.BitVacuumer.Flush` | src/librawspeed/bitstreams/BitVacuumer.h:90-106 | After a flush the output spells all bits put, followed by zero bits up to a multiple of 32, and nothing remains cached. |
| `BitVacuumer.BitVacuumer.WriteParts` | src/librawspeed/adt/PartitioningOutputIterator.h:60-74 | An integer assigned to the output appends its bytes, low part first. |
| `OutputIterators.PartsKeepBytes` | src/librawspeed/adt/PartitioningOutputIterator.h:63-74 | Partitioning an integer into parts of any width keeps its bytes. |
| `OutputIterators.Partition` | src/librawspeed/adt/PartitioningOutputIterator.h:63-74 | The loop yields those parts. |
| `OutputIterators.CoalescingOutputIterator.Assign` | src/librawspeed/adt/CoalescingOutputIterator.h:140-153 | Assigning a part appends its bytes, whether or not an integer becomes complete. |
| `OutputIterators.CoalescingOutputIterator.MaybeOutputCoalescedParts` | src/librawspeed/adt/CoalescingOutputIterator.h:56-65 | Emitting a complete integer moves its bytes from the cache to the output. |
| `OutputIterators.CoalescingOutputIterator.Finish` | src/librawspeed/adt/CoalescingOutputIterator.h:111-122 | The destructor completes a partial integer with less than one integer of zero bytes; nothing else changes. |
| `BitRoundTrip.ReadsBack` | fuzz/librawspeed/bitstreams/BitVacuumerRoundtrip.cpp:155-165 | Any buffer that starts with what a vacuumer wrote reads back the bits that were put, and no bit of them is an over-read. |
| `BitRoundTrip.ProduceBitstream` | fuzz/librawspeed/bitstreams/BitVacuumerRoundtrip.cpp:132-153 | All fields of 0 to 32 bits, put and flushed, in a buffer of at least the minimum size. |
| `BitRoundTrip.ReparseBitstream` | fuzz/librawspeed/bitstreams/BitVacuumerRoundtrip.cpp:156-165 | Every field comes back and no read fails. |
| `BitRoundTrip.CheckFlavour` | fuzz/librawspeed/bitstreams/BitVacuumerRoundtrip.cpp:167-180 | The round trip for all five orders and every list of fields. |
| `VariableLengthLoad.LoadByShift` | src/librawspeed/adt/VariableLengthLoad.h:76-99 | The shift-based load writes the zero-extended bytes at the position, for 1, 2, 4 and 8 bytes; it is defined exactly as long as neither the end of the range nor the number of bits to shift by overflows, that is, up to 2 to the 28 bytes past the buffer. |
| `VariableLengthLoad.LoadByMaskedLoop` | src/librawspeed/adt/VariableLengthLoad.h:131-146 | The masked loop writes the same bytes. |
| `VariableLengthLoad.LoadByMemcpy` | src/librawspeed/adt/VariableLengthLoad.h:148-173 | So does the copy. |
| `VariableLengthLoad.BitOfSafeShift` | src/librawspeed/adt/VariableLengthLoad.h:55-74 | The safe shift is a shift for every amount, the width of the type and beyond included. |
| `CodeSymbols.CommonPrefixIsPrefix` | src/librawspeed/codes/AbstractPrefixCode.h:162-171 | The arithmetic prefix test decides whether one code word is a prefix of the other. |
| `CodeSymbols.MatchIsUnique` | src/librawspeed/codes/PrefixCode.h:94-101 | At most one symbol of a prefix-free list matches a stream. |
| `Kraft.KraftInequality` | src/librawspeed/codes/PrefixCode.h:70-84 | Kraft's inequality: pairwise prefix-free code words use up at most the whole budget. |
| `PrefixCodes.FitsBudget` | src/librawspeed/codes/PrefixCode.h:70-84 | The per-level check succeeds exactly if the code words fit into the tree. |
| `PrefixCodes.BudgetIsKraft` | src/librawspeed/codes/PrefixCode.h:70-84 | The check fires exactly when the Kraft sum exceeds 1, and never for a prefix-free list. |
| `PrefixCodes.LengthsOrdered` | src/librawspeed/codes/PrefixCode.h:86-93 | Comparing neighbours decides whether lengths never decrease. |
| `PrefixCodes.NoCommonPrefixes` | src/librawspeed/codes/PrefixCode.h:94-101 | Looking at the lower triangle decides whether the list is prefix-free. |
| `PrefixCodes.CountCodes` | src/librawspeed/codes/PrefixCode.h:57-64 | The counts per length, trimmed. |
| `PrefixCodes.MakePrefixCode` | src/librawspeed/codes/PrefixCode.h:50-67 | Construction succeeds if and only if there are as many symbols as values, lengths are ordered and the list is prefix-free; what each error means. |
| `HuffmanCodes.FirstPlusBudget` | src/librawspeed/codes/HuffmanCode.h:121-146 | The invariant of the construction: next code plus remaining budget is 2 to the length. |
| `HuffmanCodes.CheckBudget` | src/librawspeed/codes/HuffmanCode.h:121-146 | The table is refused exactly if the codes of these lengths do not fit. |
| `HuffmanCodes.HuffmanCode.SetNCodesPerLength` | src/librawspeed/codes/HuffmanCode.h:99-149 | A table is accepted exactly if it is not empty, its codes fit, and it asks for at most 16 times 10 and 2 values, or 264 for VC5; the number of values it asks for. |
| `HuffmanCodes.CategoriesAreAccepted` | src/librawspeed/codes/AbstractPrefixCode.h:53-58 | No table whose codes fit is refused as long as it asks for no more values than there are difference categories. |
| `HuffmanCodes.AcceptableIff` | src/librawspeed/codes/HuffmanCode.h:99-149 | Trimming trailing zeros decides nothing: the table that is left is acceptable exactly if the whole one is, and asks for as many values. |
| `HuffmanCodes.HuffmanCode.MaxCodesCount` | src/librawspeed/codes/HuffmanCode.h:61-63 | The number of codes of a table. |
| `HuffmanCodes.HuffmanCode.SetCodeValues` | src/librawspeed/codes/HuffmanCode.h:151-166 | Values are taken over, and refused exactly if one does not fit 8 bits, or 19 bits for VC5. |
| `HuffmanCodes.HuffmanCode.GenerateCodeSymbols` | src/librawspeed/codes/HuffmanCode.h:66-92 | The symbols are the canonical ones. |
| `HuffmanCodes.CanonicalFits` | src/librawspeed/codes/HuffmanCode.h:66-92 | Canonical symbols fit their lengths, and their lengths never decrease. |
| `HuffmanCodes.CanonicalIsPrefixFree` | src/librawspeed/codes/HuffmanCode.h:66-92 | Canonical symbols are prefix-free for every accepted table. |
| `HuffmanCodes.HuffmanCode.ToPrefixCode` | src/librawspeed/codes/HuffmanCode.h:168-171 | The verification of the constructor never rejects an accepted table; the counts per length survive. |
| `Difference.ReduceMeans` | src/librawspeed/codes/AbstractPrefixCodeEncoder.h:47-58 | The length is the category of the difference, and the bits are the difference, shifted up if negative. |
| `Difference.ExtendMeans` | src/librawspeed/codes/AbstractPrefixCodeDecoder.h:70-76 | Figure F.12 in closed form. |
| `Difference.ExtendOfReduce` | src/librawspeed/codes/AbstractPrefixCodeEncoder.h:47-58 | `extend` undoes `reduce` for every difference. |
| `Difference.ReduceOfExtend` | src/librawspeed/codes/AbstractPrefixCodeDecoder.h:70-76 | `reduce` undoes `extend` for every bit pattern of every category. |
| `Decoding.CheckSetup` | src/librawspeed/codes/AbstractPrefixCodeTranscoder.h:50-85 | Setting up fails exactly if full decoding is asked for and a value is longer than 16 bits. |
| `Decoding.SymbolFits` | src/librawspeed/codes/AbstractPrefixCodeTranscoder.h:50-69 | One refill of 32 bits suffices for a symbol and its difference, on every path. |
| `Decoding.DecodeOfMatch` | src/librawspeed/codes/AbstractPrefixCodeDecoder.h:43-66 | Whatever symbol is found to match determines the decoded value and the bits consumed. |
| `Decoding.DecodeConsumes` | src/librawspeed/codes/AbstractPrefixCodeDecoder.h:43-66 | Every accepted symbol moves the stream, by at most 32 bits. |
| `Decoding.ProcessSymbol` | src/librawspeed/codes/AbstractPrefixCodeDecoder.h:43-66 | The difference after a symbol, category 16 with and without its bits included. |
| `VectorDecoder.PrefixCodeVectorDecoder.Setup` | src/librawspeed/codes/PrefixCodeVectorDecoder.h:92-104 | The table holds the first symbol index of each length. |
| `VectorDecoder.PrefixCodeVectorDecoder.RangeOfLength` | src/librawspeed/codes/PrefixCodeVectorDecoder.h:97-103 | Its neighbouring entries enclose exactly the symbols of that length. |
| `VectorDecoder.PrefixCodeVectorDecoder.FindSymbolOfLength` | src/librawspeed/codes/PrefixCodeVectorDecoder.h:67-74 | The inner loop finds the matching symbol of a length if there is one. |
| `VectorDecoder.PrefixCodeVectorDecoder.FinishReadingPartialSymbol` | src/librawspeed/codes/PrefixCodeVectorDecoder.h:50-78 | From any partial symbol: the symbol that matches the stream, or the proof that none does. |
| `VectorDecoder.PrefixCodeVectorDecoder.Decode` | src/librawspeed/codes/PrefixCodeVectorDecoder.h:127-142 | Decodes as specified, for every code, stream and setting. |
| `LookupDecoder.TablesAreUnambiguous` | src/librawspeed/codes/PrefixCodeLookupDecoder.h:93-113 | The offsets never wrap and the sentinel never hides a code, all-ones codes of full length included. |
| `LookupDecoder.PrefixCodeLookupDecoder.GenerateTables` | src/librawspeed/codes/PrefixCodeLookupDecoder.h:97-113 | The entries of Figure F.15: last code and offset of each length, or the sentinel. |
| `LookupDecoder.PrefixCodeLookupDecoder.Setup` | src/librawspeed/codes/PrefixCodeLookupDecoder.h:97-113 | After a successful setup the tables are in place. |
| `LookupDecoder.TooLargeIsNone` | src/librawspeed/codes/PrefixCodeLookupDecoder.h:140-147 | While the bits read exceed the largest code of their length, no symbol of that length matches. |
| `LookupDecoder.SmallEnoughIsMatch` | src/librawspeed/codes/PrefixCodeLookupDecoder.h:152-163 | Otherwise the offset leads to the index of the symbol that matches; the index is in range and the subtraction does not wrap. |
| `LookupDecoder.StaysTooLarge` | src/librawspeed/codes/PrefixCodeLookupDecoder.h:140-153 | A partial symbol that was ruled out before, as after a table miss, is never taken for a symbol. |
| `LookupDecoder.PrefixCodeLookupDecoder.FinishReadingPartialSymbol` | src/librawspeed/codes/PrefixCodeLookupDecoder.h:133-164 | From any entry point: the symbol that matches the stream, or the proof that none does. |
| `LookupDecoder.PrefixCodeLookupDecoder.Resolve` | src/librawspeed/codes/PrefixCodeLookupDecoder.h:152-163 | The end of Figure F.16, with both reasons to reject. |
| `LookupDecoder.PrefixCodeLookupDecoder.Decode` | src/librawspeed/codes/PrefixCodeLookupDecoder.h:182-193 | Decodes as specified, for every canonical code, stream and setting. |
| `BinaryPrefixTree.ApartCanInsert` | src/librawspeed/codes/BinaryPrefixTree.h:97-113 | A word that is no prefix of, and has no prefix among, the words of a tree never meets a leaf or an occupied slot. |
| `BinaryPrefixTree.InsertAddsOneLeaf` | src/librawspeed/codes/BinaryPrefixTree.h:87-114 | Inserting adds that leaf and no other. |
| `BinaryPrefixTree.NextSymbolIsApart` | src/librawspeed/codes/PrefixCodeTreeDecoder.h:126-128 | The next symbol of a verified code can always be added. |
| `BinaryPrefixTree.NextSymbolSpelled` | src/librawspeed/codes/PrefixCodeTreeDecoder.h:126-128 | Afterwards the root-to-leaf paths are exactly the symbols added so far, with their values. |
| `BinaryPrefixTree.Tree.Add` | src/librawspeed/codes/BinaryPrefixTree.h:87-114 | Adding to the heap tree is inserting into its shape. |
| `TreeDecoder.PrefixCodeTreeDecoder.Setup` | src/librawspeed/codes/PrefixCodeTreeDecoder.h:122-129 | All symbols are added; the tree spells out the code. |
| `TreeDecoder.LeafIsMatch` | src/librawspeed/codes/PrefixCodeTreeDecoder.h:74-78 | A leaf on the way of the stream is the matching symbol. |
| `TreeDecoder.BranchGoesOn` | src/librawspeed/codes/PrefixCodeTreeDecoder.h:80-82 | A branch rules out all shorter symbols, and is never deeper than the longest one. |
| `TreeDecoder.VacantIsNoMatch` | src/librawspeed/codes/PrefixCodeTreeDecoder.h:68-72 | A missing bud means that no symbol matches. |
| `TreeDecoder.PrefixCodeTreeDecoder.WalkBinaryTree` | src/librawspeed/codes/PrefixCodeTreeDecoder.h:59-83 | One step down: rejection, the matching symbol, or the next branch. |
| `TreeDecoder.PrefixCodeTreeDecoder.TranslateBits` | src/librawspeed/codes/PrefixCodeTreeDecoder.h:85-89 | Replaying the bits read before never finds a leaf, and stops only if nothing matches. |
| `TreeDecoder.PrefixCodeTreeDecoder.FinishReadingPartialSymbol` | src/librawspeed/codes/PrefixCodeTreeDecoder.h:49-104 | From any partial symbol: the symbol that matches the stream, or the proof that none does. |
| `TreeDecoder.PrefixCodeTreeDecoder.Decode` | src/librawspeed/codes/PrefixCodeTreeDecoder.h:152-167 | Decodes as specified, for every code, stream and setting. |
| `LutEntry.UnpackOfPack` | src/librawspeed/codes/PrefixCodeLUTDecoder.h:86-91 | The three fields of an entry can be read back, negative payloads included. |
| `LutEntry.EntryIsRight` | src/librawspeed/codes/PrefixCodeLUTDecoder.h:117-145 | The stored entry says what decoding the symbol says: length, value or sign-extended difference, category 16 for both settings, or that the difference is too long. |
| `LutEntry.StoredDiffIsPayload` | src/librawspeed/codes/PrefixCodeLUTDecoder.h:133-145 | The bits masked out of the index are the bits after the symbol, and extend to its difference. |
| `LutDecoder.CoveredRange` | src/librawspeed/codes/PrefixCodeLUTDecoder.h:106-113 | The indices between the two bounds are exactly those that begin with the symbol. |
| `LutDecoder.RangeInTable` | src/librawspeed/codes/PrefixCodeLUTDecoder.h:106-115 | They never leave the table. |
| `LutDecoder.FillTable` | src/librawspeed/codes/PrefixCodeLUTDecoder.h:95-149 | Every entry is that of the last symbol covering its index, or zero; stopping at the first long symbol loses nothing. |
| `LutDecoder.FillRange` | src/librawspeed/codes/PrefixCodeLUTDecoder.h:106-147 | One symbol fills its indices and no others. |
| `LutDecoder.EntryOfCovering` | src/librawspeed/codes/PrefixCodeLUTDecoder.h:101-148 | No other symbol overwrites an entry. |
| `LutDecoder.FlaggedIsDecoded` | src/librawspeed/codes/PrefixCodeLUTDecoder.h:187-197 | The payload and length of a flagged entry are what the specification decodes. |
| `LutDecoder.MissMeansLonger` | src/librawspeed/codes/PrefixCodeLUTDecoder.h:206-213 | An entry is zero exactly if no symbol of up to 11 bits comes next. |
| `LutDecoder.EntryFacts` | src/librawspeed/codes/PrefixCodeLUTDecoder.h:183-213 | The three kinds of entries: decoded, symbol without difference, and nothing short. |
| `LutDecoder.PrefixCodeLUTDecoder.FinishMiss` | src/librawspeed/codes/PrefixCodeLUTDecoder.h:206-216 | After a miss the backend continues behind the 11 bits and decodes as specified. |
| `LutDecoder.FinishHit` | src/librawspeed/codes/PrefixCodeLUTDecoder.h:200-216 | After a hit without difference, the difference is read from the stream. |
| `LutDecoder.PrefixCodeLUTDecoder.Decode` | src/librawspeed/codes/PrefixCodeLUTDecoder.h:173-217 | The table decoder over each backend decodes as specified, so it refines the bit-serial one: same acceptance, same value, same bits consumed. |
| `Encoder.IndexOf` | src/librawspeed/codes/PrefixCodeVectorEncoder.h:51-61 | The index that the search finds is the first one with that value. |
| `Encoder.PrefixCodeVectorEncoder.GetCodeIndexOfCodeValue` | src/librawspeed/codes/PrefixCodeVectorEncoder.h:51-61 | The search loop finds it. |
| `Encoder.PrefixCodeVectorEncoder.EncodeCodeValue` | src/librawspeed/codes/PrefixCodeVectorEncoder.h:68-77 | Writes the code word of a value. |
| `Encoder.PrefixCodeVectorEncoder.EncodeDifference` | src/librawspeed/codes/PrefixCodeVectorEncoder.h:79-90 | Writes the code word of the category and the bits of the difference, none for category 16 unless asked for. |
| `Encoder.PrefixCodeVectorEncoder.Encode` | src/librawspeed/codes/PrefixCodeVectorEncoder.h:92-103 | Either of the two. |
| `Encoder.DecodeOfEncoded` | src/librawspeed/codes/PrefixCodeVectorEncoder.h:79-90 | Whatever follows in the stream, decoding gives back the value, except that every other difference of category 16 becomes -32768, and consumes exactly what was written. |
| `Encoder.RoundTripIffSixteenBits` | src/librawspeed/codes/AbstractPrefixCodeDecoder.h:56-62 | A difference survives if and only if it lies in [-32768, 32767]. |
| `Encoder.PositiveExtremeIsLost` | src/librawspeed/codes/AbstractPrefixCodeDecoder.h:56-62 | 32768 is accepted by the encoder and comes back as -32768. |
| `Encoder.DecodedIsEncodable` | fuzz/librawspeed/codes/PrefixCodeEncoder/PrefixCodeEncoder.cpp:106-112 | Whatever a decoder delivers, the encoder can encode, and it survives. |
| `Codec.Decoder.Decode` | fuzz/librawspeed/codes/PrefixCodeEncoder/PrefixCodeEncoder.cpp:165-202 | All six decoders of the fuzzer meet one contract, which fixes acceptance, value and bits consumed. |
| `Codec.WrittenSays` | src/librawspeed/codes/PrefixCodeVectorEncoder.h:79-90 | A buffer that starts with what was written for a list says that list, each value starting where the encoder put it. |
| `Codec.EncodeAll` | fuzz/librawspeed/codes/PrefixCodeEncoder/PrefixCodeEncoder.cpp:89-118 | Encoding a list gives a buffer that says it. |
| `Codec.DecodeAll` | fuzz/librawspeed/codes/PrefixCodeEncoder/PrefixCodeEncoder.cpp:120-130 | Decoding a buffer gives the list that it says, without a failure. |
| `Codec.EncodeThenDecode` | src/librawspeed/codes/PrefixCodeVectorEncoder.h:79-90 | End to end: for every code, order, decoder and setting the list comes back, exactly if its differences have 16 bits. |
| `Codec.DecodeSome` | fuzz/librawspeed/codes/PrefixCodeEncoder/PrefixCodeEncoder.cpp:98-105 | As long as the input position is inside the buffer, decoding never over-reads; what it delivers can be encoded. |
| `Codec.TranscodeOne` | fuzz/librawspeed/codes/PrefixCodeEncoder/PrefixCodeEncoder.cpp:98-113 | One turn of the loop keeps source and recording saying the same list. |
| `Codec.Transcode` | fuzz/librawspeed/codes/PrefixCodeEncoder/PrefixCodeEncoder.cpp:89-118 | The loop ends, and stops only at a bad symbol or with less than one cache of input left. |
| `Codec.Workloop` | fuzz/librawspeed/codes/PrefixCodeEncoder/PrefixCodeEncoder.cpp:79-134 | The fuzzer never fails on a buffer of at least 4 bytes, or 8 for JPEG: both buffers are decoded once more, without an exception, to the same values. |
| `Codec.MakeBackend` | fuzz/librawspeed/codes/PrefixCodeEncoder/PrefixCodeEncoder.cpp:165-202 | Setting up any of the decoders fails exactly for differences of more than 16 bits; only the bit-serial one needs a canonical code. |
| `Codec.MakeHuffmanCode` | fuzz/librawspeed/codes/PrefixCodeDecoder/Common.h:76-100 | A code from counts and values, as the fuzzers make it: exactly when both are accepted, and which values it takes. |
| `Codec.CodecOfTable` | src/librawspeed/codes/HuffmanCode.h:99-171 | From a table to a decoded list, for every table, decoder, order and setting: set up exactly if the table is within the budget, there are enough values and none is too large or, for full decoding, above 16; then the list comes back, but for differences of more than 16 bits. |
| `Codec.CodecOfCode` | src/librawspeed/codes/PrefixCodeVectorEncoder.h:79-90 | The same from a verified code: it fails exactly if a value is no category although differences are to be decoded. |
| `Codec.CodecOfSymbols` | src/librawspeed/codes/PrefixCode.h:50-67 | The same from any list of symbols: accepted exactly if it is ordered, free of common prefixes and as long as the list of values; the codes need not be canonical. |
| `RangeSets.OverlapIsCommonElement` | src/librawspeed/adt/Range.h:61-77 | Two non-empty ranges overlap exactly if they share an element. |
| `RangeSets.OverlapOfEmpty` | src/librawspeed/adt/Range.h:61-77 | An empty range overlaps exactly what begins at its place, and what it lies strictly inside of. |
| `RangeSets.NeighboursDecide` | src/librawspeed/adt/NORangesSet.h:42-57 | In a sorted set without overlaps, the two neighbours overlap the new range if any member does. |
| `RangeSets.NORangesSet.RangeIsOverlappingExistingElementOfSortedSet` | src/librawspeed/adt/NORangesSet.h:35-58 | The neighbour check equals the comparison with all ranges. |
| `RangeSets.NORangesSet.PartitionPoint` | src/librawspeed/adt/NORangesSet.h:42-45 | The first element that is not less than the new one. |
| `RangeSets.NORangesSet.Insert` | src/librawspeed/adt/NORangesSet.h:61-69 | Refused exactly if some stored range overlaps; otherwise the range is added, and every range of the set begins after the earlier ones and not before they end. |
| `RangeSets.InsertAll` | src/librawspeed/adt/NORangesSet.h:61-69 | After any run the set holds exactly what first come, first served keeps. |
| `RangeSets.KeptIsMaximal` | src/librawspeed/adt/NORangesSet.h:61-69 | What a run keeps is free of overlaps, and whatever it refuses overlaps something kept. |
| `FloatingPoint.NormalNeeds` | src/librawspeed/common/FloatingPoint.h:114-118 | A normal number needs the same exponent above the other bias, and the fraction moved up. |
| `FloatingPoint.ExtendNormal` | src/librawspeed/common/FloatingPoint.h:114-118 | A normal number keeps its value if and only if that exponent is in the range of the wide format. |
| `FloatingPoint.SpecialIsKept` | src/librawspeed/common/FloatingPoint.h:120-123 | Infinities and NaNs keep class, sign and payload. |
| `FloatingPoint.ZeroIsKept` | src/librawspeed/common/FloatingPoint.h:124-128 | Zeros keep their sign. |
| `FloatingPoint.Normalise` | src/librawspeed/common/FloatingPoint.h:130-140 | The loop terminates; it shifts as often as the leading one is away and takes each shift from the 32-bit exponent. |
| `FloatingPoint.ShiftUp` | src/librawspeed/common/FloatingPoint.h:130-137 | The loop itself: it ends with the leading one in place, and has taken exactly that many shifts from the exponent, modulo 2 to the 32. |
| `FloatingPoint.SubnormalNeeds` | src/librawspeed/common/FloatingPoint.h:129-140 | A subnormal number needs an exponent that is lower by one for each shift. |
| `FloatingPoint.NeverWithoutLeadingOne` | src/librawspeed/common/FloatingPoint.h:136-139 | A fraction without its leading one stands for no normal value, whatever its exponent: a number that ends up subnormal is wrong. |
| `FloatingPoint.RepresentableIff` | src/librawspeed/common/FloatingPoint.h:141-144 | Whatever a wrapped exponent leaves in the exponent field and the sign, the value is right if and only if the exponent that is needed was in range. |
| `FloatingPoint.ExtendSubnormal` | src/librawspeed/common/FloatingPoint.h:129-144 | A subnormal number is exact if and only if the shifts fit into the difference of the biases. |
| `FloatingPoint.ExtendBinaryFloatingPoint` | src/librawspeed/common/FloatingPoint.h:107-145 | For all pairs of formats that the shift of the fraction allows, with more exponent bits or with fewer, and for all inputs: the meaning is kept if and only if there is room. |
| `FloatingPoint.ExactForAllIff` | src/librawspeed/common/FloatingPoint.h:134 | The precondition that the source asks about: all inputs are exact if and only if the biases differ by at least the narrow fraction width. |
| `FloatingPoint.NoRoomExample` | src/librawspeed/common/FloatingPoint.h:134 | Two formats and an input whose widened form means something else. The library instantiates no such formats. |
| `FloatingPoint.UsesAreExact` | src/librawspeed/common/FloatingPoint.h:147-157 | Both conversions of the library are exact. |
| `FloatingPoint.MeaningOf16` | src/librawspeed/common/FloatingPoint.h:62-69 | What the fields of the format mean is the value in plain numbers: 1, 5 and 10 bits, 1024 for the leading one and 2 to the -24 for the last place. |
| `FloatingPoint.Fp16ToFloat` | src/librawspeed/common/FloatingPoint.h:148-151 | binary16 to binary32 keeps the value of every input, read off both patterns by division: sign, exponent and fraction, from subnormal numbers to infinities and NaNs with their payloads. |
| `FloatingPoint.Fp24ToFloat` | src/librawspeed/common/FloatingPoint.h:154-157 | The same from binary24 to binary32. |
| `ColorFilterArrays.ColorFilterArray.SetColorAt` | src/librawspeed/metadata/ColorFilterArray.cpp:206-212 | Sets the colour of one entry and of all its repetitions, and no other; fails exactly outside the pattern. |
| `ColorFilterArrays.ColorFilterArray.GetColorAt` | src/librawspeed/metadata/ColorFilterArray.cpp:72-82 | The colour at any coordinate, negative ones included; the remainders of the source are the positive ones. |
| `ColorFilterArrays.ColorFilterArray.ShiftRight` | src/librawspeed/metadata/ColorFilterArray.cpp:96-112 | Every coordinate has the colour that was so many columns to its right, for any number, negative ones included. |
| `ColorFilterArrays.ColorFilterArray.ShiftDown` | src/librawspeed/metadata/ColorFilterArray.cpp:114-130 | The same for rows. |
| `ColorFilterArrays.ShiftTwice` | test/librawspeed/metadata/ColorFilterArrayTest.cpp:308-314 | One shift after the other is a shift by the sum. |
| `ColorFilterArrays.ShiftBack` | src/librawspeed/metadata/ColorFilterArray.cpp:96-130 | Shifting back restores the pattern, entry by entry. |
| `ColorFilterArrays.ColorFilterArray.GetDcrawFilter` | src/librawspeed/metadata/ColorFilterArray.cpp:242-268 | The filter tells the colour of every pixel of a small pattern (one or two columns; one, two, four or eight rows); the two bits of a pixel are 0 for red and Fuji green, 1 for green and magenta, 2 for blue and cyan, 3 for yellow and white; it throws exactly if a colour is unknown, and is 9 or 1 for other sizes. |
| `ColorFilterArrays.FilterIsUnique` | src/librawspeed/metadata/ColorFilterArray.cpp:255-267 | A pattern has one filter. |
| `ColorFilterArrays.SwapDigits` | src/librawspeed/metadata/ColorFilterArray.cpp:148-158 | One round of the exclusive-or trick swaps the two pixels of a nibble and changes no other. |
| `ColorFilterArrays.RotateDigits` | src/librawspeed/metadata/ColorFilterArray.cpp:163-167 | The rotation moves the rows, around the end of the 32 bits. |
| `ColorFilterArrays.ShiftDcrawFilter` | src/librawspeed/metadata/ColorFilterArray.cpp:143-170 | Defined exactly if nothing overflows and the rows are not a negative multiple of eight, which would shift by 32 bits; then the result tells, for every pixel, the colour that was so many columns and rows away. |
| `ColorFilterArrays.ShiftBothWays` | test/librawspeed/metadata/ColorFilterArrayTest.cpp:317-336 | Shifting the pattern and encoding it gives what shifting its encoding gives: for all small patterns, and all shifts for which the latter is defined. |
| `ColorFilterArrays.SmallFilterIff` | src/librawspeed/metadata/ColorFilterArray.cpp:242-250 | Which patterns have one of the filters below 16, among them those that are also used for patterns without an encoding. |
| `ColorFilterArrays.SmallerIsAdjusted` | src/librawspeed/common/RawImage.cpp:191-195 | No small pattern but those of 2 by 8 is mistaken for one without an encoding. |
| `ColorFilterArrays.MistakenIsNotUniform` | src/librawspeed/common/RawImage.cpp:191-195 | The small patterns that are mistaken change with a crop by one column. |
| `ColorFilterArrays.MistakenExample` | src/librawspeed/common/RawImage.cpp:191-195 | A pattern that is mistaken: one green pixel, fifteen red ones. A move by one column changes it. |
| `ColorFilterArrays.NeverMistakenIff` | src/librawspeed/common/RawImage.cpp:191-195 | From the filter of a small pattern one can tell whether some crop makes it look like a mistaken one: exactly if it is 1, 4, 6 or 9 moved by whole rows. |
| `ColorFilterArrays.FilterOfMistaken` | src/librawspeed/metadata/ColorFilterArray.cpp:242-268 | If the pattern seen from somewhere has a filter below 16, its own filter is that one with its columns swapped or not, moved by rows. |
| `ColorFilterArrays.MistakenLaterExample` | src/librawspeed/common/RawImage.cpp:191-195 | A pattern that is shifted as it should be, and mistaken once it has been. |
| `RawImages.EveryCropIsRightIff` | src/librawspeed/common/RawImage.cpp:191-195 | Every crop of a pattern moves all colours with it if and only if the pattern is shifted or is uniform; among the small patterns, if and only if it is shifted, that is, if its encoding is neither 1 nor 9. |
| `RawImages.RawImage.SubFrame` | src/librawspeed/common/RawImage.cpp:175-199 | Throws exactly for empty crops, and for a crop that fits when a colour of its small filter is unknown; a crop that fits is added to the offset, any other one is skipped; what becomes of the colour filter. |
| `RawImages.RawImage.AdjustFilter` | src/librawspeed/common/RawImage.cpp:191-195 | The colour filter is shifted exactly if it is small and its encoding is neither 1 nor 9; then every colour moves with the crop. |
| `RawImages.ColorsFollowOn` | src/librawspeed/common/RawImage.cpp:191-198 | Crops one after the other leave the colour of every place on the sensor unchanged, for all small patterns that are mistaken from nowhere. |
| `RawImages.EveryRunIsRightIff` | src/librawspeed/common/RawImage.cpp:191-198 | All lists of crops move the colours with them if and only if the pattern looks like a mistaken one from nowhere, or is uniform. Any other pattern goes wrong with one crop or two. |
| `RawImages.AfterCropsFollow` | src/librawspeed/common/RawImage.cpp:191-198 | What any list of crops makes of the filter, of any pattern, keeps the colours in place in that case. |
| `RawImages.CropPastMistake` | src/librawspeed/common/RawImage.cpp:175-199 | Two crops by one column each, of an image whose filter is mistaken after the first: the crop has moved by two columns, the filter by one. |
| `RawImages.RawImage.GetImageCropAsRectangle` | src/librawspeed/common/DngOpcodes.cpp:60-83 | Converting to buffer columns and back gives the crop. |
| `RawImages.RawImage.FixBadPixelsConstant` | src/librawspeed/common/DngOpcodes.cpp:172-183 | Appends, in ascending order and once each, the positions on the sensor of exactly those pixels of the crop that have the value. |
| `RawImages.PositionOfPixel` | src/librawspeed/common/DngOpcodes.cpp:176-180 | The two numbers that are or-ed together and added are the position of the pixel on the sensor; nothing carries over. |
| `RawImages.PositionIsDecoded` | src/librawspeed/common/RawImage.cpp:218-223 | Column and row are found again in a position. |
| `DngOpcodes.ReadRoi` | src/librawspeed/common/DngOpcodes.cpp:199-224 | Accepted exactly if the unsigned bounds are ordered and inside the crop, also when they wrap to negative numbers. |
| `DngOpcodes.ReadPixelParams` | src/librawspeed/common/DngOpcodes.cpp:362-381 | Which plane and pitch parameters are accepted. |
| `DngOpcodes.ReadTable` | src/librawspeed/common/DngOpcodes.cpp:451-464 | Which tables are accepted; they are extended to 65536 entries with their last one. |
| `DngOpcodes.ReadDeltas` | src/librawspeed/common/DngOpcodes.cpp:563-592 | As many finite deltas as rows or columns are touched, or an error. |
| `DngOpcodes.Construct` | src/librawspeed/common/DngOpcodes.cpp:706-724 | An entry is constructed exactly if its region, planes, pitches, table or deltas are acceptable for the crop; what is constructed fits that crop, and holds what the entry says: kind, rows or columns, region, planes, pitches, table and deltas; when an opcode is unknown, unsupported or skipped. How much it reads is what the opcode holds, and when that uses the entry up. |
| `DngOpcodes.BuildOpcodes` | src/librawspeed/common/DngOpcodes.cpp:693-730 | A list is accepted exactly if each entry is acceptable for the crop that the entries before it lead to, and has exactly the words, table entries and floats that its opcode reads. The opcodes are those of the list, in order, without the skipped ones, and every one was checked against the crop that the ones before it leave behind. |
| `DngOpcodes.ColumnsOfPixel` | src/librawspeed/common/DngOpcodes.cpp:395-407 | The buffer columns computed for a pixel belong to it and to the selected planes, and to no other pixel. |
| `DngOpcodes.PixelInCrop` | src/librawspeed/common/DngOpcodes.cpp:398-403 | No column leaves the crop, for any pitch, plane count and region. |
| `DngOpcodes.RowInCrop` | src/librawspeed/common/DngOpcodes.cpp:398-403 | No row does. |
| `DngOpcodes.ApplyOP` | src/librawspeed/common/DngOpcodes.cpp:387-408 | Exactly the selected pixels are replaced, each once, by what the operation makes of its coordinates and value; every access is in bounds. |
| `DngOpcodes.DeltaArithmeticFits` | src/librawspeed/common/DngOpcodes.cpp:599-660 | Accepted deltas convert to small integers, which is what the arithmetic on pixels requires: no 32-bit result of a run overflows. |
| `DngOpcodes.ValueIsOkIff` | src/librawspeed/common/DngOpcodes.cpp:599-645 | A delta is let through exactly if it is usable: an offset of at most the range of a pixel, or a factor that is not negative and keeps every scaled and rounded pixel within an int. |
| `DngOpcodes.NewU16Means` | src/librawspeed/common/DngOpcodes.cpp:606-660 | What an opcode makes of an integer pixel, in numbers only: with the delta of its row, or of its column, cut off towards zero, the nearest pixel value to the sum, or the product in units of 1024, rounded; pixels and planes that are not selected keep their value. |
| `DngOpcodes.NewF32Means` | src/librawspeed/common/DngOpcodes.cpp:616-667 | And of a floating point pixel: the sum with, or the product by, the delta of its row or column. |
| `DngOpcodes.ApplyToU16` | src/librawspeed/common/DngOpcodes.cpp:616-660 | On integer images every selected entry becomes what table, offset or scale make of it, said both by the function that runs are composed of and in numbers; the 32-bit arithmetic stays in range. |
| `DngOpcodes.Setup` | src/librawspeed/common/DngOpcodes.cpp:539-553 | Requires the tracked crop; succeeds exactly on supported images with acceptable deltas, which it converts. |
| `DngOpcodes.Apply` | src/librawspeed/common/DngOpcodes.cpp:616-667 | One opcode: the new crop, the new pixels (in numbers, too), the new colour filter, the recorded bad pixels, and when it throws. Every index into the deltas is in bounds. |
| `DngOpcodes.RunOpcode` | src/librawspeed/common/DngOpcodes.cpp:736-741 | One step of the run keeps the image what the opcodes so far make of it. |
| `DngOpcodes.ApplyOpCodes` | src/librawspeed/common/DngOpcodes.cpp:736-741 | Before each step the crop is the tracked one, until an opcode throws; it succeeds exactly if every opcode can run, and then every pixel is the composition of the opcodes, and the colour filter is what its crops make of it, for every pattern; the colours have moved with the crop if the pattern is small and mistaken from nowhere. Recorded bad pixels are only ever added to. |
| `DngOpcodes.MovesAddUp` | src/librawspeed/common/DngOpcodes.cpp:337-343 | The crops of a list of opcodes lie inside, and their corners add up to how far the corner of the image has moved. |

## Left out

- BinaryPrefixTree.Tree.Add: descends by recursion where the source walks with a loop; the nodes are on the
  heap and are changed in place as there.
- LutDecoder.PrefixCodeLUTDecoder.Decode: the table is filled by the constructor, from a backend that has
  been set up, where the source does both in `setup`; the throw for an index outside the table is left out,
  because `LutDecoder.FillRange` proves that it is never reached.
- DngOpcodes.Construct: does not model the list of bad pixels, which works in uncropped coordinates, and
  answers `NotModelled` for it; the table of a polynomial is an input, already evaluated; an opcode stream is
  split into words, table entries and floats beforehand.
- DngOpcodes.Apply: floating point arithmetic is exact arithmetic over the reals; the opcode objects are
  values, with the converted deltas passed from `Setup`.
- DngOpcodes.Setup: compares and converts deltas as reals; rounding in `float` and `double` is not modelled.
- DngOpcodes.DeltaArithmeticFits: the product of a delta and its scale is exact, where the source rounds it to
  `float` before it converts it.
- FloatingPoint.ExtendBinaryFloatingPoint: the wide fraction is at least as wide as the narrow one, as the
  shift by their difference demands; nothing is said about the converse conversion.
- ColorFilterArrays.ColorFilterArray.constructor: takes sizes that `setSize` accepts; an array whose size was
  refused with an exception is not modelled.
- The overflow of `int` positions within streams, which takes buffers of almost 2 GiB: positions there are
  unbounded.
- `decodeCodeValue`, `decodeDifference` and the compile-time `FULL_DECODE` flag: one `Decode` reads the
  setting instead.
- The state of a stream after a rejected symbol: it is valid, but its position is not specified, and the
  decoders differ in it.
- The destructor of the vacuumer: `Flush` is called explicitly.
- `DummyPrefixCodeDecoder`, which always returns 0.
- Camera decoders, decompressors and their metadata; `Buffer` and `ByteStream`.
- Pixel processing in `RawImageDataU16` and `RawImageDataFloat`, table lookups with dithering, splines.
- The remaining rectangle helpers, rounding helpers and bit reversals, which are settled by one branch each.
- Threads, locks, sanitizer annotations and benchmarks.
