# Verified models: Snappy codec, CryptoNote Base58, blocking queue, pool updates

Four parts of the repository are modelled here and proved correct.

**Snappy** (`SnappyFormat`, `StrictFormat`, `IncrementalCopy`, `FlatWriter`, `IOVec`, `Scattered`,
`DecompressionWriter`, `ByteSource`, `CharTable`, `Varint`, `Decompressor`, `Uncompress`, `Bits`, `MatchLength`,
`Emit`, `Greedy`, `CompressFragment`, `Compress`). `SnappyFormat.Decode` is a reference decoder: a dozen lines that say what
a stream means. Everything else is the code as it is written, on arrays and objects, and is measured against it.
Each of the four decompression entry points accepts exactly the streams the reference decoder accepts and
produces exactly its bytes, however the source cuts its data into regions. Compression stays within the promised
size, and its output decodes to its input if and only if the input is shorter than 2^32 bytes.
`Greedy` says which positions of a block the compressor looks at, what it compares them to and what it emits,
without the hash table; the compressor emits exactly that, so input and hash function decide every byte.
`Compress.RoundTrip` puts the two ends together, for every input, hash function and way of cutting.

**Base58** (`Base58`, `Base58Code`). The two conversions on values, the bijection between byte strings and
accepted strings, and the code with its tables, 64-bit arithmetic and overflow tests, which computes exactly
those conversions.

**The blocking queue** (`BlockingQueue`). Any number of threads push, pop and close; waits, notifications and
spurious wakeups are steps. Proved over all runs: first-in first-out order, what every answer means, no lost
wakeup, no deadlock, and that threads left to themselves come to rest within a bounded number of steps.

**Pool updates** (`PoolView`, `PoolUpdate`, `PoolRuns`, `PoolStuck`, `PoolRest`). Any number of `poolChanged` calls and
callbacks interleave, each a frame with its scope handler, at the level of single atomic accesses and single
operations on handlers and the mutex; the node calls back on another thread or on the caller's. Proved over all
runs: one update at a time, each begun update ended by exactly one handler, no notification lost, and that the
explorer's picture catches up with the node's pool. Where the code falls short, the exact condition is proved: when
a thread comes to wait for itself, which runs can come to rest, and which of those only after another re-run.

The `Writer` class stands for the writer template parameter of the decompressor, with its four instances as
constructors. A hash function is any function into the table's range, so results hold for the
repository's and for every other. A source chooses the length of each region nondeterministically. Where the
code walks pointers, the model keeps an array and an index, and Dafny's index checks show that no access
leaves the array.

Where the code does not do what it or its documentation says:

- `CompressFragment` documents that its output buffer holds `MaxCompressedLength` of its block. For the first block
  of an input of 1 to 65537 bytes `Compress` leaves it less, and for every other block it leaves enough
  (`Compress.DocumentedRoom`; `ShortOfDocumentedRoom` is the input of 65537 bytes). `CompressFragment.Compress` is
  proved for a buffer five bytes shorter, so the size `RawCompress` promises is kept.
- By the format a literal's stored length is one less than its length, and no stream can announce the 2^32 bytes
  that the largest stored length stands for. The decoder adds the one in 32 bits and takes it for an empty literal,
  so it accepts streams that the format rejects. `StrictFormat.StrictDecodes` says exactly which, and
  `WrappingStream` is one of them. Compression never produces one.
- `IncrementalCopy` says it also handles lengths other than 4 to 64. Above 64 it stops short in the unrolled
  branch; `Fast` and `FallsShort` say exactly when, and `FallsShortAt73` is a call. No tag asks for more than 64, so decompression is unaffected.
- A refused `poolChanged` call is followed by another run, but not always after it returns: in the run of
  `PoolRuns.RefusedTooLate` everything is at rest by then, and after the run of `PoolRest.RefusedAndStuck` no run ever
  follows, because a thread waits for itself. `PoolRest.RerunCertain` says exactly when there is a way to rest and
  every such way contains another run, and `DoomedNoRerun` that none follows where there is no way to rest.
- A node may call back from inside the request, on the thread that holds the mutex; both nodes of the repository do
  when they are not initialised (src/InProcessNode/InProcessNode.cpp:825-828, src/NodeRpcProxy/NodeRpcProxy.cpp:586-588).
  If an update is demanded when that callback ends its own, the thread can come to wait for the mutex it holds, and
  then no update ever ends again. `PoolStuck.StuckRun` is such a run, `StuckExactlyIfDemanded` says exactly when,
  `StuckForGood` what follows, and `NeverStuck` that it takes such a callback.

## Model

| member | source | states |
|---|---|---|
| `SnappyFormat.CopyFromSelf` | external/snappy/snappy.cc:139-161 | an overlapping copy keeps what was produced, has the asked length, and every new byte equals the one `offset` before it |
| `SnappyFormat.CopyFromSelfUnique` | external/snappy/snappy.cc:139-161 | periodicity determines the copy: nothing else of that length extends the output that way |
| `SnappyFormat.CopyFromSelfSplit` | external/snappy/snappy.cc:399-428 | a copy of m + n bytes is a copy of m followed by a copy of n, even when they overlap |
| `SnappyFormat.CopyFromSelfDisjoint` | external/snappy/snappy.cc:1207-1215 | a copy no longer than its offset appends a plain slice |
| `SnappyFormat.CopyFromSelfSuffix` | external/snappy/snappy.cc:1010-1062 | a copy that stays inside a suffix is not changed by what lies in front of it |
| `SnappyFormat.ExtraBytes` | external/snappy/snappy-internal.h:182-194 | at most four bytes follow a tag byte |
| `SnappyFormat.RunTag` | external/snappy/snappy.cc:838-905 | an element takes at least its tag and never more than the stream has, and only extends the output |
| `SnappyFormat.RunOneConcat` | external/snappy/snappy.cc:838-905 | an element does the same whatever follows it in the stream |
| `SnappyFormat.RunTagsConcat` | external/snappy/snappy.cc:1010-1062 | running two runs of tags in sequence is running their concatenation |
| `SnappyFormat.RunTagsShift` | external/snappy/snappy.cc:1010-1062 | tags that run from nothing run the same way behind anything, so blocks can be strung together |
| `SnappyFormat.AcceptTooLong` | external/snappy/snappy.cc:1285-1298 | an output that has passed the limit is never accepted |
| `SnappyFormat.AcceptLiteral` | external/snappy/snappy.cc:853-887 | a literal is refused if the stream or the room is short, and otherwise moves its bytes to the output |
| `SnappyFormat.AcceptLiteralMoved` | external/snappy/snappy.cc:872-887 | moving the literal's bytes from the stream to the output in any portions leaves the outcome the same |
| `SnappyFormat.AcceptCopy` | external/snappy/snappy.cc:889-904 | a copy is refused for offset 0, an offset past the start, or too little room, and otherwise extends the output |
| `SnappyFormat.AcceptTruncated` | external/snappy/snappy.cc:941-949 | a stream that ends inside a tag is refused |
| `StrictFormat.TagsAgree` | external/snappy/snappy.cc:863-870 | the decoder and the format read every tag alike but one, whose length the decoder wraps around to zero |
| `StrictFormat.StrictRuns` | external/snappy/format_description.txt:46-59 | without that tag both readings produce the same; with it the format's reading fails or produces 2^32 bytes or more |
| `StrictFormat.StrictDecodes` | external/snappy/format_description.txt:18-59 | for every stream: the format rejects it if an element has that tag, and otherwise agrees with the decoder, so what the decoder rejects the format rejects, and an accepted stream means the same to both exactly without that tag |
| `StrictFormat.NoWrapConcat` | external/snappy/snappy.cc:1010-1062 | stringing runs of tags together adds no such tag |
| `StrictFormat.WrappingStream` | external/snappy/snappy.cc:863-870 | a stream of six bytes that the decoder accepts as empty and the format rejects |
| `IncrementalCopy.Slow` | external/snappy/snappy.cc:149-161 | the byte loop leaves the periodic extension and writes only its range |
| `IncrementalCopy.UnalignedCopy64` | external/snappy/snappy.cc:124-128 | of eight bytes copied at once, as many as one period holds agree with the periodic extension; nothing else changes |
| `IncrementalCopy.PeriodDoubles` | external/snappy/snappy.cc:262-268 | a sequence with period d from some point has period 2d from d later |
| `IncrementalCopy.ExpandPattern` | external/snappy/snappy.cc:255-271 | doubling makes the distance at least eight, writes nothing at or past op + 11, and keeps the extension |
| `IncrementalCopy.CopyUnrolled` | external/snappy/snappy.cc:276-304 | the four 2x8 copies leave the extension up to the end or for 64 bytes, and write at most sixteen bytes past the end |
| `IncrementalCopy.CopyWithSlop` | external/snappy/snappy.cc:306-329 | the loop that watches the slop, its eight-byte step and its byte tail leave the extension for any length |
| `IncrementalCopy.Reach` | external/snappy/snappy.cc:222-304 | how far the copy gets; always to the end for lengths up to 64 |
| `IncrementalCopy.Branches` | external/snappy/snappy.cc:222-330 | whichever branch is taken, the extension is left as far as the copy reaches and nothing at or past the buffer limit changes |
| `IncrementalCopy.Fast` | external/snappy/snappy.cc:183-330 | for every offset, length and slop, the fast copy leaves the abstract copy as far as it reaches, keeps what lies before, and writes nothing at or past the limit |
| `IncrementalCopy.FallsShort` | external/snappy/snappy.cc:193-195 | whenever it does not reach the end, some buffer contents make the result wrong, so the calls it serves are exactly those that reach |
| `IncrementalCopy.FallsShortAt73` | external/snappy/snappy.cc:283-304 | a call for 65 bytes that copies 64 |
| `FlatWriter.ArrayWriter.constructor` | external/snappy/snappy.cc:1275-1279 | nothing is produced yet |
| `FlatWriter.ArrayWriter.SetExpectedLength` | external/snappy/snappy.cc:1281-1283 | the limit lies the expected length behind what was produced |
| `FlatWriter.ArrayWriter.CheckLength` | external/snappy/snappy.cc:1285-1287 | true exactly when as much was produced as expected |
| `FlatWriter.ArrayWriter.Append` | external/snappy/snappy.cc:1289-1298 | accepts exactly what fits, and appends it |
| `FlatWriter.ArrayWriter.TryFastAppend` | external/snappy/snappy.cc:1300-1311 | taken exactly for up to sixteen bytes with sixteen to spare in the output and a tag more than that in the input; then appends just the literal although it copies sixteen bytes, and otherwise nothing |
| `FlatWriter.ArrayWriter.AppendFromSelf` | external/snappy/snappy.cc:1313-1327 | accepts exactly offsets from 1 to what was produced that fit, by one unsigned comparison, and appends the copy as far as it reaches, always whole up to 64 bytes |
| `FlatWriter.Validator.Append` | external/snappy/snappy.cc:1373-1376 | counts an append and accepts it exactly when it fits |
| `FlatWriter.Validator.AppendFromSelf` | external/snappy/snappy.cc:1380-1386 | counts a copy and accepts it exactly when the flat writer would |
| `FlatWriter.Validator.CheckLength` | external/snappy/snappy.cc:1370-1372 | true exactly when as much was counted as expected |
| `IOVec.StartsMonotone` | external/snappy/snappy.cc:1136-1158 | later buffers start no earlier in the output |
| `IOVec.IOVecWriter.constructor` | external/snappy/snappy.cc:1105-1118 | nothing is produced, for any list of distinct buffers, none included |
| `IOVec.IOVecWriter.CheckLength` | external/snappy/snappy.cc:1124-1126 | true exactly when as much was produced as expected |
| `IOVec.IOVecWriter.NextBuffer` | external/snappy/snappy.cc:1138-1146 | moving on when a buffer is full changes no produced byte |
| `IOVec.IOVecWriter.AppendSome` | external/snappy/snappy.cc:1138-1155 | one round appends a prefix of the bytes, or moves on, or finds the buffers full |
| `IOVec.IOVecWriter.AppendNoCheck` | external/snappy/snappy.cc:1136-1158 | appends all bytes exactly when the buffers have room for them |
| `IOVec.IOVecWriter.Append` | external/snappy/snappy.cc:1128-1134 | accepts exactly what fits the limit and the buffers, and appends it |
| `IOVec.IOVecWriter.TryFastAppend` | external/snappy/snappy.cc:1160-1173 | taken exactly when, besides, the current vector has sixteen bytes left; appends just the literal and leaves a whole tag in the input, or appends nothing |
| `IOVec.IOVecWriter.Locate` | external/snappy/snappy.cc:1186-1201 | walking back over buffers, empty ones included, finds the byte `offset` before the end of the output |
| `IOVec.IOVecWriter.CopyAcross` | external/snappy/snappy.cc:1207-1215 | a piece from an earlier buffer extends the copy by as much as was taken |
| `IOVec.IOVecWriter.CopyWithin` | external/snappy/snappy.cc:1228-1239 | a piece from the current buffer, overlapping or not, extends the copy as far as it reaches, and always if it fills the buffer |
| `IOVec.IOVecWriter.CopyRound` | external/snappy/snappy.cc:1203-1241 | each round extends the copy and keeps the source at the right distance |
| `IOVec.IOVecWriter.CopyLoop` | external/snappy/snappy.cc:1203-1241 | the rounds end, and together make the abstract copy, of which only the last piece can stop short |
| `IOVec.IOVecWriter.AppendFromSelf` | external/snappy/snappy.cc:1175-1244 | refuses what the flat writer refuses; with large enough buffers accepts the rest and appends the abstract copy, whole up to 64 bytes, and above as far as its last piece reaches |
| `IOVec.IOVecWriter.ShortCopied` | external/snappy/snappy.cc:1203-1241 | no piece stops short of a copy of up to 64 bytes |
| `IOVec.IOVecWriter.OutIsPrefix` | external/snappy/snappy.cc:1076-1247 | what was produced is the front of the concatenated buffers |
| `Scattered.ScatteredWriter.Size` | external/snappy/snappy.cc:1450-1452 | the sizes of the full blocks and the last one add up to what was produced |
| `Scattered.ScatteredWriter.SetExpectedLength` | external/snappy/snappy.cc:1466-1469 | sets the limit before any block exists |
| `Scattered.ScatteredWriter.CheckLength` | external/snappy/snappy.cc:1471-1473 | true exactly when as much was produced as expected |
| `Scattered.ScatteredWriter.ByteAt` | external/snappy/snappy.cc:1572 | splitting a position into block number and rest finds the produced byte at that position |
| `Scattered.ScatteredWriter.NewBlock` | external/snappy/snappy.cc:1541-1547 | a new block keeps all others at the block size and the produced bytes the same |
| `Scattered.ScatteredWriter.FillAndOpen` | external/snappy/snappy.cc:1528-1547 | fills a block with a prefix of the bytes and opens the next, unless too much was promised |
| `Scattered.ScatteredWriter.SlowAppend` | external/snappy/snappy.cc:1524-1553 | accepts exactly what fits, across any number of blocks, and appends it |
| `Scattered.ScatteredWriter.Append` | external/snappy/snappy.cc:1480-1490 | accepts exactly what fits, and appends it |
| `Scattered.ScatteredWriter.TryFastAppend` | external/snappy/snappy.cc:1492-1504 | taken exactly when, besides, the current block has sixteen bytes left; appends just the literal and leaves a whole tag in the input, or appends nothing |
| `Scattered.ScatteredWriter.CopyInside` | external/snappy/snappy.cc:1510-1515 | the fast path appends the abstract copy inside the last block if it reaches the end |
| `Scattered.ScatteredWriter.CopyByte` | external/snappy/snappy.cc:1572-1574 | one byte of the slow copy extends the output by one byte of the abstract copy, even into a new block |
| `Scattered.ScatteredWriter.SlowAppendFromSelf` | external/snappy/snappy.cc:1555-1577 | accepts exactly what the flat writer accepts and appends the copy across blocks |
| `Scattered.ScatteredWriter.AppendFromSelf` | external/snappy/snappy.cc:1506-1517 | the same, with its fast path, which alone may stop short of a copy of more than 64 bytes |
| `Scattered.ScatteredWriter.Flush` | external/snappy/snappy.cc:1595-1605 | the sink gets exactly what was produced |
| `DecompressionWriter.Writer.SetExpectedLength` | external/snappy/snappy.cc:677-715 | a fresh writer of any kind becomes ready with that limit |
| `DecompressionWriter.Writer.CheckLength` | external/snappy/snappy.cc:677-715 | every kind of writer says whether exactly the limit was produced |
| `DecompressionWriter.Writer.Append` | external/snappy/snappy.cc:677-715 | every kind with room for what was announced accepts exactly what fits, and appends it |
| `DecompressionWriter.Writer.TryFastAppend` | external/snappy/snappy.cc:677-715 | taken exactly when the kind of writer has room to store sixteen bytes, never by the validating one; appends at most sixteen bytes and leaves five in the input |
| `DecompressionWriter.Writer.AppendFromSelf` | external/snappy/snappy.cc:677-715 | every kind with room for what was announced accepts exactly the same copies, and then produces the same bytes for any length a tag can ask for |
| `DecompressionWriter.Writer.ShortOfRoom` | external/snappy/snappy.cc:1124-1126 | a writer without that room never produces all that was announced |
| `ByteSource.Source.Peek` | external/snappy/snappy-sinksource.h:119-132 | hands out some front part of the rest, empty exactly at the end |
| `ByteSource.Source.Skip` | external/snappy/snappy-sinksource.h:134-137 | moves on, and invalidates the regions handed out |
| `CharTable.TableIsFormat` | external/snappy/snappy-internal.h:182-226 | all 256 table entries pack the length, offset part and extra bytes that the format gives that tag byte |
| `CharTable.EntryFields` | external/snappy/snappy.cc:890-899 | the shifts and masks take every entry apart into exactly the extra bytes, copy length and offset of its tag |
| `Varint.Encode32` | external/snappy/snappy-stubs-internal.h:552-578 | the five cases write the canonical digits |
| `Varint.EncodedParses` | external/snappy/snappy-stubs-internal.h:530-578 | an encoded number reads back, whatever follows it |
| `Varint.EncodedLength` | external/snappy/snappy-stubs-internal.h:510-511 | 32 bits take one to five digits |
| `Varint.EncodedMinimal` | external/snappy/snappy-stubs-internal.h:552-578 | 7, 14, 21 and 28 bits are where another digit is needed, and only there |
| `Varint.HeaderRoundTrip` | external/snappy/snappy-stubs-internal.h:530-578 | every number below 2^32 makes a header that says that number, and the rest follows it |
| `Varint.LeftShiftOverflows` | external/snappy/snappy.cc:730-738 | true exactly when the shifted digit loses bits of a 32-bit word |
| `Varint.ReadStep` | external/snappy/snappy.cc:784-799 | one more digit keeps the value read so far right |
| `Varint.ReadStops` | external/snappy/snappy.cc:785-788 | stopping at the end or after five digits means there is no header |
| `Varint.Parse32WithLimit` | external/snappy/snappy-stubs-internal.h:530-550 | accepts exactly the streams with a header, and returns its value and length |
| `Decompressor.LowBytes` | external/snappy/snappy.cc:717-728 | a four-byte load masked to n bytes is the little-endian value of those n bytes, whatever lies behind |
| `Decompressor.ShortLiteral` | external/snappy/snappy.cc:854-857 | a short literal's length is all in its tag byte |
| `Decompressor.LiteralTaken` | external/snappy/snappy.cc:854-862 | taking a short literal from the buffer leaves the outcome of the reference decoder the same |
| `Decompressor.SnappyDecompressor.constructor` | external/snappy/snappy.cc:758-764 | everything the source has is pending |
| `Decompressor.SnappyDecompressor.ReadByte` | external/snappy/snappy.cc:787-790 | takes the first pending byte, or finds none left |
| `Decompressor.SnappyDecompressor.ReadUncompressedLength` | external/snappy/snappy.cc:779-800 | reads exactly the header of the pending bytes, and leaves what follows it; refuses exactly when there is none |
| `Decompressor.SnappyDecompressor.FetchRegion` | external/snappy/snappy.cc:913-922 | moving to the next region changes nothing pending |
| `Decompressor.SnappyDecompressor.MoveToScratch` | external/snappy/snappy.cc:956-960 | so does moving the buffered bytes to the scratch buffer |
| `Decompressor.SnappyDecompressor.StitchSome` | external/snappy/snappy.cc:942-948 | one more piece is stitched on without changing what is pending |
| `Decompressor.SnappyDecompressor.Stitch` | external/snappy/snappy.cc:938-952 | a tag over several regions is put together, or the stream ends inside it |
| `Decompressor.SnappyDecompressor.RefillTag` | external/snappy/snappy.cc:911-966 | afterwards a whole tag is buffered and four more bytes are readable, nothing pending has changed; it fails only at the end, and says whether that is between tags |
| `Decompressor.SnappyDecompressor.PendingTag` | external/snappy/snappy.cc:890-899 | what the buffer shows is the tag at the front of the pending bytes |
| `Decompressor.SnappyDecompressor.AppendBuffered` | external/snappy/snappy.cc:884-887 | appending buffered bytes keeps output and pending bytes together the same |
| `Decompressor.SnappyDecompressor.AppendRegion` | external/snappy/snappy.cc:873-883 | so does appending a whole region and moving to the next |
| `Decompressor.SnappyDecompressor.AppendLiteral` | external/snappy/snappy.cc:872-887 | a literal over any number of regions is appended whole, and refused exactly when stream or room is short |
| `Decompressor.SnappyDecompressor.FastLiteral` | external/snappy/snappy.cc:854-862 | taken exactly when the writer takes it; keeps the outcome of the reference decoder and leaves the next tag ready, or changes nothing |
| `Decompressor.SnappyDecompressor.LiteralLength` | external/snappy/snappy.cc:863-870 | steps over the tag and finds the length it gives |
| `Decompressor.SnappyDecompressor.SlowLiteral` | external/snappy/snappy.cc:863-887 | keeps the outcome, or fails and the outcome is rejection |
| `Decompressor.SnappyDecompressor.CopyFields` | external/snappy/snappy.cc:890-899 | steps over a copy tag and finds the offset and length it gives |
| `Decompressor.SnappyDecompressor.Copy` | external/snappy/snappy.cc:889-904 | keeps the outcome, or fails and the outcome is rejection |
| `Decompressor.SnappyDecompressor.MaybeRefill` | external/snappy/snappy.cc:830-837 | refills only when less than a whole tag is buffered, and always ends with the next tag ready or the stream over |
| `Decompressor.SnappyDecompressor.RefillFailed` | external/snappy/snappy.cc:911-966 | at the end between tags the outcome is what was produced, if it has the expected length; inside a tag it is rejection |
| `Decompressor.SnappyDecompressor.Element` | external/snappy/snappy.cc:838-905 | one element of any kind keeps the outcome and consumes something, or the outcome is rejection |
| `Decompressor.SnappyDecompressor.DecompressAllTags` | external/snappy/snappy.cc:808-908 | the loop ends; it reports the end of the stream with the right length exactly when the reference decoder accepts, and then the writer holds its output |
| `Uncompress.InternalUncompressAllTags` | external/snappy/snappy.cc:979-992 | true exactly when the reference decoder accepts the pending bytes with that length and the buffers hold it, and then the output is the same |
| `Uncompress.InternalUncompress` | external/snappy/snappy.cc:968-977 | for every writer and every cutting of the source: true exactly when `Decode` accepts and the buffers hold the announced length, same output, source consumed |
| `Uncompress.RawUncompress` | external/snappy/snappy.cc:1340-1343 | true exactly when `Decode` accepts; the array then starts with what it produces; accepted or not, nothing behind the announced length is written |
| `Uncompress.RawUncompressToIOVec` | external/snappy/snappy.cc:1255-1259 | true exactly when `Decode` accepts and the buffers together hold the announced length; their concatenation then starts with what it produces |
| `Uncompress.IsValidCompressed` | external/snappy/snappy.cc:1396-1399 | true exactly when `Decode` accepts, hence exactly when the others decompress |
| `Uncompress.UncompressToBlocks` | external/snappy/snappy.cc:1653-1658 | true exactly when `Decode` accepts; the sink then gets exactly what it produces |
| `Bits.OverlappingLoads` | external/snappy/snappy.cc:483-508 | a shifted eight-byte load is the four-byte load at that offset |
| `Bits.XorBytes` | external/snappy/snappy-internal.h:107-131 | a byte of the exclusive or is zero exactly when the words agree in it |
| `Bits.HalvesOfXor` | external/snappy/snappy-internal.h:107-131 | the halves of an eight-byte exclusive or are those of the four-byte words |
| `Bits.ToBv8Injective` | external/snappy/snappy-internal.h:95-143 | different bytes have different bit patterns |
| `Bits.FindLSBSetNonZero` | external/snappy/snappy-stubs-internal.h:475-488 | finds the lowest set bit, and so the lowest non-zero byte |
| `Bits.FindLSBSetNonZero64` | external/snappy/snappy-stubs-internal.h:492-502 | finds it in the bottom half if there is one there, otherwise in the top half |
| `Bits.TopStep` | external/snappy/snappy-stubs-internal.h:459-466 | shifting out more bits keeps the value the top bits of the number |
| `Bits.Log2FloorNonZero` | external/snappy/snappy-stubs-internal.h:454-469 | the exponent of the largest power of two not above the number |
| `MatchLength.FirstDifference32` | external/snappy/snappy-internal.h:157-160 | the lowest non-zero byte of the exclusive or is the first place where the words differ |
| `MatchLength.FirstDifference64` | external/snappy/snappy-internal.h:107-131 | the bit scan finds the first differing byte of eight |
| `MatchLength.FirstMismatch32` | external/snappy/snappy-internal.h:157-160 | the bit scan finds the first differing byte of four |
| `MatchLength.MatchBytes` | external/snappy/snappy-internal.h:134-142 | the byte loop extends a match to the longest one within the limit |
| `MatchLength.FindMatchLength64` | external/snappy/snappy-internal.h:95-143 | returns the longest common prefix within the limit, and whether it is shorter than eight |
| `MatchLength.FindMatchLength32` | external/snappy/snappy-internal.h:145-168 | the same |
| `Bytes.LittleEndianDigits` | external/snappy/snappy-stubs-internal.h:322-362 | the first byte is the lowest digit, and no bytes stand for 0 |
| `Emit.MaxCompressedLength` | external/snappy/snappy.cc:98-120 | 32 bytes and seven sixths of the input, rounded down |
| `Emit.LowBytesRead` | external/snappy/snappy.cc:361-372 | the low bytes of a length read back as that length |
| `Emit.LowBytesReadBack` | external/snappy/snappy-stubs-internal.h:322-362 | the low bytes of any number that fits read back as it, also with leading zero bytes |
| `Emit.ShortLiteralFormat` | external/snappy/format_description.txt:46-54 | literals of up to 60 bytes have their length less one in the upper six bits of the tag |
| `Emit.LongLiteralFormat` | external/snappy/format_description.txt:55-59 | longer ones have it in one to four little-endian bytes behind the tag |
| `Emit.OneByteOffsetFormat` | external/snappy/format_description.txt:89-95 | a copy of 4 to 11 bytes with eleven bits of offset in tag and one byte |
| `Emit.TwoByteOffsetFormat` | external/snappy/format_description.txt:98-103 | a copy of 1 to 64 bytes with a two-byte offset |
| `Emit.FourByteOffsetFormat` | external/snappy/format_description.txt:106-110 | a copy of 1 to 64 bytes with a four-byte offset |
| `Emit.FourByteOffsetRuns` | external/snappy/snappy.cc:889-904 | such a copy is made, although it is never emitted |
| `Emit.FourByteOffsetStream` | external/snappy/snappy_unittest.cc:729-759 | a stream with one decodes to what was copied |
| `Emit.LiteralTagSize` | external/snappy/snappy.cc:334-375 | 60, 2^8, 2^16 and 2^24 bytes are where a literal needs another byte of tag, and only there |
| `Emit.LiteralTagOf` | external/snappy/snappy.cc:334-375 | the decoder reads an emitted literal tag as that length |
| `Emit.LiteralRuns` | external/snappy/snappy.cc:334-375 | running an emitted literal appends its bytes |
| `Emit.CopyTagOf` | external/snappy/snappy.cc:377-397 | the decoder reads an emitted copy tag as that offset and length |
| `Emit.CopyTagRuns` | external/snappy/snappy.cc:377-397 | running an emitted copy tag makes that copy |
| `Emit.CopyRuns` | external/snappy/snappy.cc:399-428 | however a match is split into copies, running them is one copy of the whole length |
| `Emit.LiteralNoWrap` | external/snappy/snappy.cc:334-375 | a literal of a block never has the tag that wraps around |
| `Emit.CopyNoWrap` | external/snappy/snappy.cc:399-428 | nor have copies |
| `Emit.CopyBytesLength` | external/snappy/snappy.cc:399-428 | a match takes three bytes for every 64 or part of it, or one less; a match of less than twelve bytes takes two for offsets below 2048 and three otherwise; copies are shorter than what they produce |
| `Emit.CountFromLog` | external/snappy/snappy.cc:362-364 | the byte count of a length follows from its highest bit |
| `Emit.EmitLongTag` | external/snappy/snappy.cc:361-372 | writes the tag of a long literal although it stores four bytes of length |
| `Emit.EmitLiteral` | external/snappy/snappy.cc:334-375 | writes exactly tag and bytes of the literal; its sixteen-byte store stays inside the buffer |
| `Emit.EmitCopyAtMost64` | external/snappy/snappy.cc:377-397 | writes exactly one copy tag, by branch-free arithmetic and a four-byte store |
| `Emit.EmitCopy` | external/snappy/snappy.cc:399-428 | writes exactly the copies of a match of any length |
| `Greedy.Gap` | external/snappy/snappy.cc:574-585 | within 32 bytes of the last match every byte is looked at, within the next 32 every other, and so on |
| `Greedy.StoredAscends` | external/snappy/snappy.cc:586-655 | positions are stored in increasing order, and all lie before the next one looked at |
| `Greedy.StoredExactly` | external/snappy/snappy.cc:605-654 | stored are the positions looked at and the last ones of the matches, and no others |
| `Greedy.LatestIsGreatest` | external/snappy/snappy.cc:601-605 | what a position is compared to is the greatest stored position with its hash, and 0 exactly if there is none |
| `Greedy.LooksOff` | external/snappy/snappy.cc:555-600 | no match starts within 15 bytes of the end |
| `Greedy.ShortBlock` | external/snappy/snappy.cc:555-600 | a block of up to 16 bytes is emitted as one literal |
| `Greedy.LookUnique` | external/snappy/snappy.cc:601-641 | what is looked at, compared to and matched next is determined by what came before |
| `Greedy.LooksAgree` | external/snappy/snappy.cc:559-659 | of two runs of looks over a block one starts like the other |
| `Greedy.CompleteUnique` | external/snappy/snappy.cc:538-670 | block and hash function determine all looks, and with them every byte emitted |
| `Greedy.EqualBytes` | external/snappy/snappy.cc:559-659 | a block of 17 or more equal bytes is one match from its second byte to its end, for every hash function |
| `Greedy.EqualBytesShrink` | external/snappy/snappy.cc:559-659 | such a block of n bytes takes at most 2 + 3 * ((n + 62) / 64) bytes, and about as many at least |
| `CompressFragment.CoverLiteral` | external/snappy/snappy.cc:609-613 | a literal makes the tags cover the input up to its end, and costs at most a sixtieth and a byte |
| `CompressFragment.CoverCopy` | external/snappy/snappy.cc:626-641 | copies of a match make the tags cover the input up to its end, and pay for the literal in front |
| `CompressFragment.Room` | external/snappy/snappy.cc:98-120 | what was emitted leaves room for the over-writes of the emitters |
| `CompressFragment.Stores` | external/snappy/snappy.cc:605 | storing a position makes its table entry the latest with its hash, and keeps the others |
| `CompressFragment.Missed` | external/snappy/snappy.cc:601-607 | a position whose candidate differs is looked at and passed by the step of the scan |
| `CompressFragment.Matched` | external/snappy/snappy.cc:629-641 | a position whose candidate agrees adds literal and copies of the longest match |
| `CompressFragment.FindMatch` | external/snappy/snappy.cc:586-607 | the scan ends; every table entry is the greatest stored position with its hash, or 0; every position looked at is stored and, but for the one found, differs from the one remembered for it; without a match nothing is left to look at |
| `CompressFragment.EmitPending` | external/snappy/snappy.cc:609-613 | the literal in front of a match, and nothing else, is emitted, and the tags cover the input so far |
| `CompressFragment.EmitMatch` | external/snappy/snappy.cc:629-641 | the copies of the whole match do, too; the match is the longest there is: it reaches the end of the input or a byte that differs |
| `CompressFragment.NextCandidate` | external/snappy/snappy.cc:645-657 | both positions are stored, the candidate is the greatest stored one with the hash, it matches exactly if the four bytes agree, and the hash carried on is that of the next position |
| `CompressFragment.EmitCopies` | external/snappy/snappy.cc:626-655 | matches that follow each other are all emitted as the greedy looks have it, and the loop ends behind a miss or close to the end |
| `CompressFragment.EmitRemainder` | external/snappy/snappy.cc:662-667 | the rest is emitted as one literal, and the tags cover the whole input |
| `CompressFragment.MainLoop` | external/snappy/snappy.cc:559-659 | the nested loops end; the tags are those of all greedy looks at the block and cover the input up to where the remainder starts |
| `CompressFragment.Compress` | external/snappy/snappy.cc:538-670 | for every block and hash function the tags are those of the greedy looks at the block and decode to exactly the block; their size is bounded, and no store leaves the buffer |
| `Compress.UncheckedByteArraySink.Append` | external/snappy/snappy-sinksource.cc:74-84 | the bytes follow what was written, whether or not they were already in place |
| `Compress.CalculateTableSize` | external/snappy/snappy.cc:442-455 | the least power of two from 256 to 16384 that holds the block, and 16384 if none does |
| `Compress.TableSizeUnique` | external/snappy/snappy.cc:442-455 | there is only one such size |
| `Compress.GatherFragment` | external/snappy/snappy.cc:1024-1037 | regions too short are put together to the bytes asked for |
| `Compress.NextFragment` | external/snappy/snappy.cc:1011-1039 | the next block, and how much of the source remains to be skipped for it |
| `Compress.BlockAdded` | external/snappy/snappy.cc:1041-1061 | one more block's tags make the stream cover one more block of the input |
| `Compress.PartAdded` | external/snappy/snappy.cc:1041-1061 | one more block keeps the stream one of greedily compressed blocks |
| `Compress.SoFarAdded` | external/snappy/snappy.cc:1010-1062 | one round of the loop keeps all of it |
| `Compress.RoomForBlock` | external/snappy/snappy.cc:98-120 | header and blocks so far leave room for the next block and its over-writes |
| `Compress.DocumentedRoom` | external/snappy/snappy.cc:526-537 | a block has the documented room exactly if it is not the first or the input is longer than 65537 bytes, whatever the input |
| `Compress.ShortOfDocumentedRoom` | external/snappy/snappy.cc:1045-1056 | with 65537 bytes the first block has two bytes less |
| `Compress.StreamLength` | external/snappy/snappy.cc:98-120 | header and all blocks together stay within `MaxCompressedLength` of the whole input |
| `Compress.StreamDecodes` | external/snappy/snappy.cc:999-1067 | header and tags decode to the input if it is shorter than 2^32 bytes, and are rejected otherwise, also by the letter of the format |
| `Compress.CompressBlock` | external/snappy/snappy.cc:1041-1058 | the greedy tags of the block, with the hash function of its table size, go behind what was written |
| `Compress.WriteHeader` | external/snappy/snappy.cc:1003-1006 | the header holds the length modulo 2^32 |
| `Compress.CompressBlocks` | external/snappy/snappy.cc:1010-1062 | the loop over the blocks leaves the greedy tags of each block, one after the other; they run to the whole input, within the size |
| `Compress.RawCompress` | external/snappy/snappy.cc:1401-1411 | the stream is the header and the greedy tags of each block; it takes at most 32 bytes and seven sixths of the input; it decodes to the input exactly for inputs shorter than 2^32 bytes, and is rejected for longer ones, also by the letter of the format |
| `Compress.BlockUnique` | external/snappy/snappy.cc:1041-1058 | a block has only one run of greedy tags |
| `Compress.StreamUnique` | external/snappy/snappy.cc:999-1067 | input and hash function determine every byte of the stream, however the source cuts the input |
| `Compress.EqualBytesBlock` | external/snappy/snappy.cc:1041-1058 | whatever the hash, a block of n equal bytes, 17 to 65536 of them, takes at most 2 + 3 * ((n + 62) / 64) bytes |
| `Compress.EqualBytesStream` | external/snappy/snappy.cc:999-1067 | the stream of 17 to 65536 equal bytes is the header and at most 2 + 3 * ((n + 62) / 64) bytes |
| `Compress.RoundTrip` | external/snappy/snappy.cc:999-1067 | decompressing what was compressed succeeds and gives the input, for every hash and every cutting of both sources |
| `Compress.DecodeLength` | external/snappy/snappy.cc:1285-1287 | what a stream decodes to has the length its header says |
| `Base58.ValueOfDigits` | src/Common/Base58.cpp:123-136 | digits of fixed width give back the number if it fits |
| `Base58.DigitsOfValue` | src/Common/Base58.cpp:138-169 | the value of digits gives back the digits |
| `Base58.DigitOfLetter` | src/Common/Base58.cpp:35-65 | reading a letter of the alphabet undoes writing it |
| `Base58.Symbols` | src/Common/Base58.cpp:35 | the symbols are the ASCII letters and digits other than 0, I, O and l |
| `Base58.LettersAscend` | src/Common/Base58.cpp:35 | larger digits have larger letters |
| `Base58.DecodedOfEncoded` | src/Common/Base58.cpp:37-84 | the two size tables are inverse |
| `Base58.BlockFits` | src/Common/Base58.cpp:37 | every block size has enough base-58 digits, and its values fit 64 bits |
| `Base58.BlockSizeMinimal` | src/Common/Base58.cpp:37 | one character less would not be enough, for any block size |
| `Base58.BlockRoundTrip` | src/Common/Base58.cpp:123-169 | decoding an encoded block gives the block |
| `Base58.BlockInverse` | src/Common/Base58.cpp:123-169 | encoding what an accepted block decodes to gives the same characters |
| `Base58.EncodeConcat` | src/Common/Base58.cpp:172-193 | full blocks are encoded one after the other |
| `Base58.ShortBlocks` | src/Common/Base58.cpp:123-136 | one and two bytes are written as their digits in base 58, highest first |
| `Base58.KnownBlocks` | tests/UnitTests/Base58.cpp:167-173 | four blocks of the unit tests have the strings expected there |
| `Base58.DecodeEncode` | src/Common/Base58.cpp:172-225 | `Decode(Encode(d)) == Some(d)` for every byte string |
| `Base58.EncodeDecode` | src/Common/Base58.cpp:172-225 | whenever a string is accepted, encoding the result gives back the string |
| `Base58Code.ReverseAlphabet.constructor` | src/Common/Base58.cpp:44-53 | the table inverts the alphabet |
| `Base58Code.ReverseAlphabet.Lookup` | src/Common/Base58.cpp:55-59 | the digit of every character, and -1 for every other character, in or out of the table's range |
| `Base58Code.DecodedBlockSizes.constructor` | src/Common/Base58.cpp:71-78 | the table holds the decoded size of every encoded size, and -1 for the impossible ones |
| `Base58Code.Uint8beTo64` | src/Common/Base58.cpp:94-113 | the big-endian value of one to eight bytes, without losing bits |
| `Base58Code.EncodeBlockAt` | src/Common/Base58.cpp:123-136 | writes exactly the encoded block, never past the left edge of its field, and nothing else |
| `Base58Code.AddDigit` | src/Common/Base58.cpp:154-159 | the wrap-around test is exact: it refuses precisely sums of 2^64 or more |
| `Base58Code.OrderExact` | src/Common/Base58.cpp:160 | the power of 58 is exact whenever it is used |
| `Base58Code.DecodeStep` | src/Common/Base58.cpp:148-161 | one more character's digit adds its place value to the value so far |
| `Base58Code.DecodeNumber` | src/Common/Base58.cpp:146-161 | refuses exactly when a character is no symbol or the true value is 2^64 or more, and returns that value otherwise |
| `Base58Code.Uint64To8be` | src/Common/Base58.cpp:115-121 | the low bytes are the big-endian digits of the number |
| `Base58Code.DecodeBlockCode` | src/Common/Base58.cpp:138-169 | accepts exactly the blocks of symbols whose true value fits the block size, and returns that block |
| `Base58Code.EncodeFullBlocks` | src/Common/Base58.cpp:182-185 | the loop writes the encoded full blocks |
| `Base58Code.EncodeCode` | src/Common/Base58.cpp:172-193 | computes `Encode` |
| `Base58Code.BadLength` | src/Common/Base58.cpp:203-207 | a string whose last block has an impossible size is rejected |
| `Base58Code.DecodeCode` | src/Common/Base58.cpp:195-225 | computes `Decode`, the empty string and impossible lengths included |
| `BlockingQueue.PushKeeps` | src/Common/BlockingQueue.h:37-51 | a `push` keeps the invariant: the queue within capacity, popped items and queue together what was pushed, and no thread asleep without as many awake ones to do its work |
| `BlockingQueue.LastPopKeeps` | src/Common/BlockingQueue.h:67-69 | taking the last item of a closed queue keeps it, because everyone waiting for space is woken |
| `BlockingQueue.NextPopKeeps` | src/Common/BlockingQueue.h:64-71 | taking any other item keeps it, because one waiting thread is woken |
| `BlockingQueue.PopKeeps` | src/Common/BlockingQueue.h:53-74 | a `pop` keeps it, waiting and failing included |
| `BlockingQueue.CloseKeeps` | src/Common/BlockingQueue.h:76-87 | a `close` keeps it, on entry and after each wait |
| `BlockingQueue.CallKeeps` | src/Common/BlockingQueue.h:37-87 | so does any new call |
| `BlockingQueue.WakeupKeeps` | src/Common/BlockingQueue.h:40-84 | so does any spurious wakeup |
| `BlockingQueue.Reachable` | src/Common/BlockingQueue.h:37-87 | the invariant holds in every state of every run: an unnotified waiting `pop` means no more items than woken pops, an unnotified waiting `push` no more free slots than woken pushes, a waiting `close` items left |
| `BlockingQueue.ClosedForGood` | src/Common/BlockingQueue.h:40-50 | a closed queue stays closed and takes no further item; what went in and out only grows |
| `BlockingQueue.Answers` | src/Common/BlockingQueue.h:37-87 | in every run: `push` says true exactly when its item goes in, `pop` when it takes the oldest item not taken; a `pop` that says false and a waiting `close` that returns find everything taken, for good |
| `BlockingQueue.Blocked` | src/Common/BlockingQueue.h:40-85 | when nobody can run, a sleeping `pop` means open and empty, a `push` open and full, a `close` closed with items left; with capacity, `push` and `pop` are never both stuck |
| `BlockingQueue.PushWakesOne` | src/Common/BlockingQueue.h:47-50 | a successful `push` wakes exactly one waiting `pop`, if there is one, and nobody else |
| `BlockingQueue.PopWakes` | src/Common/BlockingQueue.h:64-73 | a successful `pop` wakes exactly one thread waiting for space, if there is one, and all of them when it empties a closed queue |
| `BlockingQueue.CloseWakesAll` | src/Common/BlockingQueue.h:76-87 | `close` wakes everybody and leaves nobody waiting but itself, and that exactly if it is to wait and items are left |
| `BlockingQueue.CanAlwaysRun` | src/Common/BlockingQueue.h:37-87 | whoever contends for the mutex can run |
| `BlockingQueue.Progress` | src/Common/BlockingQueue.h:37-87 | every critical section, waiting ones included, uses up some of a bounded amount of work |
| `BlockingQueue.SectionsEnd` | src/Common/BlockingQueue.h:37-87 | in every run only boundedly many critical sections follow each other without a new call or a spurious wakeup |
| `BlockingQueue.Settles` | src/Common/BlockingQueue.h:37-87 | from every state of every run the threads bring the queue to rest |
| `BlockingQueue.Queue.constructor` | src/Common/BlockingQueue.h:33-34 | the queue starts empty and open |
| `BlockingQueue.Queue.NotifyOneOf` | src/Common/BlockingQueue.h:49 | wakes some one waiter of the condition, if there is one |
| `BlockingQueue.Queue.Pushing` | src/Common/BlockingQueue.h:37-51 | what a thread does from taking the mutex to returning or waiting is one step of the system |
| `BlockingQueue.Queue.Popping` | src/Common/BlockingQueue.h:53-74 | the same, and the item handed out is the one recorded as taken |
| `BlockingQueue.Queue.Closing` | src/Common/BlockingQueue.h:76-87 | the same, on entry and on the way back from a wait |
| `PoolView.SelectSet` | src/BlockchainExplorer/BlockchainExplorer.cpp:519-540 | the hashes selected are exactly the known ones, or exactly the others |
| `PoolView.SelectCount` | src/BlockchainExplorer/BlockchainExplorer.cpp:519-540 | every hash is selected exactly as often as it is listed |
| `PoolView.SelectConcat` | src/BlockchainExplorer/BlockchainExplorer.cpp:519-540 | and in the order of the list |
| `PoolView.InsertKeys` | src/BlockchainExplorer/BlockchainExplorer.cpp:559-563 | inserting makes every listed hash known and leaves known entries as they are |
| `PoolView.InsertFirst` | src/BlockchainExplorer/BlockchainExplorer.cpp:559-563 | of several transactions with one new hash the first stays |
| `PoolView.KnownPool.Difference` | src/BlockchainExplorer/BlockchainExplorer.cpp:519-540 | the loops of the first callback ask for exactly the unknown transactions and note exactly the known removed ones |
| `PoolView.KnownPool.Update` | src/BlockchainExplorer/BlockchainExplorer.cpp:557-571 | the loops of the second callback leave exactly the known and new hashes without the removed ones |
| `PoolView.Applied` | src/BlockchainExplorer/BlockchainExplorer.cpp:557-571 | applying the difference to a snapshot leaves exactly the snapshot's hashes |
| `PoolUpdate.PoolUpdateGuard.constructor` | src/BlockchainExplorer/BlockchainExplorer.cpp:87-89 | the guard starts free |
| `PoolUpdate.PoolUpdateGuard.BeginIteration` | src/BlockchainExplorer/BlockchainExplorer.cpp:91-115 | one turn of the loop is one step of a frame, weak exchange failures included |
| `PoolUpdate.PoolUpdateGuard.EndIteration` | src/BlockchainExplorer/BlockchainExplorer.cpp:117-126 | the same; the answer says whether `poolChanged` runs again |
| `PoolUpdate.ScopeExitHandler.constructor` | src/BlockchainExplorer/BlockchainExplorer.cpp:130-133 | a handler starts armed |
| `PoolUpdate.ScopeExitHandler.Reset` | src/BlockchainExplorer/BlockchainExplorer.cpp:141-143 | and can be cancelled |
| `PoolUpdate.ScopeExitHandler.Destroy` | src/BlockchainExplorer/BlockchainExplorer.cpp:135-139 | at the end of its scope it fires, and ends the frame's update, unless it was cancelled |
| `PoolUpdate.StackedStep` | src/BlockchainExplorer/BlockchainExplorer.cpp:482-591 | every step keeps: a frame that waits for a callee has the callee above it, a frame inside a request or back from one holds the mutex, and handlers are armed where the code has them armed |
| `PoolUpdate.ExclusiveStep` | src/BlockchainExplorer/BlockchainExplorer.cpp:87-148 | every step, hand-over and cancellation included, keeps: the guard is taken exactly while one frame has the update on its hands, and every earlier update has been ended by one handler |
| `PoolUpdate.OwedStep` | src/BlockchainExplorer/BlockchainExplorer.cpp:91-126 | every step keeps: since a given time an update has begun or a re-run was dropped, or one of these is still to come |
| `PoolUpdate.RememberedStep` | src/BlockchainExplorer/BlockchainExplorer.cpp:471-591 | every step keeps this debt for the last call that passed the flags |
| `PoolUpdate.FaithfulStep` | src/BlockchainExplorer/BlockchainExplorer.cpp:490-571 | every step keeps: what the update in flight holds is the difference between the map and one snapshot taken since it began |
| `PoolUpdate.Reachable` | src/BlockchainExplorer/BlockchainExplorer.cpp:471-591 | all of these hold in every state of every run, callbacks on the caller's thread included |
| `PoolRuns.OneUpdateAtATime` | src/BlockchainExplorer/BlockchainExplorer.cpp:87-148 | in every run: at most one frame has an update on its hands, one exactly when the guard is taken, at most one holds the mutex, and the assertion in `endUpdate` holds |
| `PoolRuns.HandlersFireOnce` | src/BlockchainExplorer/BlockchainExplorer.cpp:482-584 | in every run handlers fire, and end updates, exactly once per true `beginUpdate` and in order; only the update in flight may have none yet |
| `PoolRuns.NoSecondFiring` | src/BlockchainExplorer/BlockchainExplorer.cpp:128-148 | two handlers that fire belong to different updates |
| `PoolRuns.DemandEnds` | src/BlockchainExplorer/BlockchainExplorer.cpp:117-126 | a demand stands until an `endUpdate` says true and `poolChanged` is called again |
| `PoolRuns.SawDemand` | src/BlockchainExplorer/BlockchainExplorer.cpp:91-115 | a loop that has seen the demand saw it after the call passed the flags |
| `PoolRuns.Coalesced` | src/BlockchainExplorer/BlockchainExplorer.cpp:478-480 | every call whose `beginUpdate` says false is followed by a re-run after it passed the flags, once the demand is gone |
| `PoolRuns.NothingLost` | src/BlockchainExplorer/BlockchainExplorer.cpp:471-591 | whenever everything is at rest, an update has begun since the last call that passed the flags, unless a re-run was dropped by them; guard and mutex are free and all updates are ended |
| `PoolRuns.SnapshotTaken` | src/BlockchainExplorer/BlockchainExplorer.cpp:490-556 | the snapshot an update works with was the node's pool at one moment, however often it was handed over |
| `PoolRuns.UpdateExact` | src/BlockchainExplorer/BlockchainExplorer.cpp:490-571 | every update that gets to the end leaves exactly the node's pool of one moment since it began |
| `PoolRuns.CatchesUp` | src/BlockchainExplorer/BlockchainExplorer.cpp:471-591 | at rest, after a notification later than the pool's last change and a last update that was applied, the explorer knows exactly the pool's transactions |
| `PoolRuns.RefusedTooLate` | src/BlockchainExplorer/BlockchainExplorer.cpp:91-115 | a run in which a call is refused after the re-run it relied on |
| `PoolStuck.StuckInNode` | src/BlockchainExplorer/BlockchainExplorer.cpp:484-517 | in every run a thread waits for itself exactly when it waits for the mutex while it is inside a request |
| `PoolStuck.StuckForGood` | src/BlockchainExplorer/BlockchainExplorer.cpp:484-591 | such a thread waits to the end of the run, the guard stays taken, and no update begins, ends or is applied any more |
| `PoolStuck.NeverStuck` | src/BlockchainExplorer/BlockchainExplorer.cpp:484-591 | no thread waits for itself in a run whose node only calls back on other threads |
| `PoolStuck.StuckExactlyIfDemanded` | src/BlockchainExplorer/BlockchainExplorer.cpp:508-515 | a failing callback made from inside a request, about to end its update: its thread can come to wait for itself if and only if an update is demanded at that moment |
| `PoolStuck.FlagsOffNotStuck` | src/BlockchainExplorer/BlockchainExplorer.cpp:474-476 | it does not if the flags turn the re-run away |
| `PoolStuck.NeverGetsMutex` | src/BlockchainExplorer/BlockchainExplorer.cpp:508-517 | a successful callback made from inside a request, and an update begun there, never get the mutex |
| `PoolStuck.StuckRun` | src/BlockchainExplorer/BlockchainExplorer.cpp:471-591 | a run that gets stuck |
| `PoolRest.DoomedForGood` | src/BlockchainExplorer/BlockchainExplorer.cpp:484-591 | with a thread on the way to a mutex it holds, a run never comes to rest and has no further re-run |
| `PoolRest.DoomedNoRerun` | src/BlockchainExplorer/BlockchainExplorer.cpp:484-591 | the same of every way to go on from there |
| `PoolRest.RefusedAndStuck` | src/BlockchainExplorer/BlockchainExplorer.cpp:91-115 | a run in which a call is refused and no re-run ever follows, whatever happens next |
| `PoolRest.CorneredReruns` | src/BlockchainExplorer/BlockchainExplorer.cpp:471-591 | if a run comes to rest, a thread that was inside a request and on its way to `beginUpdate` or to the mutex was only on the way to `beginUpdate`, and a re-run came after |
| `PoolRest.GivesUp` | src/BlockchainExplorer/BlockchainExplorer.cpp:471-591 | with no such thread and no demand, a run can come to rest without another re-run |
| `PoolRest.MeetsDemand` | src/BlockchainExplorer/BlockchainExplorer.cpp:117-126 | a demanded update can be ended, and the guard left free, unless a thread is on such a way |
| `PoolRest.TurnedAway` | src/BlockchainExplorer/BlockchainExplorer.cpp:91-115 | a thread inside a request that calls `beginUpdate` can be refused: if need be a fresh call takes the guard first |
| `PoolRest.ComesToRest` | src/BlockchainExplorer/BlockchainExplorer.cpp:471-591 | at any point of any run: it can come to rest if and only if no thread is on the way to a mutex it holds |
| `PoolRest.RestsWithoutRerun` | src/BlockchainExplorer/BlockchainExplorer.cpp:471-591 | it can without another re-run if and only if, moreover, none is demanded and no thread inside a request is calling `beginUpdate` without having seen a demand |
| `PoolRest.RerunBeforeRest` | src/BlockchainExplorer/BlockchainExplorer.cpp:471-591 | otherwise every way to rest contains another re-run |
| `PoolRest.RerunCertain` | src/BlockchainExplorer/BlockchainExplorer.cpp:471-591 | there is a way to rest and every such way contains another re-run, if and only if no thread is on the way to a mutex it holds and an update is demanded or a thread inside a request is calling `beginUpdate` without having seen a demand |

## Left out

- IOVec.IOVecWriter.AppendFromSelf: with buffers smaller than the announced length it may accept and write less, which `CheckLength` then reports.
- BlockingQueue: which waiter a notification reaches is left open, and no fairness is assumed, so it is not stated that a given thread gets its turn.
- PoolUpdate: that a node calls back at all is not assumed, so nothing says that an update in flight ends; it calls back at most once per request, and not when the request throws.
- PoolUpdate: a notification starts on a thread of its own; a node that calls `poolChanged` from inside a request, on the thread that holds the mutex, is not modelled.
- PoolUpdate: running out of memory while a handler is made or while transactions are inserted; an exception in a re-run, which is called from a destructor, ends the process and so the run.
- The SSSE3 and BMI2 variants, the inline assembly padding and big-endian machines: platform forms of the portable code.
- The concrete hash function: nothing depends on which one it is.
- The layout and ownership of working memory, and sinks other than the flat array and the block sink.
- `UncompressAsMuchAsPossible`, and what the block sink gets from a rejected stream.
- Sources whose regions are 2^32 bytes or longer, or longer than what is available.
- The flat branch of `Uncompress` into a sink and the string overloads: plumbing over `RawUncompress`.
- `encode_addr` and `decode_addr`: they rest on a hash and a varint of another library.
- The rest of the explorer: observers, initialisation and shutdown, other requests, logging, and the flag that says whether the blockchain is current.
- `size`, `capacity` and `GroupClose` of the blocking queue: they would add only easy members.
- Checkpoints, formatting, console, network and build code.
