/** Whole streams: the header and one run of tags per block, read from a source, written to a sink. */
module Compress {
  import opened Bytes
  import opened SnappyFormat
  import opened StrictFormat
  import opened ByteSource
  import opened Varint
  import opened Emit
  import opened Uncompress
  import opened Greedy
  import Bits
  import CompressFragment

  const MIN_HASH_TABLE_SIZE := 0x100
  const MAX_HASH_TABLE_SIZE := 0x4000

  /** A sink that writes to a flat array without any bounds test of its own. */
  class UncheckedByteArraySink {
    const dest: array<byte>
    var pos: nat

    ghost predicate Valid()
      reads this
    {
      pos <= dest.Length
    }

    constructor (dest: array<byte>)
      ensures Valid() && this.dest == dest && pos == 0
    {
      this.dest := dest;
      pos := 0;
    }

    /** Takes over `n` bytes; those already in place, from `GetAppendBuffer`, are not copied. */
    method Append(data: array<byte>, at: nat, n: nat)
      requires Valid() && at + n <= data.Length && pos + n <= dest.Length
      requires data == dest ==> at == pos
      modifies this, dest
      ensures Valid() && pos == old(pos) + n
      ensures dest[..pos] == old(dest[..pos]) + old(data[at..at + n])
    {
      if data != dest || at != pos {
        forall i | 0 <= i < n {
          dest[pos + i] := data[at + i];
        }
      }
      pos := pos + n;
    }
  }

  /** The least power of two from 256 to 16384 that is as large as the fragment, if there is one, else 16384. */
  ghost predicate IsTableSize(inputSize: nat, size: nat) {
    && 256 <= size <= 16384 && (exists k: nat :: size == Bits.Pow2(k))
    && (inputSize <= size || size == 16384) && (256 < size ==> size < 2 * inputSize)
  }

  lemma TableSizeUnique(inputSize: nat, a: nat, b: nat)
    requires IsTableSize(inputSize, a) && IsTableSize(inputSize, b)
    ensures a == b
  {
    hide Bits.Pow2;
    NotSmaller(inputSize, a, b);
    NotSmaller(inputSize, b, a);
  }

  lemma NotSmaller(inputSize: nat, a: nat, b: nat)
    requires IsTableSize(inputSize, a) && IsTableSize(inputSize, b)
    ensures b <= a
  {
    var j: nat :| a == Bits.Pow2(j);
    var k: nat :| b == Bits.Pow2(k);
    if j < k {
      Bits.Pow2Monotone(j + 1, k);
    } else {
      Bits.Pow2Monotone(k, j);
    }
  }

  /** The hash table grows with the fragment, in powers of two between its bounds. */
  method CalculateTableSize(inputSize: nat) returns (size: nat)
    requires inputSize < TWO_TO_THE_32
    ensures IsTableSize(inputSize, size)
  {
    Bits.SmallPowers();
    assert Bits.Pow2(14) == MAX_HASH_TABLE_SIZE by { Bits.Pow2Sum(8, 6); }
    if inputSize > MAX_HASH_TABLE_SIZE {
      return MAX_HASH_TABLE_SIZE;
    }
    if inputSize < MIN_HASH_TABLE_SIZE {
      return MIN_HASH_TABLE_SIZE;
    }
    var log := Bits.Log2FloorNonZero(inputSize - 1);
    size := 2 * Bits.Pow2(log);
    assert size == Bits.Pow2(log + 1);
    if log < 7 { Bits.Pow2Monotone(log + 1, 7); }
    if log > 13 { Bits.Pow2Monotone(14, log); }
    if log >= 7 { Bits.Pow2Monotone(8, log + 1); }
    if log <= 13 { Bits.Pow2Monotone(log + 1, 14); }
  }

  /** Collects `numToRead` bytes from regions that are each too short. */
  method GatherFragment(reader: Source, numToRead: nat) returns (scratch: seq<byte>)
    requires reader.Valid() && reader.pos + numToRead <= |reader.data|
    modifies reader
    ensures reader.Valid() && reader.pos == old(reader.pos) + numToRead
    ensures scratch == reader.data[old(reader.pos)..reader.pos]
  {
    scratch := [];
    while |scratch| < numToRead
      invariant reader.Valid() && |scratch| <= numToRead && reader.pos == old(reader.pos) + |scratch|
      invariant scratch == reader.data[old(reader.pos)..reader.pos]
      decreases numToRead - |scratch|
    {
      var fragment := reader.Peek();
      var n := Min(|fragment|, numToRead - |scratch|);
      assert fragment[..n] == reader.data[reader.pos..reader.pos + n];
      scratch := scratch + fragment[..n];
      reader.Skip(n);
    }
  }

  /** The next block: straight from a long enough region, which is skipped later, or gathered. */
  method NextFragment(reader: Source, numToRead: nat) returns (fragment: seq<byte>, pendingAdvance: nat)
    requires reader.Valid() && 0 < numToRead && reader.pos + numToRead <= |reader.data|
    modifies reader
    ensures reader.Valid() && reader.pos + pendingAdvance == old(reader.pos) + numToRead
    ensures fragment == reader.data[old(reader.pos)..old(reader.pos) + numToRead]
  {
    var region := reader.Peek();
    if |region| >= numToRead {
      fragment := region[..numToRead];
      pendingAdvance := numToRead;
    } else {
      fragment := GatherFragment(reader, numToRead);
      pendingAdvance := 0;
    }
  }

  //////////////////////////////////////////////////////////////////////////////
  // What a stream holds so far
  //////////////////////////////////////////////////////////////////////////////

  /** The tags of the first `blocks` blocks, all of them full unless the input has ended. */
  ghost predicate BlocksDone(tags: seq<byte>, input: seq<byte>, done: nat, blocks: nat) {
    && done == Min(BLOCK_SIZE * blocks, |input|)
    && RunTags(tags, []) == Some(input[..done]) && !HasWrappingTag(tags)
    && 60 * |tags| <= 61 * done + 60 * blocks
  }

  /** A block's tags look back no further than the block, so blocks can be strung together. */
  lemma BlockAdded(tags: seq<byte>, input: seq<byte>, done: nat, blocks: nat, more: seq<byte>, n: nat)
    requires BlocksDone(tags, input, done, blocks) && done < |input| && n == Min(BLOCK_SIZE, |input| - done)
    requires RunTags(more, []) == Some(input[done..done + n]) && !HasWrappingTag(more) && 60 * |more| <= 61 * n + 60
    ensures BlocksDone(tags + more, input, done + n, blocks + 1)
  {
    hide RunTags, HasWrappingTag;
    NoWrapConcat(tags, more, []);
    RunTagsConcat(tags, more, []);
    RunTagsShift(more, input[..done], []);
    assert input[..done] + [] == input[..done];
    assert input[..done] + input[done..done + n] == input[..done + n];
  }

  /** Header and blocks leave room for the next block, whose buffer may be five bytes short. */
  lemma RoomForBlock(tagsLength: nat, headerLength: nat, total: nat, blocks: nat, n: nat)
    requires headerLength <= 5 && BLOCK_SIZE * blocks + n <= total
    requires 60 * tagsLength <= 61 * (BLOCK_SIZE * blocks) + 60 * blocks
    ensures headerLength + tagsLength + MaxCompressedLength(n) - 5 <= MaxCompressedLength(total)
  {
  }

  /**
   The buffer that `CompressFragment` documents it needs, `MaxCompressedLength` of its block, is there
   exactly for every block but the first of an input of up to 65537 bytes, whatever the input holds.
   */
  lemma DocumentedRoom(tags: seq<byte>, input: seq<byte>, done: nat, blocks: nat)
    requires BlocksDone(tags, input, done, blocks) && done < |input|
    ensures var used := |Encoded(|input| % TWO_TO_THE_32)| + |tags|;
      var needed := MaxCompressedLength(Min(BLOCK_SIZE, |input| - done));
      used + needed <= MaxCompressedLength(|input|) <==> blocks > 0 || |input| > 65537
  {
    hide RunTags, Encoded, HasWrappingTag;
    var n := |input|;
    EncodedLength(n % TWO_TO_THE_32);
    if blocks > 0 {
      assert done == BLOCK_SIZE * blocks;
      LaterRoom(|tags|, |Encoded(n % TWO_TO_THE_32)|, n, blocks, Min(BLOCK_SIZE, n - done));
    } else {
      assert tags == [];
      if 65537 < n < 0x20_0000 {
        assert |Encoded(n % TWO_TO_THE_32)| <= 3 by { ShortHeader(n); }
      } else if n == 65537 {
        assert |Encoded(65537)| == 3 by { ShortHeader(65537); }
      }
    }
  }

  lemma LaterRoom(tagsLength: nat, headerLength: nat, total: nat, blocks: nat, n: nat)
    requires headerLength <= 5 && blocks > 0 && BLOCK_SIZE * blocks + n <= total
    requires 60 * tagsLength <= 61 * (BLOCK_SIZE * blocks) + 60 * blocks
    ensures headerLength + tagsLength + MaxCompressedLength(n) <= MaxCompressedLength(total)
  {
  }

  lemma ShortHeader(n: nat)
    requires 0x4000 <= n < 0x20_0000
    ensures |Encoded(n)| == 3
  {
    EncodedStep(n, 0);
    EncodedStep(n, 1);
    EncodedStep(n, 2);
  }

  /** An input of two blocks whose first block has two bytes less room than documented. */
  lemma ShortOfDocumentedRoom(input: seq<byte>)
    requires |input| == 65537
    ensures BlocksDone([], input, 0, 0)
    ensures |Encoded(|input|)| + MaxCompressedLength(BLOCK_SIZE) == MaxCompressedLength(|input|) + 2
  {
    EmptyRuns();
    assert input[..0] == [];
    ShortHeader(65537);
  }

  /** A whole stream is never larger than promised. */
  lemma StreamLength(tagsLength: nat, headerLength: nat, total: nat, blocks: nat)
    requires headerLength <= 5 && (blocks > 0 ==> BLOCK_SIZE * (blocks - 1) < total)
    requires 60 * tagsLength <= 61 * total + 60 * blocks
    ensures headerLength + tagsLength <= MaxCompressedLength(total)
  {
  }

  /** A header that says the length modulo 2^32 is right exactly for inputs below 2^32. */
  lemma StreamDecodes(input: seq<byte>, tags: seq<byte>)
    requires RunTags(tags, []) == Some(input) && !HasWrappingTag(tags)
    ensures var s := Encoded(|input| % TWO_TO_THE_32) + tags;
      StrictDecode(s) == Decode(s) == if |input| < TWO_TO_THE_32 then Some(input) else None
  {
    hide RunTags, VarintLength, VarintValue, Encoded, HasWrappingTag, StrictDecode;
    HeaderRoundTrip(|input| % TWO_TO_THE_32, tags);
    StrictDecodes(Encoded(|input| % TWO_TO_THE_32) + tags);
  }

  //////////////////////////////////////////////////////////////////////////////
  // Compressing
  //////////////////////////////////////////////////////////////////////////////

  /** For every table size, a hash function into tables of that size. */
  ghost predicate IsHashFamily(hash: (bv32, nat) -> nat) {
    forall w, size :: size > 0 ==> hash(w, size) < size
  }

  /** The hash function of a table of `size` entries. */
  function HashInto(hash: (bv32, nat) -> nat, size: nat): bv32 -> nat {
    w => hash(w, size)
  }

  /** The tags of one block: those of the greedy looks at it, with the hash function of its table. */
  ghost predicate IsBlock(fragment: seq<byte>, hash: (bv32, nat) -> nat, tags: seq<byte>) {
    exists size, looks ::
      && IsTableSize(|fragment|, size) && IsComplete(fragment, HashInto(hash, size), looks)
      && tags == BlockTags(fragment, looks)
  }

  lemma BlockUnique(fragment: seq<byte>, hash: (bv32, nat) -> nat, a: seq<byte>, b: seq<byte>)
    requires IsBlock(fragment, hash, a) && IsBlock(fragment, hash, b)
    ensures a == b
  {
    hide IsTableSize, IsComplete, BlockTags;
    var m, x :| IsTableSize(|fragment|, m) && IsComplete(fragment, HashInto(hash, m), x) && a == BlockTags(fragment, x);
    var n, y :| IsTableSize(|fragment|, n) && IsComplete(fragment, HashInto(hash, n), y) && b == BlockTags(fragment, y);
    TableSizeUnique(|fragment|, m, n);
    CompleteUnique(fragment, HashInto(hash, m), x, y);
  }

  /** The `i`-th block of the input: full, unless the input ends in it. */
  function Block(input: seq<byte>, i: nat): seq<byte>
    requires BLOCK_SIZE * i < |input|
  {
    input[BLOCK_SIZE * i..Min(BLOCK_SIZE * (i + 1), |input|)]
  }

  /** Tags of the first blocks of the input, each compressed for itself. */
  ghost predicate AreBlocks(input: seq<byte>, hash: (bv32, nat) -> nat, parts: seq<seq<byte>>) {
    forall i :: 0 <= i < |parts| ==> BLOCK_SIZE * i < |input| && IsBlock(Block(input, i), hash, parts[i])
  }

  function Joined(parts: seq<seq<byte>>): seq<byte> {
    if parts == [] then [] else Joined(parts[..|parts| - 1]) + parts[|parts| - 1]
  }

  /** The header, and behind it the tags of all blocks. */
  ghost predicate IsStream(input: seq<byte>, hash: (bv32, nat) -> nat, s: seq<byte>) {
    exists parts ::
      && AreBlocks(input, hash, parts) && |input| <= BLOCK_SIZE * |parts|
      && s == Encoded(|input| % TWO_TO_THE_32) + Joined(parts)
  }

  lemma PartsUnique(input: seq<byte>, hash: (bv32, nat) -> nat, a: seq<seq<byte>>, b: seq<seq<byte>>)
    requires AreBlocks(input, hash, a) && |input| <= BLOCK_SIZE * |a|
    requires AreBlocks(input, hash, b) && |input| <= BLOCK_SIZE * |b|
    ensures a == b
  {
    hide IsBlock, Block;
    assert |a| > |b| ==> BLOCK_SIZE * |b| < |input|;
    assert |b| > |a| ==> BLOCK_SIZE * |a| < |input|;
    forall i | 0 <= i < |a| ensures a[i] == b[i] {
      BlockUnique(Block(input, i), hash, a[i], b[i]);
    }
  }

  /** Input and hash decide every byte of the stream; how the source cuts the input does not show. */
  lemma StreamUnique(input: seq<byte>, hash: (bv32, nat) -> nat, a: seq<byte>, b: seq<byte>)
    requires IsStream(input, hash, a) && IsStream(input, hash, b)
    ensures a == b
  {
    hide AreBlocks, Encoded, Joined;
    var x :| AreBlocks(input, hash, x) && |input| <= BLOCK_SIZE * |x| && a == Encoded(|input| % TWO_TO_THE_32) + Joined(x);
    var y :| AreBlocks(input, hash, y) && |input| <= BLOCK_SIZE * |y| && b == Encoded(|input| % TWO_TO_THE_32) + Joined(y);
    PartsUnique(input, hash, x, y);
  }

  lemma PartAdded(input: seq<byte>, hash: (bv32, nat) -> nat, parts: seq<seq<byte>>, more: seq<byte>)
    requires AreBlocks(input, hash, parts) && BLOCK_SIZE * |parts| < |input| && IsBlock(Block(input, |parts|), hash, more)
    ensures AreBlocks(input, hash, parts + [more]) && Joined(parts + [more]) == Joined(parts) + more
  {
    hide IsBlock, Block;
    assert (parts + [more])[..|parts|] == parts;
  }

  /** Compresses one block straight into the sink's array. */
  method CompressBlock(fragment: seq<byte>, writer: UncheckedByteArraySink, hash: (bv32, nat) -> nat)
    returns (ghost tags: seq<byte>)
    requires |fragment| <= BLOCK_SIZE && writer.Valid() && IsHashFamily(hash)
    requires writer.pos + MaxCompressedLength(|fragment|) - 5 <= writer.dest.Length
    modifies writer, writer.dest
    ensures writer.Valid() && writer.dest[..writer.pos] == old(writer.dest[..writer.pos]) + tags
    ensures RunTags(tags, []) == Some(fragment) && !HasWrappingTag(tags) && 60 * |tags| <= 61 * |fragment| + 60
    ensures IsBlock(fragment, hash, tags)
  {
    hide RunTags, HasWrappingTag, IsComplete, BlockTags;
    var size := CalculateTableSize(|fragment|);
    var table := new CompressFragment.uint16[size](_ => 0);
    var start := writer.pos;
    var end;
    ghost var looks;
    end, tags, looks := CompressFragment.Compress(fragment, writer.dest, start, table, HashInto(hash, size));
    ghost var filled := writer.dest[..end];
    writer.Append(writer.dest, start, end - start);
    assert filled[..start] + filled[start..] == filled;
  }

  /** The header: the input length as a 32-bit number. */
  method WriteHeader(writer: UncheckedByteArraySink, n: nat)
    requires writer.Valid() && writer.pos + MAX_32 <= writer.dest.Length
    modifies writer, writer.dest
    ensures writer.Valid() && writer.pos <= old(writer.pos) + MAX_32
    ensures writer.dest[..writer.pos] == old(writer.dest[..writer.pos]) + Encoded(n % TWO_TO_THE_32)
  {
    hide Encoded;
    var ulength := new byte[MAX_32];
    var p := Encode32(ulength, n % TWO_TO_THE_32);
    writer.Append(ulength, 0, p);
  }

  /** The parts compressed so far stand for the first `done` bytes of the input. */
  ghost predicate SoFar(input: seq<byte>, hash: (bv32, nat) -> nat, parts: seq<seq<byte>>, done: nat) {
    AreBlocks(input, hash, parts) && BlocksDone(Joined(parts), input, done, |parts|)
  }

  lemma NothingSoFar(input: seq<byte>, hash: (bv32, nat) -> nat)
    ensures SoFar(input, hash, [], 0) && Joined([]) == []
  {
    EmptyRuns();
    assert input[..0] == [];
  }

  lemma SoFarAdded(input: seq<byte>, hash: (bv32, nat) -> nat, parts: seq<seq<byte>>, done: nat, n: nat, more: seq<byte>)
    requires SoFar(input, hash, parts, done) && done < |input| && n == Min(BLOCK_SIZE, |input| - done)
    requires RunTags(more, []) == Some(input[done..done + n]) && !HasWrappingTag(more) && 60 * |more| <= 61 * n + 60
    requires IsBlock(input[done..done + n], hash, more)
    ensures SoFar(input, hash, parts + [more], done + n) && Joined(parts + [more]) == Joined(parts) + more
  {
    hide RunTags, HasWrappingTag, IsBlock, AreBlocks, Joined;
    BlockAdded(Joined(parts), input, done, |parts|, more, n);
    assert input[done..done + n] == Block(input, |parts|);
    PartAdded(input, hash, parts, more);
  }

  lemma SoFarRoom(input: seq<byte>, hash: (bv32, nat) -> nat, parts: seq<seq<byte>>, done: nat, n: nat, headerLength: nat)
    requires SoFar(input, hash, parts, done) && done < |input| && n == Min(BLOCK_SIZE, |input| - done) && headerLength <= 5
    ensures headerLength + |Joined(parts)| + MaxCompressedLength(n) - 5 <= MaxCompressedLength(|input|)
  {
    hide RunTags, HasWrappingTag, AreBlocks, Joined;
    RoomForBlock(|Joined(parts)|, headerLength, |input|, |parts|, n);
  }

  lemma AllSoFar(input: seq<byte>, hash: (bv32, nat) -> nat, parts: seq<seq<byte>>, headerLength: nat)
    requires SoFar(input, hash, parts, |input|) && headerLength <= 5
    ensures RunTags(Joined(parts), []) == Some(input) && !HasWrappingTag(Joined(parts))
    ensures headerLength + |Joined(parts)| <= MaxCompressedLength(|input|)
    ensures AreBlocks(input, hash, parts) && |input| <= BLOCK_SIZE * |parts|
  {
    hide RunTags, HasWrappingTag, IsBlock, Joined;
    assert input[..|input|] == input;
    StreamLength(|Joined(parts)|, headerLength, |input|, |parts|);
  }

  /** The blocks, one after the other. */
  method CompressBlocks(reader: Source, writer: UncheckedByteArraySink, hash: (bv32, nat) -> nat, ghost headerLength: nat)
    returns (ghost parts: seq<seq<byte>>)
    requires reader.Valid() && writer.Valid() && IsHashFamily(hash) && headerLength <= 5 && headerLength <= writer.pos
    requires writer.pos - headerLength + MaxCompressedLength(|Rest(reader)|) <= writer.dest.Length
    modifies reader, writer, writer.dest
    ensures writer.Valid() && writer.dest[..writer.pos] == old(writer.dest[..writer.pos]) + Joined(parts)
    ensures RunTags(Joined(parts), []) == Some(old(Rest(reader))) && !HasWrappingTag(Joined(parts))
    ensures headerLength + |Joined(parts)| <= MaxCompressedLength(|old(Rest(reader))|)
    ensures AreBlocks(old(Rest(reader)), hash, parts) && |old(Rest(reader))| <= BLOCK_SIZE * |parts|
  {
    hide RunTags, HasWrappingTag, SoFar, AreBlocks, IsBlock, Joined;
    ghost var input, start, front := Rest(reader), reader.pos, writer.dest[..writer.pos];
    ghost var done := 0;
    parts := [];
    NothingSoFar(input, hash);
    var n := reader.Available();
    while n > 0
      invariant reader.Valid() && writer.Valid() && reader.pos == start + done && n == |input| - done
      invariant SoFar(input, hash, parts, done)
      invariant writer.dest[..writer.pos] == front + Joined(parts)
    {
      var numToRead := Min(n, BLOCK_SIZE);
      var fragment, pendingAdvance := NextFragment(reader, numToRead);
      assert fragment == input[done..done + numToRead];
      SoFarRoom(input, hash, parts, done, numToRead, headerLength);
      ghost var more := CompressBlock(fragment, writer, hash);
      SoFarAdded(input, hash, parts, done, numToRead, more);
      parts, done := parts + [more], done + numToRead;
      n := n - numToRead;
      reader.Skip(pendingAdvance);
    }
    AllSoFar(input, hash, parts, headerLength);
  }

  lemma EmptyRuns()
    ensures RunTags([], []) == Some([]) && !HasWrappingTag([])
  {
  }

  /**
   Compresses a source into an array of the promised size.  The stream stays within that
   size, and decoding it gives back the input, provided the input is shorter than 2^32
   bytes; otherwise the header is wrong and the stream is rejected.
   */
  method RawCompress(reader: Source, compressed: array<byte>, hash: (bv32, nat) -> nat) returns (n: nat)
    requires reader.Valid() && IsHashFamily(hash)
    requires MaxCompressedLength(|Rest(reader)|) <= compressed.Length
    modifies reader, compressed
    ensures n <= MaxCompressedLength(|old(Rest(reader))|) && 6 * n <= 7 * |old(Rest(reader))| + 192
    ensures IsStream(old(Rest(reader)), hash, compressed[..n])
    ensures StrictDecode(compressed[..n]) == Decode(compressed[..n])
         == if |old(Rest(reader))| < TWO_TO_THE_32 then Some(old(Rest(reader))) else None
  {
    hide RunTags, Encoded, Decode, StrictDecode, HasWrappingTag, AreBlocks, Joined;
    ghost var input := Rest(reader);
    var writer := new UncheckedByteArraySink(compressed);
    WriteHeader(writer, reader.Available());
    ghost var header := Encoded(|input| % TWO_TO_THE_32);
    ghost var parts := CompressBlocks(reader, writer, hash, |header|);
    StreamDecodes(input, Joined(parts));
    n := writer.pos;
    assert compressed[..n] == header + Joined(parts);
  }

  /** Whatever the hash, a block of equal bytes is two bytes and copies of up to 64. */
  lemma EqualBytesBlock(input: seq<byte>, hash: (bv32, nat) -> nat, tags: seq<byte>)
    requires 17 <= |input| <= BLOCK_SIZE && (forall i :: 0 <= i < |input| ==> input[i] == input[0])
    requires IsBlock(input, hash, tags)
    ensures |tags| <= 2 + 3 * ((|input| + 62) / 64)
  {
    hide IsTableSize, IsComplete, BlockTags;
    var size, looks :| IsTableSize(|input|, size) && IsComplete(input, HashInto(hash, size), looks) &&
                       tags == BlockTags(input, looks);
    EqualBytesShrink(input, HashInto(hash, size), looks);
  }

  lemma OneBlock(input: seq<byte>, hash: (bv32, nat) -> nat, parts: seq<seq<byte>>)
    requires 1 <= |input| <= BLOCK_SIZE && AreBlocks(input, hash, parts) && |input| <= BLOCK_SIZE * |parts|
    ensures |parts| == 1 && IsBlock(input, hash, parts[0]) && Joined(parts) == parts[0]
  {
    hide IsBlock;
    assert |parts| > 1 ==> BLOCK_SIZE * 1 < |input|;
    assert Block(input, 0) == input && IsBlock(Block(input, 0), hash, parts[0]);
    assert parts[..0] == [];
  }

  /** And its stream has the header in front. */
  lemma EqualBytesStream(input: seq<byte>, hash: (bv32, nat) -> nat, s: seq<byte>)
    requires 17 <= |input| <= BLOCK_SIZE && (forall i :: 0 <= i < |input| ==> input[i] == input[0])
    requires IsStream(input, hash, s)
    ensures |s| <= |Encoded(|input|)| + 2 + 3 * ((|input| + 62) / 64)
  {
    hide AreBlocks, IsBlock, Encoded, Joined;
    var parts :| AreBlocks(input, hash, parts) && |input| <= BLOCK_SIZE * |parts| &&
                 s == Encoded(|input| % TWO_TO_THE_32) + Joined(parts);
    OneBlock(input, hash, parts);
    EqualBytesBlock(input, hash, parts[0]);
  }

  /** From end to end: whatever the hash and however both sources cut their data. */
  method RoundTrip(input: seq<byte>, hash: (bv32, nat) -> nat) returns (ok: bool, output: seq<byte>)
    requires |input| < TWO_TO_THE_32 && IsHashFamily(hash)
    ensures ok && output == input
  {
    hide Decode, VarintValue, VarintLength;
    var reader := new Source(input);
    assert Rest(reader) == input;
    var compressed := new byte[MaxCompressedLength(|input|)];
    var n := RawCompress(reader, compressed, hash);
    var source := new Source(compressed[..n]);
    assert Rest(source) == compressed[..n];
    DecodeLength(compressed[..n]);
    var uncompressed := new byte[|input|];
    ok := RawUncompress(source, uncompressed);
    output := uncompressed[..];
  }

  /** What a stream decodes to has the length its header announces. */
  lemma DecodeLength(s: seq<byte>)
    ensures Decode(s).Some? ==> HasHeader(s) && |Decode(s).value| == VarintValue(s)
  {
    hide RunTags, VarintValue, VarintLength;
  }
}
