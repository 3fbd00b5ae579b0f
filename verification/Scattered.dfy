/** Decompression into freshly allocated blocks that are handed to a sink at the end. */
module Scattered {
  import opened Bytes
  import opened SnappyFormat
  import opened FlatWriter
  import IncrementalCopy

  class ScatteredWriter {
    /** All blocks but the last are full and hold exactly `BLOCK_SIZE` bytes. */
    var blocks: seq<array<byte>>
    var expected: nat
    /** Total size of the blocks in front of the last one. */
    var fullSize: nat
    /** Write position inside the last block. */
    var opPtr: nat
    /** The bytes produced so far. */
    ghost var out: seq<byte>

    /** Every block but the last has the block size; the last is cut to what is still expected. */
    ghost predicate Shape()
      reads this
    {
      && (forall j, k :: 0 <= j < k < |blocks| ==> blocks[j] != blocks[k])
      && expected < TWO_TO_THE_64
      && if blocks == [] then fullSize == 0 && opPtr == 0 else
           && fullSize == BLOCK_SIZE * (|blocks| - 1) < expected
           && (forall k :: 0 <= k < |blocks| - 1 ==> blocks[k].Length == BLOCK_SIZE)
           && blocks[|blocks| - 1].Length == Min(BLOCK_SIZE, expected - fullSize)
           && opPtr <= blocks[|blocks| - 1].Length
    }

    /** The full blocks hold the front of `out`. */
    ghost predicate FullBlocks()
      reads this, blocks
    {
      && (forall k :: 0 <= k < |blocks| - 1 ==> BLOCK_SIZE * k + blocks[k].Length <= |out|)
      && forall k, j {:trigger blocks[k][j]} :: 0 <= k < |blocks| - 1 && 0 <= j < blocks[k].Length ==>
           blocks[k][j] == out[BLOCK_SIZE * k + j]
    }

    /** The last block holds the rest of `out`. */
    ghost predicate LastBlock()
      requires Shape()
      reads this, blocks
    {
      && |out| == fullSize + opPtr
      && (blocks != [] ==> out[fullSize..] == blocks[|blocks| - 1][..opPtr])
    }

    ghost predicate Valid()
      reads this, blocks
    {
      Shape() && FullBlocks() && LastBlock() && |out| <= expected
    }

    /** How far the last block reaches. */
    function OpLimit(): nat
      reads this
    {
      if blocks == [] then 0 else blocks[|blocks| - 1].Length
    }

    function Size(): (n: nat)
      requires Valid()
      reads this, blocks
      ensures n == |out|
    {
      fullSize + opPtr
    }

    constructor ()
      ensures Valid() && out == [] && blocks == []
    {
      blocks := [];
      expected, fullSize, opPtr := 0, 0, 0;
      out := [];
    }

    method SetExpectedLength(len: nat)
      requires Valid() && blocks == [] && len < TWO_TO_THE_64
      modifies this
      ensures Valid() && out == old(out) && blocks == [] && expected == len
    {
      expected := len;
    }

    predicate CheckLength()
      requires Valid()
      reads this, blocks
      ensures CheckLength() <==> |out| == expected
    {
      Size() == expected
    }

    /**
     The byte at stream position `src` is found by splitting the position into a block
     number and a place in that block.
     */
    function ByteAt(src: nat): (b: byte)
      requires Valid() && src < |out|
      reads this, blocks
      ensures b == out[src]
    {
      assert src / BLOCK_SIZE <= |blocks| - 1;
      assert src / BLOCK_SIZE == |blocks| - 1 ==> out[src] == out[fullSize..][src - fullSize];
      blocks[src / BLOCK_SIZE][src % BLOCK_SIZE]
    }

    /** Stores bytes behind the write position of the last block, producing nothing yet. */
    method Poke(bytes: seq<byte>)
      requires Valid() && opPtr + |bytes| <= OpLimit()
      modifies blocks
      ensures Valid()
      ensures blocks != [] ==> blocks[|blocks| - 1][opPtr..opPtr + |bytes|] == bytes
    {
      if blocks != [] {
        var block := blocks[|blocks| - 1];
        forall i | 0 <= i < |bytes| {
          block[opPtr + i] := bytes[i];
        }
        assert forall k :: 0 <= k < |blocks| - 1 ==> blocks[k] != block;
      }
    }

    /** Counts `n` bytes stored behind the write position as produced. */
    method Advance(n: nat)
      requires Valid() && opPtr + n <= OpLimit()
      modifies this
      ensures Valid() && blocks == old(blocks) && expected == old(expected) && opPtr == old(opPtr) + n
      ensures n == 0 ==> out == old(out)
      ensures n > 0 ==> out == old(out) + blocks[|blocks| - 1][old(opPtr)..old(opPtr) + n]
    {
      if blocks != [] {
        out := out + blocks[|blocks| - 1][opPtr..opPtr + n];
      }
      opPtr := opPtr + n;
    }

    /** Everything the writer may touch later is either what it had or new. */
    twostate predicate Grown()
      reads this
    {
      && |old(blocks)| <= |blocks| && blocks[..|old(blocks)|] == old(blocks)
      && forall k :: |old(blocks)| <= k < |blocks| ==> fresh(blocks[k])
    }

    /** Opens the next block once the last one is full. */
    method NewBlock()
      requires Valid() && opPtr == OpLimit() && |out| < expected
      modifies this
      ensures Valid() && out == old(out) && expected == old(expected)
      ensures |blocks| == |old(blocks)| + 1 && Grown() && opPtr == 0 < OpLimit()
    {
      fullSize := fullSize + opPtr;
      var bsize := Min(BLOCK_SIZE, expected - fullSize);
      var block := new byte[bsize];
      blocks := blocks + [block];
      opPtr := 0;
    }

    /** Appends bytes the last block has room for. */
    method Fill(bytes: seq<byte>)
      requires Valid() && opPtr + |bytes| <= OpLimit()
      modifies this, blocks
      ensures Valid() && blocks == old(blocks) && expected == old(expected)
      ensures out == old(out) + bytes && opPtr == old(opPtr) + |bytes|
    {
      hide FullBlocks, LastBlock;
      Poke(bytes);
      Advance(|bytes|);
    }

    /** One round of `SlowAppend`: fills the last block, tests the bound and opens a block. */
    method FillAndOpen(bytes: seq<byte>) returns (ok: bool, avail: nat)
      requires Valid() && opPtr + |bytes| > OpLimit()
      modifies this, blocks
      ensures Grown() && expected == old(expected)
      ensures avail == old(OpLimit() - opPtr) < |bytes|
      ensures ok <==> |old(out)| + |bytes| <= expected
      ensures ok ==> Valid() && opPtr < OpLimit() && out == old(out) + bytes[..avail]
    {
      avail := OpLimit() - opPtr;
      Fill(bytes[..avail]);
      if fullSize + opPtr + (|bytes| - avail) > expected {
        fullSize := fullSize + opPtr;
        return false, avail;
      }
      NewBlock();
      ok := true;
    }

    /** The append that crosses into new blocks. */
    method SlowAppend(bytes: seq<byte>) returns (ok: bool)
      requires Valid() && opPtr + |bytes| > OpLimit()
      modifies this, blocks
      ensures Grown() && expected == old(expected)
      ensures ok <==> |old(out)| + |bytes| <= expected
      ensures ok ==> Valid() && out == old(out) + bytes
    {
      hide FullBlocks, LastBlock;
      var rest := bytes;
      while |rest| > OpLimit() - opPtr
        invariant Valid() && Grown() && expected == old(expected)
        invariant out + rest == old(out) + bytes
        decreases |rest|, OpLimit() - opPtr == 0
      {
        var more, avail := FillAndOpen(rest);
        if !more {
          return false;
        }
        assert rest == rest[..avail] + rest[avail..];
        rest := rest[avail..];
      }
      Fill(rest);
      return true;
    }

    method Append(bytes: seq<byte>) returns (ok: bool)
      requires Valid()
      modifies this, blocks
      ensures Grown() && expected == old(expected)
      ensures ok <==> |old(out)| + |bytes| <= expected
      ensures ok ==> Valid() && out == old(out) + bytes
    {
      var avail := OpLimit() - opPtr;
      if |bytes| <= avail {
        Fill(bytes);
        return true;
      }
      ok := SlowAppend(bytes);
    }

    method TryFastAppend(mem: seq<byte>, ip: nat, available: nat, len: nat) returns (ok: bool)
      requires Valid() && ip + available <= |mem|
      modifies this, blocks
      ensures Valid() && Grown() && expected == old(expected)
      ensures ok <==> len <= 16 && available >= 16 + MAXIMUM_TAG_LENGTH && old(opPtr + 16 <= OpLimit())
      ensures out == if ok then old(out) + mem[ip..ip + len] else old(out)
    {
      hide FullBlocks, LastBlock;
      var spaceLeft := OpLimit() - opPtr;
      if len <= 16 && available >= 16 + MAXIMUM_TAG_LENGTH && spaceLeft >= 16 {
        Poke(mem[ip..ip + 16]);
        PrefixOfSlice(mem, ip, ip + 16, len);
        PrefixOfSlice(blocks[|blocks| - 1][..], opPtr, opPtr + 16, len);
        Advance(len);
        return true;
      }
      return false;
    }

    /** The copy is done inside the last block, and there gets to its end. */
    ghost predicate Reaches(offset: nat, len: nat)
      requires 1 <= offset <= opPtr && opPtr + len <= OpLimit()
      reads this
    {
      IncrementalCopy.Reach(opPtr - offset, opPtr, opPtr + len, OpLimit()) == opPtr + len
    }

    /** The overlapping copy inside the last block, producing nothing yet. */
    method PokeCopy(offset: nat, len: nat)
      requires Valid() && 1 <= offset <= opPtr && opPtr + len <= OpLimit()
      modifies blocks
      ensures Valid()
      ensures Reaches(offset, len) ==>
        blocks[|blocks| - 1][..opPtr + len] == CopyFromSelf(old(blocks[|blocks| - 1][..opPtr]), offset, len)
    {
      hide CopyFromSelf, IncrementalCopy.Reach;
      var block := blocks[|blocks| - 1];
      IncrementalCopy.Fast(block, opPtr - offset, opPtr, opPtr + len, block.Length);
      assert forall k :: 0 <= k < |blocks| - 1 ==> blocks[k] != block;
      assert Shape() && FullBlocks() && LastBlock();
    }

    /** Copies within the last block. */
    method CopyInside(offset: nat, len: nat)
      requires Valid() && 1 <= offset <= opPtr && opPtr + len <= OpLimit()
      modifies this, blocks
      ensures Valid() && Grown() && expected == old(expected) && |out| == |old(out)| + len
      ensures old(Reaches(offset, len)) ==> out == CopyFromSelf(old(out), offset, len)
    {
      hide CopyFromSelf, IncrementalCopy.Reach;
      CopyFromSelfSuffix(out[..fullSize], out[fullSize..], offset, len);
      assert out == out[..fullSize] + out[fullSize..];
      PokeCopy(offset, len);
      Advance(len);
    }

    /** Appends the byte at stream position `src`. */
    method CopyByte(src: nat)
      requires Valid() && src < |out| < expected
      modifies this, blocks
      ensures Valid() && Grown() && expected == old(expected)
      ensures out == CopyFromSelf(old(out), |old(out)| - src, 1)
    {
      hide CopyFromSelf;
      var c := ByteAt(src);
      CopyFromSelfDisjoint(out, |out| - src, 1);
      assert [c] == out[src..src + 1];
      var _ := Append([c]);
    }

    /** The copy that may cross blocks, a byte at a time. */
    method SlowAppendFromSelf(offset: nat, len: nat) returns (ok: bool)
      requires Valid() && offset < TWO_TO_THE_64
      modifies this, blocks
      ensures Grown() && expected == old(expected)
      ensures ok <==> 1 <= offset <= |old(out)| && |old(out)| + len <= expected
      ensures ok ==> Valid() && out == CopyFromSelf(old(out), offset, len)
    {
      hide CopyFromSelf, FullBlocks, LastBlock;
      var cur := Size();
      if Sub64(offset, 1) >= cur {
        return false;
      }
      if expected - cur < len {
        return false;
      }
      var src := cur - offset;
      CopyFromSelfUnique(out, offset, 0, out);
      for i := 0 to len
        invariant Valid() && Grown() && expected == old(expected)
        invariant src + offset == |out| && |out| == cur + i
        invariant out == CopyFromSelf(old(out), offset, i)
      {
        CopyFromSelfSplit(old(out), offset, i, 1);
        CopyByte(src);
        src := src + 1;
      }
      return true;
    }

    /** Copies from what was produced; only inside the last block can a copy of more than 64 bytes stop short. */
    method AppendFromSelf(offset: nat, len: nat) returns (ok: bool)
      requires Valid() && offset < TWO_TO_THE_64
      modifies this, blocks
      ensures Grown() && expected == old(expected)
      ensures ok <==> 1 <= offset <= |old(out)| && |old(out)| + len <= expected
      ensures ok ==> Valid() && |out| == |old(out)| + len
      ensures ok && old(1 <= offset <= opPtr && opPtr + len <= OpLimit() ==> Reaches(offset, len)) ==>
        out == CopyFromSelf(old(out), offset, len)
      ensures ok && len <= 64 ==> out == CopyFromSelf(old(out), offset, len)
    {
      hide CopyFromSelf, IncrementalCopy.Reach;
      if Sub64(offset, 1) < opPtr && opPtr + len <= OpLimit() {
        CopyInside(offset, len);
        return true;
      }
      ok := SlowAppendFromSelf(offset, len);
    }

    /** Hands the blocks to the sink, cut to what was produced. */
    method Flush() returns (sunk: seq<byte>)
      requires Valid()
      ensures sunk == out
    {
      sunk := [];
      for i := 0 to |blocks|
        invariant sunk <= out
        invariant i < |blocks| ==> |sunk| == BLOCK_SIZE * i
        invariant i == |blocks| ==> |sunk| == |out|
      {
        var blockSize := Min(blocks[i].Length, Size() - |sunk|);
        assert i == |blocks| - 1 ==> out[fullSize..] == blocks[i][..blockSize];
        assert i < |blocks| - 1 ==> blockSize == BLOCK_SIZE && out[|sunk|..|sunk| + BLOCK_SIZE] == blocks[i][..blockSize];
        sunk := sunk + blocks[i][..blockSize];
      }
    }
  }
}
