/** The compressor's output: literals and copies as tag bytes. */
module Emit {
  import opened Bytes
  import opened SnappyFormat
  import opened StrictFormat
  import Bits

  /** The largest compressed size of `n` bytes: seven for every six, and 32. */
  function MaxCompressedLength(n: nat): (r: nat)
    ensures 6 * r <= 7 * n + 192 < 6 * r + 6
  {
    32 + n + n / 6
  }

  //////////////////////////////////////////////////////////////////////////////
  // What is emitted
  //////////////////////////////////////////////////////////////////////////////

  /** The `count` low bytes of `n`, least significant first. */
  function LowBytes(n: nat, count: nat): seq<byte>
    requires count <= 4
  {
    [n % 0x100, n / 0x100 % 0x100, n / 0x1_0000 % 0x100, n / 0x100_0000 % 0x100][..count]
  }

  /** How many bytes a number takes. */
  function ByteCount(n: nat): nat {
    if n < 0x100 then 1 else if n < 0x1_0000 then 2 else if n < 0x100_0000 then 3 else 4
  }

  /** The tag of a literal of `len` bytes. */
  function LiteralTagBytes(len: nat): seq<byte>
    requires 1 <= len < TWO_TO_THE_32
  {
    var n := len - 1;
    if n < 60 then [4 * n] else [4 * (59 + ByteCount(n))] + LowBytes(n, ByteCount(n))
  }

  /** The tag of one copy. */
  function CopyTagBytes(offset: nat, len: nat): seq<byte>
    requires offset < 0x1_0000 && 4 <= len <= 64
  {
    if len < 12 && offset < 2048 then
      [COPY_1_BYTE_OFFSET + 4 * (len - 4) + 32 * (offset / 256), offset % 256]
    else
      [COPY_2_BYTE_OFFSET + 4 * (len - 1), offset % 256, offset / 256]
  }

  /** A match of any length: copies of 64 while at least four bytes stay for the last one. */
  function CopyBytes(offset: nat, len: nat): seq<byte>
    requires offset < 0x1_0000 && 4 <= len
    decreases len
  {
    if len >= 68 then CopyTagBytes(offset, 64) + CopyBytes(offset, len - 64)
    else if len > 64 then CopyTagBytes(offset, 60) + CopyTagBytes(offset, len - 60)
    else CopyTagBytes(offset, len)
  }

  //////////////////////////////////////////////////////////////////////////////
  // What it means
  //////////////////////////////////////////////////////////////////////////////

  lemma LowBytesRead(n: nat)
    requires n < TWO_TO_THE_32
    ensures |LowBytes(n, ByteCount(n))| == ByteCount(n) && LittleEndian(LowBytes(n, ByteCount(n))) == n
  {
    FourBytes(n);
    var d0: int, d1: int, d2: int, d3: int := n % 0x100, n / 0x100 % 0x100, n / 0x1_0000 % 0x100, n / 0x100_0000 % 0x100;
    match ByteCount(n) {
      case 1 => assert LowBytes(n, 1) == [d0];
      case 2 => assert LowBytes(n, 2) == [d0, d1];
      case 3 => assert LowBytes(n, 3) == [d0, d1, d2];
      case 4 => assert LowBytes(n, 4) == [d0, d1, d2, d3];
    }
  }

  /** The `k` low bytes of a number of at most `k` bytes read back as that number, leading zeros included. */
  lemma LowBytesReadBack(n: nat, k: nat)
    requires k <= 4 && n < Pow256(k)
    ensures |LowBytes(n, k)| == k && LittleEndian(LowBytes(n, k)) == n
  {
    FourBytes(n);
    var d0: int, d1: int, d2: int, d3: int := n % 0x100, n / 0x100 % 0x100, n / 0x1_0000 % 0x100, n / 0x100_0000 % 0x100;
    match k {
      case 0 => assert LowBytes(n, 0) == [];
      case 1 => assert LowBytes(n, 1) == [d0];
      case 2 => assert LowBytes(n, 2) == [d0, d1];
      case 3 => assert LowBytes(n, 3) == [d0, d1, d2];
      case 4 => assert LowBytes(n, 4) == [d0, d1, d2, d3];
    }
  }

  lemma FourBytes(n: nat)
    requires n < TWO_TO_THE_32
    ensures n == n % 0x100 + 0x100 * (n / 0x100 % 0x100) + 0x1_0000 * (n / 0x1_0000 % 0x100)
               + 0x100_0000 * (n / 0x100_0000 % 0x100)
  {
    var n1, n2, n3 := n / 0x100, n / 0x1_0000, n / 0x100_0000;
    assert n2 == n1 / 0x100 && n3 == n2 / 0x100;
    assert n == 0x100 * n1 + n % 0x100 && n1 == 0x100 * n2 + n1 % 0x100 && n2 == 0x100 * n3 + n2 % 0x100;
  }

  lemma LiteralTagOf(len: nat, s: seq<byte>)
    requires 1 <= len < TWO_TO_THE_32
    requires LiteralTagBytes(len) <= s
    ensures |LiteralTagBytes(len)| == 1 + ExtraBytes(s[0]) <= |s|
    ensures TagOf(s) == LiteralTag(len)
  {
    hide LowBytes, LittleEndian;
    var n := len - 1;
    if n >= 60 {
      LowBytesRead(n);
      assert s[1..1 + ByteCount(n)] == LowBytes(n, ByteCount(n));
    }
  }

  //////////////////////////////////////////////////////////////////////////////
  // The tags of the format, whether or not they are emitted
  //////////////////////////////////////////////////////////////////////////////

  lemma ShortLiteralFormat(len: nat)
    requires 1 <= len <= 60
    ensures ExtraBytes(4 * (len - 1)) == 0 && TagOf([4 * (len - 1)]) == LiteralTag(len)
  {
    hide LittleEndian;
  }

  lemma LongLiteralFormat(len: nat, k: nat)
    requires 1 <= k <= 4 && 1 <= len <= Pow256(k) && len < TWO_TO_THE_32
    ensures ExtraBytes(4 * (59 + k)) == k == |LowBytes(len - 1, k)|
    ensures TagOf([4 * (59 + k)] + LowBytes(len - 1, k)) == LiteralTag(len)
  {
    hide LittleEndian, LowBytes;
    LowBytesReadBack(len - 1, k);
    var s := [4 * (59 + k)] + LowBytes(len - 1, k);
    assert s[1..1 + k] == LowBytes(len - 1, k);
  }

  lemma OneByteOffsetFormat(offset: nat, len: nat)
    requires 4 <= len <= 11 && offset < 2048
    ensures var c := 1 + 4 * (len - 4) + 32 * (offset / 256);
      ExtraBytes(c) == 1 && TagOf([c, offset % 256]) == CopyTag(offset, len)
  {
    ShortCopyByte(len - 4, offset / 256, offset % 256);
    var c: byte := 1 + 4 * (len - 4) + 32 * (offset / 256);
    assert [c, offset % 256][1..2] == [offset % 256];
  }

  lemma TwoByteOffsetFormat(offset: nat, len: nat)
    requires 1 <= len <= 64 && offset < 0x1_0000
    ensures ExtraBytes(2 + 4 * (len - 1)) == 2 == |LowBytes(offset, 2)|
    ensures TagOf([2 + 4 * (len - 1)] + LowBytes(offset, 2)) == CopyTag(offset, len)
  {
    hide LittleEndian, LowBytes;
    LowBytesReadBack(offset, 2);
    var s := [2 + 4 * (len - 1)] + LowBytes(offset, 2);
    assert s[1..3] == LowBytes(offset, 2);
  }

  lemma FourByteOffsetFormat(offset: nat, len: nat)
    requires 1 <= len <= 64 && offset < TWO_TO_THE_32
    ensures ExtraBytes(3 + 4 * (len - 1)) == 4 == |LowBytes(offset, 4)|
    ensures TagOf([3 + 4 * (len - 1)] + LowBytes(offset, 4)) == CopyTag(offset, len)
  {
    hide LittleEndian, LowBytes;
    LowBytesReadBack(offset, 4);
    var s := [3 + 4 * (len - 1)] + LowBytes(offset, 4);
    assert s[1..5] == LowBytes(offset, 4);
  }

  /** An emitted literal appends its bytes. */
  lemma LiteralRuns(bytes: seq<byte>, out: seq<byte>)
    requires 1 <= |bytes| < TWO_TO_THE_32
    ensures RunTags(LiteralTagBytes(|bytes|) + bytes, out) == Some(out + bytes)
  {
    var tag := LiteralTagBytes(|bytes|);
    var s := tag + bytes;
    LiteralTagOf(|bytes|, s);
    assert s[|tag|..|tag| + |bytes|] == bytes;
    assert s[|s|..] == [];
  }

  /** A literal of a block has no tag that wraps around. */
  lemma LiteralNoWrap(bytes: seq<byte>)
    requires 1 <= |bytes| <= BLOCK_SIZE
    ensures !HasWrappingTag(LiteralTagBytes(|bytes|) + bytes)
  {
    hide LowBytes, LittleEndian, TagFrom;
    var tag := LiteralTagBytes(|bytes|);
    var s := tag + bytes;
    LiteralTagOf(|bytes|, s);
    LowBytesRead(|bytes| - 1);
    assert s[0] == tag[0] && s[0] != 0xFC;
    assert s[|s|..] == [];
  }

  lemma CopyTagOf(offset: nat, len: nat)
    requires offset < 0x1_0000 && 4 <= len <= 64
    ensures |CopyTagBytes(offset, len)| == 1 + ExtraBytes(CopyTagBytes(offset, len)[0])
    ensures TagOf(CopyTagBytes(offset, len)) == CopyTag(offset, len)
  {
    hide TagFrom, ExtraBytes;
    var s := CopyTagBytes(offset, len);
    var c := s[0];
    if len < 12 && offset < 2048 {
      ShortCopyByte(len - 4, offset / 256, offset % 256);
      assert s[1..2] == [offset % 256];
    } else {
      LongCopyByte(len, offset);
      assert s[1..3] == [offset % 256, offset / 256];
    }
  }

  lemma ShortCopyByte(length: nat, high: nat, low: nat)
    requires length < 8 && high < 8
    ensures var c := COPY_1_BYTE_OFFSET + 4 * length + 32 * high;
      ExtraBytes(c) == 1 && TagFrom(c, low) == CopyTag(256 * high + low, 4 + length)
  {
    var c := COPY_1_BYTE_OFFSET + 4 * length + 32 * high;
    assert c % 4 == 1 && c / 4 == length + 8 * high && c / 32 == high;
  }

  lemma LongCopyByte(len: nat, offset: nat)
    requires 1 <= len <= 64
    ensures var c := COPY_2_BYTE_OFFSET + 4 * (len - 1);
      ExtraBytes(c) == 2 && TagFrom(c, offset) == CopyTag(offset, len)
  {
    var c := COPY_2_BYTE_OFFSET + 4 * (len - 1);
    assert c % 4 == 2 && c / 4 == len - 1;
  }

  /** One copy tag makes one copy. */
  lemma CopyTagRuns(offset: nat, len: nat, out: seq<byte>)
    requires 1 <= offset < 0x1_0000 && 4 <= len <= 64 && offset <= |out|
    ensures RunTags(CopyTagBytes(offset, len), out) == Some(CopyFromSelf(out, offset, len))
  {
    hide CopyTagBytes, TagFrom, ExtraBytes;
    var s := CopyTagBytes(offset, len);
    CopyTagOf(offset, len);
    assert s[|s|..] == [];
  }

  lemma CopyTagNoWrap(offset: nat, len: nat)
    requires offset < 0x1_0000 && 4 <= len <= 64
    ensures !HasWrappingTag(CopyTagBytes(offset, len))
  {
    hide CopyTagBytes, TagFrom, ExtraBytes;
    var s := CopyTagBytes(offset, len);
    CopyTagOf(offset, len);
    assert |s| < 5 by { CopyTagLength(offset, len); }
    assert s[|s|..] == [];
  }

  lemma CopyTagLength(offset: nat, len: nat)
    requires offset < 0x1_0000 && 4 <= len <= 64
    ensures 2 <= |CopyTagBytes(offset, len)| <= 3
  {
  }

  /** Neither have copies. */
  lemma {:induction false} CopyNoWrap(offset: nat, len: nat, out: seq<byte>)
    requires 1 <= offset < 0x1_0000 && 4 <= len && offset <= |out|
    ensures !HasWrappingTag(CopyBytes(offset, len))
    decreases len
  {
    hide CopyTagBytes, RunTags, CopyFromSelf, HasWrappingTag;
    if len > 64 {
      var first := if len >= 68 then 64 else 60;
      CopyTagRuns(offset, first, out);
      CopyTagNoWrap(offset, first);
      CopyNoWrap(offset, len - first, CopyFromSelf(out, offset, first));
      NoWrapConcat(CopyTagBytes(offset, first), CopyBytes(offset, len - first), out);
    } else {
      CopyTagNoWrap(offset, len);
    }
  }

  /** However a match is split into copies, running them is one copy of its whole length. */
  lemma {:induction false} CopyRuns(offset: nat, len: nat, out: seq<byte>)
    requires 1 <= offset < 0x1_0000 && 4 <= len && offset <= |out|
    ensures RunTags(CopyBytes(offset, len), out) == Some(CopyFromSelf(out, offset, len))
    decreases len
  {
    hide CopyTagBytes, RunTags, CopyFromSelf;
    if len > 64 {
      var first := if len >= 68 then 64 else 60;
      var mid := CopyFromSelf(out, offset, first);
      CopyTagRuns(offset, first, out);
      CopyRuns(offset, len - first, mid);
      RunTagsConcat(CopyTagBytes(offset, first), CopyBytes(offset, len - first), out);
      CopyFromSelfSplit(out, offset, first, len - first);
    } else {
      CopyTagRuns(offset, len, out);
    }
  }

  /** A copy with a four-byte offset makes that copy, although it is never emitted. */
  lemma FourByteOffsetRuns(offset: nat, len: nat, out: seq<byte>)
    requires 1 <= len <= 64 && 1 <= offset < TWO_TO_THE_32 && offset <= |out|
    ensures RunTags([3 + 4 * (len - 1)] + LowBytes(offset, 4), out) == Some(CopyFromSelf(out, offset, len))
  {
    hide TagOf, ExtraBytes, LowBytes;
    FourByteOffsetFormat(offset, len);
    var s := [3 + 4 * (len - 1)] + LowBytes(offset, 4);
    assert s[|s|..] == [];
  }

  /** A literal of four bytes and a copy of them with a four-byte offset. */
  lemma FourByteOffsetStream(s: seq<byte>)
    requires s == [8, 0x0C, 97, 98, 99, 100, 0x0F, 4, 0, 0, 0]
    ensures Decode(s) == Some([97, 98, 99, 100, 97, 98, 99, 100])
  {
    hide RunTags, CopyFromSelf, LowBytes;
    var abcd: seq<byte> := [97, 98, 99, 100];
    var literal, copy := LiteralTagBytes(4) + abcd, [0x0F] + LowBytes(4, 4);
    LiteralRuns(abcd, []);
    assert [] + abcd == abcd;
    FourByteOffsetRuns(4, 4, abcd);
    CopyFromSelfDisjoint(abcd, 4, 4);
    RunTagsConcat(literal, copy, []);
    FourLowBytes();
    assert VarintLength(s) == 1 && VarintValue(s) == 8;
    assert s[1..] == literal + copy;
    assert abcd[4 - 4..4 - 4 + 4] == abcd;
    assert abcd + abcd == [97, 98, 99, 100, 97, 98, 99, 100];
  }

  lemma FourLowBytes()
    ensures LowBytes(4, 4) == [4, 0, 0, 0]
  {
  }

  /** Copies save at least a byte on what they produce, and there are no more of them than 64 bytes each need. */
  lemma {:induction false} CopyBytesLength(offset: nat, len: nat)
    requires offset < 0x1_0000 && 4 <= len
    ensures 2 <= |CopyBytes(offset, len)| < len
    ensures 3 * ((len + 63) / 64) - 1 <= |CopyBytes(offset, len)| <= 3 * ((len + 63) / 64)
    ensures len < 12 ==> |CopyBytes(offset, len)| == if offset < 2048 then 2 else 3
    decreases len
  {
    if len >= 68 {
      CopyBytesLength(offset, len - 64);
      assert (len + 63) / 64 == 1 + (len - 64 + 63) / 64;
    }
  }

  /** A literal's tag has as many bytes of length as its length needs. */
  lemma LiteralTagSize(len: nat)
    requires 1 <= len < TWO_TO_THE_32
    ensures |LiteralTagBytes(len)| == if len <= 60 then 1 else if len <= 0x100 then 2 else if len <= 0x1_0000 then 3
                                      else if len <= 0x100_0000 then 4 else 5
  {
  }

  //////////////////////////////////////////////////////////////////////////////
  // Emitting
  //////////////////////////////////////////////////////////////////////////////

  /** Up to `end`, the buffer holds what it held up to `op`, followed by `bytes`. */
  twostate predicate Emitted(dest: array<byte>, op: nat, end: nat, bytes: seq<byte>)
    reads dest
  {
    && op <= end <= dest.Length
    && dest[..end] == old(dest[..op]) + bytes
  }

  /** Stores bytes in a buffer. */
  method Put(dest: array<byte>, op: nat, bytes: seq<byte>)
    requires op + |bytes| <= dest.Length
    modifies dest
    ensures Emitted(dest, op, op + |bytes|, bytes)
  {
    forall i | 0 <= i < |bytes| {
      dest[op + i] := bytes[i];
    }
  }

  /** The number of bytes of a length follows from the place of its highest bit. */
  lemma CountFromLog(n: nat, log: nat)
    requires log < 32 && Bits.Pow2(log) <= n < 2 * Bits.Pow2(log)
    ensures log / 8 + 1 == ByteCount(n)
  {
    Bits.SmallPowers();
    if log < 8 { Bits.Pow2Monotone(log + 1, 8); } else { Bits.Pow2Monotone(8, log); }
    if log < 16 { Bits.Pow2Monotone(log + 1, 16); } else { Bits.Pow2Monotone(16, log); }
    if log < 24 { Bits.Pow2Monotone(log + 1, 24); } else { Bits.Pow2Monotone(24, log); }
  }

  /** The tag of a literal that does not fit the tag byte; four bytes are stored, `count` kept. */
  method EmitLongTag(dest: array<byte>, op: nat, len: nat) returns (op': nat)
    requires 61 <= len < TWO_TO_THE_32 && op + 5 <= dest.Length
    modifies dest
    ensures Emitted(dest, op, op', LiteralTagBytes(len)) && op' <= op + 5
  {
    hide LowBytes, ByteCount;
    var n := len - 1;
    var log := Bits.Log2FloorNonZero(n);
    var count := log / 8 + 1;
    CountFromLog(n, log);
    LowBytesRead(n);
    var word := LowBytes(n, 4);
    ghost var kept := LowBytes(n, count);
    LowBytesPrefix(n, count);
    Put(dest, op, [4 * (59 + count)]);
    PrefixOfConcat(dest[..op + 1], word, count);
    Put(dest, op + 1, word);
    op' := op + 1 + count;
    assert dest[..op'] == dest[..op + 5][..op'];
  }

  lemma LowBytesPrefix(n: nat, count: nat)
    requires count <= 4
    ensures |LowBytes(n, 4)| == 4 && LowBytes(n, count) == LowBytes(n, 4)[..count]
  {
  }

  /** Emits a literal; the fast path copies sixteen bytes whatever the length. */
  method EmitLiteral(dest: array<byte>, op: nat, input: seq<byte>, literal: nat, len: nat, allowFastPath: bool)
    returns (op': nat)
    requires 1 <= len < TWO_TO_THE_32 && literal + len <= |input|
    requires op + |LiteralTagBytes(len)| + len <= dest.Length
    requires allowFastPath && len <= 16 ==> literal + 16 <= |input| && op + 17 <= dest.Length
    modifies dest
    ensures Emitted(dest, op, op', LiteralTagBytes(len) + input[literal..literal + len])
  {
    hide LowBytes, ByteCount;
    var n := len - 1;
    var body := op + 1;
    if n < 60 {
      Put(dest, op, [4 * n]);
    } else {
      LowBytesRead(n);
      body := EmitLongTag(dest, op, len);
    }
    assert dest[..body] == old(dest[..op]) + LiteralTagBytes(len);
    EmitBody(dest, body, input, literal, len, allowFastPath);
    op' := body + len;
  }

  /** The bytes of a literal, behind its tag. */
  method EmitBody(dest: array<byte>, op: nat, input: seq<byte>, literal: nat, len: nat, allowFastPath: bool)
    requires literal + len <= |input| && op + len <= dest.Length
    requires allowFastPath && len <= 16 ==> literal + 16 <= |input| && op + 16 <= dest.Length
    modifies dest
    ensures Emitted(dest, op, op + len, input[literal..literal + len])
  {
    if allowFastPath && len <= 16 {
      Put(dest, op, input[literal..literal + 16]);
      PrefixOfSlice(input, literal, literal + 16, len);
      assert dest[..op + len] == dest[..op + 16][..op + len];
    } else {
      Put(dest, op, input[literal..literal + len]);
    }
  }

  /** The word that `EmitCopyAtMost64` stores holds the three bytes of the tag, and a zero. */
  lemma CopyWord(offset: nat, len: nat)
    requires offset < 0x1_0000 && 4 <= len <= 64
    ensures LowBytes(COPY_2_BYTE_OFFSET + 4 * (len - 1) + 0x100 * offset, 4)[..3]
         == [COPY_2_BYTE_OFFSET + 4 * (len - 1), offset % 256, offset / 256]
  {
    var u := COPY_2_BYTE_OFFSET + 4 * (len - 1) + 0x100 * offset;
    assert u % 0x100 == COPY_2_BYTE_OFFSET + 4 * (len - 1);
    assert u / 0x100 == offset;
    assert u / 0x1_0000 == offset / 256;
  }

  /** Emits one copy; the three-byte form stores four bytes. */
  method EmitCopyAtMost64(dest: array<byte>, op: nat, offset: nat, len: nat, lenLessThan12: bool) returns (op': nat)
    requires offset < 0x1_0000 && 4 <= len <= 64 && lenLessThan12 == (len < 12)
    requires op + |CopyTagBytes(offset, len)| + 1 <= dest.Length
    modifies dest
    ensures Emitted(dest, op, op', CopyTagBytes(offset, len))
  {
    hide LowBytes;
    if lenLessThan12 && offset < 2048 {
      Put(dest, op, [COPY_1_BYTE_OFFSET + 4 * (len - 4) + 32 * (offset / 256), offset % 256]);
      op' := op + 2;
    } else {
      var u := COPY_2_BYTE_OFFSET + 4 * (len - 1) + 0x100 * offset;
      CopyWord(offset, len);
      LowBytesPrefix(u, 3);
      PrefixOfConcat(dest[..op], LowBytes(u, 4), 3);
      Put(dest, op, LowBytes(u, 4));
      op' := op + 3;
      assert dest[..op'] == dest[..op + 4][..op'];
    }
  }

  /** Emits a match of any length. */
  method EmitCopy(dest: array<byte>, op: nat, offset: nat, len: nat, lenLessThan12: bool) returns (op': nat)
    requires offset < 0x1_0000 && 4 <= len && lenLessThan12 == (len < 12)
    requires op + |CopyBytes(offset, len)| + 1 <= dest.Length
    modifies dest
    ensures Emitted(dest, op, op', CopyBytes(offset, len))
  {
    hide CopyTagBytes;
    if lenLessThan12 {
      op' := EmitCopyAtMost64(dest, op, offset, len, true);
    } else {
      op' := op;
      var left := len;
      while left >= 68
        invariant 4 <= left <= len && op <= op' <= dest.Length
        invariant dest[..op'] + CopyBytes(offset, left) == old(dest[..op]) + CopyBytes(offset, len)
      {
        op' := EmitCopyAtMost64(dest, op', offset, 64, false);
        left := left - 64;
      }
      if left > 64 {
        op' := EmitCopyAtMost64(dest, op', offset, 60, false);
        left := left - 60;
      }
      op' := EmitCopyAtMost64(dest, op', offset, left, left < 12);
    }
  }
}
