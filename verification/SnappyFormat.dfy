/**
 The Snappy stream format, as a reference decoder over byte sequences.

 A stream is a varint header holding the uncompressed length, followed by tags.  A tag
 either appends literal bytes that follow it or appends a copy of bytes already produced,
 and a copy may overlap what it is producing.  Nothing here knows about buffers, regions,
 lookup tables or fast paths: every other Snappy module is proved against this one.
 */
module SnappyFormat {
  import opened Bytes

  //////////////////////////////////////////////////////////////////////////////
  // The overlapping copy
  //////////////////////////////////////////////////////////////////////////////

  /** Appends `len` bytes, each equal to the byte `offset` places before it. */
  function CopyFromSelf(out: seq<byte>, offset: nat, len: nat): (r: seq<byte>)
    requires 1 <= offset <= |out|
    ensures |r| == |out| + len
    ensures forall i :: 0 <= i < |out| ==> r[i] == out[i]
    ensures forall i :: |out| <= i < |r| ==> r[i] == r[i - offset]
    decreases len
  {
    if len == 0 then out else CopyFromSelf(out + [out[|out| - offset]], offset, len - 1)
  }

  /** The three clauses of `CopyFromSelf` leave no freedom. */
  lemma {:induction false} CopyFromSelfUnique(out: seq<byte>, offset: nat, len: nat, r: seq<byte>)
    requires 1 <= offset <= |out|
    requires |r| == |out| + len
    requires forall i :: 0 <= i < |out| ==> r[i] == out[i]
    requires forall i :: |out| <= i < |r| ==> r[i] == r[i - offset]
    ensures r == CopyFromSelf(out, offset, len)
    decreases len
  {
    if len == 0 {
      assert r == out;
    } else {
      var i := |out|;
      assert r[i] == out[|out| - offset];
      CopyFromSelfUnique(out + [out[|out| - offset]], offset, len - 1, r);
    }
  }

  /** Copies with the same offset compose: this is what lets a long match be split. */
  lemma CopyFromSelfSplit(out: seq<byte>, offset: nat, m: nat, n: nat)
    requires 1 <= offset <= |out|
    ensures CopyFromSelf(CopyFromSelf(out, offset, m), offset, n) == CopyFromSelf(out, offset, m + n)
  {
    var mid := CopyFromSelf(out, offset, m);
    var r := CopyFromSelf(mid, offset, n);
    forall i | |out| <= i < |r| ensures r[i] == r[i - offset] {
      if i < |mid| { assert r[i] == mid[i] == mid[i - offset] == r[i - offset]; }
    }
    forall i | 0 <= i < |out| ensures r[i] == out[i] {
      assert r[i] == mid[i];
    }
    CopyFromSelfUnique(out, offset, m + n, r);
  }

  /** A copy no longer than its offset does not overlap itself: it appends a slice. */
  lemma CopyFromSelfDisjoint(out: seq<byte>, offset: nat, len: nat)
    requires len <= offset && 1 <= offset <= |out|
    ensures CopyFromSelf(out, offset, len) == out + out[|out| - offset..|out| - offset + len]
  {
    CopyFromSelfUnique(out, offset, len, out + out[|out| - offset..|out| - offset + len]);
  }

  /** Only the last `offset` bytes matter to a copy. */
  lemma CopyFromSelfSuffix(p: seq<byte>, s: seq<byte>, offset: nat, len: nat)
    requires 1 <= offset <= |s|
    ensures CopyFromSelf(p + s, offset, len) == p + CopyFromSelf(s, offset, len)
  {
    var r := p + CopyFromSelf(s, offset, len);
    forall i | |p + s| <= i < |r| ensures r[i] == r[i - offset] {
      assert r[i] == CopyFromSelf(s, offset, len)[i - |p|];
    }
    CopyFromSelfUnique(p + s, offset, len, r);
  }

  //////////////////////////////////////////////////////////////////////////////
  // Tags
  //////////////////////////////////////////////////////////////////////////////

  /** How much of its input a compressor treats at a time, and a decompressor allocates at a time. */
  const BLOCK_SIZE := 0x1_0000

  datatype Tag = LiteralTag(len: nat) | CopyTag(offset: nat, len: nat)

  const LITERAL := 0
  const COPY_1_BYTE_OFFSET := 1
  const COPY_2_BYTE_OFFSET := 2

  /** How many bytes of a tag follow its first byte. */
  function ExtraBytes(c: byte): (n: nat)
    ensures n <= 4
  {
    if c % 4 == LITERAL then (if c / 4 < 60 then 0 else c / 4 - 59)
    else if c % 4 == COPY_1_BYTE_OFFSET then 1
    else if c % 4 == COPY_2_BYTE_OFFSET then 2
    else 4
  }

  /**
   The tag with first byte `c` and following bytes worth `x`.  A literal length is stored
   minus one, and adding the one back is 32-bit arithmetic: the four-byte length 0xFFFFFFFF
   denotes an empty literal.
   */
  function TagFrom(c: byte, x: nat): Tag {
    if c % 4 == LITERAL then
      LiteralTag(if c / 4 < 60 then c / 4 + 1 else (x + 1) % TWO_TO_THE_32)
    else if c % 4 == COPY_1_BYTE_OFFSET then
      CopyTag(256 * (c / 32) + x, 4 + c / 4 % 8)
    else
      CopyTag(x, c / 4 + 1)
  }

  /** The tag at the front of `s`. */
  function TagOf(s: seq<byte>): Tag
    requires s != [] && 1 + ExtraBytes(s[0]) <= |s|
  {
    TagFrom(s[0], LittleEndian(s[1..1 + ExtraBytes(s[0])]))
  }

  /** What one element of a stream does: how many bytes it takes and what it leaves produced. */
  datatype Effect = Effect(taken: nat, out: seq<byte>)

  /** The element with tag `tag`, whose tag takes `n` bytes of `s`. */
  function RunTag(s: seq<byte>, n: nat, tag: Tag, out: seq<byte>): (r: Option<Effect>)
    requires n <= |s|
    ensures r.Some? ==> n <= r.value.taken <= |s|
    ensures r.Some? ==> |out| <= |r.value.out| && forall i :: 0 <= i < |out| ==> r.value.out[i] == out[i]
  {
    match tag
    case LiteralTag(len) =>
      if |s| < n + len then None else Some(Effect(n + len, out + s[n..n + len]))
    case CopyTag(offset, len) =>
      if offset == 0 || offset > |out| then None else Some(Effect(n, CopyFromSelf(out, offset, len)))
  }

  /** The element at the front of `s`, run on the bytes produced so far. */
  function RunOne(s: seq<byte>, out: seq<byte>): (r: Option<Effect>)
    requires s != []
    ensures r.Some? ==> 1 <= r.value.taken <= |s|
    ensures r.Some? ==> |out| <= |r.value.out| && forall i :: 0 <= i < |out| ==> r.value.out[i] == out[i]
  {
    var n := 1 + ExtraBytes(s[0]);
    if |s| < n then None else RunTag(s, n, TagOf(s), out)
  }

  /** Runs the tags of `s` on the bytes produced so far; `None` when the stream is malformed. */
  function RunTags(s: seq<byte>, out: seq<byte>): (r: Option<seq<byte>>)
    ensures r.Some? ==> |out| <= |r.value| && forall i :: 0 <= i < |out| ==> r.value[i] == out[i]
    decreases |s|
  {
    if s == [] then Some(out)
    else
      match RunOne(s, out)
      case None => None
      case Some(e) => RunTags(s[e.taken..], e.out)
  }

  /** A complete element does not look at what follows it. */
  lemma RunOneConcat(a: seq<byte>, b: seq<byte>, out: seq<byte>)
    requires a != [] && RunOne(a, out).Some?
    ensures RunOne(a + b, out) == RunOne(a, out)
  {
    var s := a + b;
    var n := 1 + ExtraBytes(a[0]);
    assert s[1..n] == a[1..n];
    if TagOf(a).LiteralTag? {
      assert s[n..n + TagOf(a).len] == a[n..n + TagOf(a).len];
    }
  }

  /** Running two tag sequences back to back is running their concatenation. */
  lemma {:induction false} RunTagsConcat(a: seq<byte>, b: seq<byte>, out: seq<byte>)
    requires RunTags(a, out).Some?
    ensures RunTags(a + b, out) == RunTags(b, RunTags(a, out).value)
    decreases |a|
  {
    hide RunOne;
    if a == [] {
      assert a + b == b;
    } else {
      RunOneConcat(a, b, out);
      var e := RunOne(a, out).value;
      assert (a + b)[e.taken..] == a[e.taken..] + b;
      RunTagsConcat(a[e.taken..], b, e.out);
    }
  }

  /** Tags only look back at what was produced: anything may stand in front of it. */
  lemma {:induction false} RunTagsShift(s: seq<byte>, pre: seq<byte>, out: seq<byte>)
    requires RunTags(s, out).Some?
    ensures RunTags(s, pre + out) == Some(pre + RunTags(s, out).value)
    decreases |s|
  {
    hide TagOf, ExtraBytes, CopyFromSelf;
    if s != [] {
      var e := RunOne(s, out).value;
      if TagOf(s).LiteralTag? {
        var n := 1 + ExtraBytes(s[0]);
        assert pre + out + s[n..n + TagOf(s).len] == pre + (out + s[n..n + TagOf(s).len]);
      } else {
        CopyFromSelfSuffix(pre, out, TagOf(s).offset, TagOf(s).len);
      }
      RunTagsShift(s[e.taken..], pre, e.out);
    }
  }

  /** What the tags `s` produce when exactly `limit` bytes are wanted in all. */
  function Accept(s: seq<byte>, out: seq<byte>, limit: nat): (r: Option<seq<byte>>) {
    var r := RunTags(s, out);
    if r.Some? && |r.value| == limit then r else None
  }

  /** Too much output never becomes right again. */
  lemma AcceptTooLong(s: seq<byte>, out: seq<byte>, limit: nat)
    requires |out| > limit
    ensures Accept(s, out, limit) == None
  {
    hide RunOne;
  }

  /** What a literal at the front of the stream comes to. */
  lemma AcceptLiteral(s: seq<byte>, n: nat, len: nat, out: seq<byte>, limit: nat)
    requires s != [] && n == 1 + ExtraBytes(s[0]) <= |s| && TagOf(s) == LiteralTag(len)
    ensures |s| < n + len || |out| + len > limit ==> Accept(s, out, limit) == None
    ensures n + len <= |s| ==> Accept(s, out, limit) == Accept(s[n + len..], out + s[n..n + len], limit)
  {
    hide TagOf, ExtraBytes;
    if n + len <= |s| && |out| + len > limit {
      AcceptTooLong(s[n + len..], out + s[n..n + len], limit);
    }
  }

  /** The same, for a reader that has moved `len` bytes from the stream to the output. */
  lemma AcceptLiteralMoved(s: seq<byte>, n: nat, len: nat, out: seq<byte>, limit: nat, rest: seq<byte>, out': seq<byte>)
    requires s != [] && n == 1 + ExtraBytes(s[0]) <= |s| && TagOf(s) == LiteralTag(len)
    requires out' + rest == out + s[n..] && |out'| == |out| + len
    ensures Accept(s, out, limit) == Accept(rest, out', limit)
  {
    hide TagOf, ExtraBytes, Accept;
    AcceptLiteral(s, n, len, out, limit);
    var all := out + s[n..];
    assert |rest| >= 0;
    assert out' == all[..|out'|] == out + s[n..n + len];
    assert rest == all[|out'|..] == s[n + len..];
  }

  /** What a copy at the front of the stream comes to. */
  lemma AcceptCopy(s: seq<byte>, n: nat, offset: nat, len: nat, out: seq<byte>, limit: nat)
    requires s != [] && n == 1 + ExtraBytes(s[0]) <= |s| && TagOf(s) == CopyTag(offset, len)
    ensures !(1 <= offset <= |out|) || |out| + len > limit ==> Accept(s, out, limit) == None
    ensures 1 <= offset <= |out| ==>
              Accept(s, out, limit) == Accept(s[n..], CopyFromSelf(out, offset, len), limit)
  {
    hide TagOf, ExtraBytes, CopyFromSelf;
    if 1 <= offset <= |out| && |out| + len > limit {
      AcceptTooLong(s[n..], CopyFromSelf(out, offset, len), limit);
    }
  }

  /** A stream that ends inside a tag is malformed. */
  lemma AcceptTruncated(s: seq<byte>, out: seq<byte>, limit: nat)
    requires s != [] && |s| < 1 + ExtraBytes(s[0])
    ensures Accept(s, out, limit) == None
  {
  }

  //////////////////////////////////////////////////////////////////////////////
  // The header
  //////////////////////////////////////////////////////////////////////////////

  /** A base-128 number, least significant digit first, ended by a byte below 128. */
  function VarintLength(s: seq<byte>): (n: nat)
    ensures n <= |s|
  {
    if s == [] then 0
    else if s[0] < 128 then 1
    else if VarintLength(s[1..]) == 0 then 0
    else 1 + VarintLength(s[1..])
  }

  function VarintValue(s: seq<byte>): nat {
    if s == [] then 0
    else if s[0] < 128 then s[0]
    else s[0] - 128 + 128 * VarintValue(s[1..])
  }

  /** A header is a varint of one to five bytes whose value fits 32 bits. */
  predicate HasHeader(s: seq<byte>) {
    1 <= VarintLength(s) <= 5 && VarintValue(s) < TWO_TO_THE_32
  }

  /** The bytes a whole stream stands for, if it is a valid stream. */
  function Decode(s: seq<byte>): Option<seq<byte>> {
    if HasHeader(s) then Accept(s[VarintLength(s)..], [], VarintValue(s)) else None
  }
}
