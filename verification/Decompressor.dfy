/**
 The tag machine: reads tags from a source that comes in regions, and drives a writer.

 Tags may straddle regions and literals may span many of them.  The bytes still to be
 consumed are `Pending`; what every step keeps is the outcome of the reference decoder on
 `Pending` and on what the writer has produced, so the outcome cannot depend on how the
 source cuts its data.
 */
module Decompressor {
  import opened Bytes
  import opened SnappyFormat
  import opened FlatWriter
  import opened ByteSource
  import opened DecompressionWriter
  import opened Varint
  import CharTable

  /** A four-byte little-endian load. */
  function Load32(mem: seq<byte>, at: nat): nat
    requires at + 4 <= |mem|
  {
    LittleEndian(mem[at..at + 4])
  }

  /** Masks a word down to its `n` low bytes. */
  function ExtractLowBytes(v: nat, n: nat): nat
    requires n <= 4
  {
    v % Pow256(n)
  }

  /** Loading four bytes and masking sees only the first `n`, whatever lies behind them. */
  lemma LowBytes(mem: seq<byte>, at: nat, n: nat)
    requires n <= 4 && at + 4 <= |mem|
    ensures ExtractLowBytes(Load32(mem, at), n) == LittleEndian(mem[at..at + n]) < Pow256(n)
  {
    var s := mem[at..at + 4];
    PrefixOfSlice(mem, at, at + 4, n);
    var b0: int, b1: int, b2: int, b3: int := s[0], s[1], s[2], s[3];
    LowPart(b0, b1, b2, b3, n);
  }

  lemma LowPart(b0: int, b1: int, b2: int, b3: int, n: nat)
    requires 0 <= b0 < 256 && 0 <= b1 < 256 && 0 <= b2 < 256 && 0 <= b3 < 256 && n <= 4
    ensures (b0 + 0x100 * b1 + 0x1_0000 * b2 + 0x100_0000 * b3) % Pow256(n)
         == (if n > 0 then b0 else 0) + (if n > 1 then 0x100 * b1 else 0)
          + (if n > 2 then 0x1_0000 * b2 else 0) + (if n > 3 then 0x100_0000 * b3 else 0)
         < Pow256(n)
  {
    var h1, h2 := b1 + 0x100 * b2 + 0x1_0000 * b3, b2 + 0x100 * b3;
    match n {
      case 0 =>
      case 1 => assert (b0 + 0x100 * h1) % 0x100 == b0;
      case 2 => assert (b0 + 0x100 * b1 + 0x1_0000 * h2) % 0x1_0000 == b0 + 0x100 * b1;
      case 3 =>
      case 4 =>
    }
  }

  /** A literal length below 61 is all in the tag byte. */
  lemma ShortLiteral(c: byte)
    requires c % 4 == LITERAL && c / 4 < 60
    ensures ExtraBytes(c) == 0 && forall x: nat :: TagFrom(c, x) == LiteralTag(c / 4 + 1)
  {
  }

  /** A literal whose tag is one byte, taken from the front of what is buffered. */
  lemma LiteralTaken(buf: seq<byte>, ip: nat, ipLimit: nat, tail: seq<byte>, len: nat, out: seq<byte>, limit: nat)
    requires ip + 1 + len <= ipLimit <= |buf| && ExtraBytes(buf[ip]) == 0
    requires TagOf(buf[ip..ipLimit] + tail) == LiteralTag(len)
    ensures Accept(buf[ip..ipLimit] + tail, out, limit)
         == Accept(buf[ip + 1 + len..ipLimit] + tail, out + buf[ip + 1..ip + 1 + len], limit)
  {
    hide TagOf, ExtraBytes, Accept;
    var s := buf[ip..ipLimit] + tail;
    AcceptLiteral(s, 1, len, out, limit);
    assert s == [buf[ip]] + buf[ip + 1..ip + 1 + len] + (buf[ip + 1 + len..ipLimit] + tail);
    assert s[1 + len..] == buf[ip + 1 + len..ipLimit] + tail;
  }

  class SnappyDecompressor {
    const reader: Source
    const scratch: array<byte>
    /** The memory `ip` points into: a region of the source, or the scratch buffer. */
    var buf: seq<byte>
    var ip: nat
    var ipLimit: nat
    /** Bytes of the current region that the source has not been told to skip yet. */
    var peeked: nat
    var eof: bool
    ghost var inScratch: bool
    /** The source's skip count when the current region was handed out. */
    ghost var region: nat

    ghost predicate Valid()
      reads this, reader
    {
      && scratch.Length == MAXIMUM_TAG_LENGTH && reader.Valid()
      && ip <= ipLimit <= |buf|
      && reader.pos + peeked <= |reader.data| && peeked < TWO_TO_THE_32
    }

    /** What `buf` shows is still there: no region is read after it was skipped. */
    ghost predicate Live()
      reads this, reader, scratch
    {
      if inScratch then buf == scratch[..] else region == reader.skips
    }

    /** The compressed bytes not consumed yet. */
    ghost function Pending(): seq<byte>
      requires Valid()
      reads this, reader
    {
      buf[ip..ipLimit] + reader.data[reader.pos + peeked..]
    }

    /** All of the next tag is buffered, and four bytes behind its first one are readable. */
    ghost predicate TagReady()
      reads this, reader, scratch
    {
      && Valid() && Live() && !eof
      && ip < ipLimit && 1 + ExtraBytes(buf[ip]) <= ipLimit - ip
      && ip + MAXIMUM_TAG_LENGTH <= |buf|
    }

    constructor (r: Source)
      requires r.Valid()
      ensures Valid() && reader == r && fresh(scratch) && !eof
      ensures ip == ipLimit && peeked == 0
      ensures Pending() == r.data[r.pos..]
    {
      reader := r;
      scratch := new byte[MAXIMUM_TAG_LENGTH];
      buf, ip, ipLimit, peeked, eof := [], 0, 0, 0, false;
      inScratch, region := false, 0;
    }

    /** Takes the next byte from the source; `None` at its end. */
    method ReadByte() returns (r: Option<byte>)
      requires Valid() && peeked == 0
      modifies reader
      ensures Valid()
      ensures r == None <==> old(reader.pos) == |reader.data|
      ensures r == None ==> reader.pos == old(reader.pos)
      ensures r.Some? ==> reader.pos == old(reader.pos) + 1 && r.value == reader.data[old(reader.pos)]
    {
      var region := reader.Peek();
      if region == [] {
        return None;
      }
      r := Some(region[0]);
      assert region[0] == reader.data[reader.pos..][0];
      reader.Skip(1);
    }

    /** Reads the header from the source, a byte at a time. */
    method ReadUncompressedLength() returns (r: Option<nat>)
      requires Valid() && ip == ipLimit && peeked == 0
      modifies reader
      ensures Valid()
      ensures r.Some? <==> HasHeader(old(Pending()))
      ensures r.Some? ==> r.value == VarintValue(old(Pending()))
      ensures r.Some? ==> Pending() == old(Pending())[VarintLength(old(Pending()))..]
    {
      hide Read, Shift, VarintValue, VarintLength;
      ghost var start := reader.pos;
      ghost var s := reader.data[start..];
      assert s == Pending();
      var result: nat, digits: nat := 0, 0;
      ReadStart(s);
      while true
        invariant Valid() && reader.pos == start + digits && digits <= 5 && digits <= |s|
        invariant Read(s, digits, result)
        decreases 5 - digits
      {
        if digits >= 5 {
          ReadStops(s, digits, result);
          return None;
        }
        var next := ReadByte();
        if next == None {
          ReadStops(s, digits, result);
          return None;
        }
        var c: int := next.value;
        ReadStep(s, digits, result);
        var val := c % 128;
        if LeftShiftOverflows(val, digits) {
          return None;
        }
        result, digits := result + Shift(digits, val), digits + 1;
        if c < 128 {
          assert reader.data[reader.pos..] == s[digits..];
          return Some(result);
        }
      }
    }

    /** Gives back the used-up region and asks for the next one. */
    method FetchRegion()
      requires Valid() && ip == ipLimit
      modifies this, reader
      ensures Valid() && Live() && Pending() == old(Pending()) && eof == old(eof)
      ensures ip == 0 && ipLimit == |buf| && !inScratch
      ensures buf == [] <==> Pending() == []
    {
      reader.Skip(peeked);
      buf := reader.Peek();
      ip, ipLimit, peeked := 0, |buf|, |buf|;
      inScratch, region := false, reader.skips;
      assert reader.data[reader.pos..] == buf + reader.data[reader.pos + peeked..];
    }

    /** Moves the few buffered bytes to the front of the scratch buffer. */
    method MoveToScratch()
      requires Valid() && Live() && ipLimit - ip <= MAXIMUM_TAG_LENGTH
      modifies this, reader, scratch
      ensures Valid() && Live() && Pending() == old(Pending()) && eof == old(eof)
      ensures inScratch && ip == 0 && ipLimit == old(ipLimit - ip) && peeked == 0
    {
      var bytes := buf[ip..ipLimit];
      forall i | 0 <= i < |bytes| {
        scratch[i] := bytes[i];
      }
      reader.Skip(peeked);
      buf, ip, ipLimit, peeked := scratch[..], 0, |bytes|, 0;
      inScratch := true;
      assert buf[..ipLimit] == bytes;
    }

    /** Adds what the next region has of the `needed` bytes to the scratch buffer. */
    method StitchSome(needed: nat) returns (ok: bool)
      requires Valid() && Live() && inScratch && ip == 0 && peeked == 0
      requires ipLimit < needed <= MAXIMUM_TAG_LENGTH
      modifies this, reader, scratch
      ensures Valid() && Live() && Pending() == old(Pending()) && eof == old(eof)
      ensures inScratch && ip == 0 && peeked == 0
      ensures ok ==> old(ipLimit) < ipLimit <= needed
      ensures !ok ==> |Pending()| < needed
    {
      var src := reader.Peek();
      if src == [] {
        return false;
      }
      var toAdd := Min(needed - ipLimit, |src|);
      ghost var rest, front := reader.data[reader.pos..], scratch[..ipLimit];
      forall i | 0 <= i < toAdd {
        scratch[ipLimit + i] := src[i];
      }
      reader.Skip(toAdd);
      buf, ipLimit := scratch[..], ipLimit + toAdd;
      assert buf[..ipLimit] == front + rest[..toAdd];
      assert rest == rest[..toAdd] + reader.data[reader.pos..];
      return true;
    }

    method Stitch(needed: nat) returns (ok: bool)
      requires Valid() && Live() && inScratch && ip == 0 && peeked == 0
      requires ipLimit < needed <= MAXIMUM_TAG_LENGTH
      modifies this, reader, scratch
      ensures Valid() && Live() && Pending() == old(Pending()) && eof == old(eof)
      ensures ok ==> inScratch && ip == 0 && ipLimit == needed
      ensures !ok ==> |Pending()| < needed
    {
      while ipLimit < needed
        invariant Valid() && Live() && inScratch && ip == 0 && peeked == 0 && ipLimit <= needed
        invariant Pending() == old(Pending()) && eof == old(eof)
      {
        var more := StitchSome(needed);
        if !more {
          return false;
        }
      }
      return true;
    }

    /**
     Makes the next tag wholly available.  Fails at the end of the input, which is the only
     place that reports it, or when the input ends inside a tag.
     */
    method RefillTag() returns (ok: bool)
      requires Valid() && (ip < ipLimit ==> Live()) && !eof && ipLimit - ip < MAXIMUM_TAG_LENGTH
      modifies this, reader, scratch
      ensures Valid() && Pending() == old(Pending())
      ensures ok ==> TagReady()
      ensures !ok ==> (eof <==> Pending() == [])
      ensures !ok && !eof ==> |Pending()| < 1 + ExtraBytes(Pending()[0])
    {
      if ip == ipLimit {
        FetchRegion();
        eof := buf == [];
        if eof {
          return false;
        }
      }
      var c := buf[ip];
      CharTable.EntryFields(c);
      var needed := CharTable.CharTable(c) / 2048 + 1;
      var nbuf := ipLimit - ip;
      assert Pending()[0] == c;
      ok := true;
      if nbuf < needed {
        MoveToScratch();
        ok := Stitch(needed);
        assert Pending()[0] == c;
      } else if nbuf < MAXIMUM_TAG_LENGTH {
        MoveToScratch();
        assert Pending()[0] == c;
      }
    }

    /** The writer shares nothing with the reading side. */
    ghost predicate Apart(w: Writer)
      reads w
    {
      w.Repr !! {this, reader, scratch}
    }

    /** The outcome the reference decoder assigns to what is left; short of room there can be none. */
    ghost function Outcome(w: Writer): Option<seq<byte>>
      requires Valid()
      reads this, reader, w
    {
      if w.Roomy() then Accept(Pending(), w.out, w.limit) else None
    }

    /** The buffered bytes show the tag at the front of the pending stream. */
    lemma PendingTag()
      requires TagReady()
      ensures Pending() != [] && Pending()[0] == buf[ip] && 1 + ExtraBytes(buf[ip]) <= |Pending()|
      ensures TagOf(Pending()) == TagFrom(buf[ip], ExtractLowBytes(Load32(buf, ip + 1), ExtraBytes(buf[ip])))
    {
      hide TagFrom, LittleEndian, ExtractLowBytes, Load32;
      var n := ExtraBytes(buf[ip]);
      LowBytes(buf, ip + 1, n);
      assert Pending()[1..1 + n] == buf[ip + 1..ip + 1 + n];
    }

    /** Consumes `n` buffered bytes. */
    lemma PendingAfter(n: nat)
      requires Valid() && ip + n <= ipLimit
      ensures n <= |Pending()|
      ensures Pending()[..n] == buf[ip..ip + n]
      ensures Pending()[n..] == buf[ip + n..ipLimit] + reader.data[reader.pos + peeked..]
    {
    }

    /** Appends `n` buffered bytes: what was produced and what is pending meet further on. */
    method AppendBuffered(w: Writer, n: nat) returns (ok: bool)
      requires Valid() && Live() && Apart(w) && w.Valid() && ip + n <= ipLimit
      modifies this, w.Repr
      ensures Valid() && Live() && eof == old(eof) && Apart(w) && n <= |old(Pending())|
      ensures w.limit == old(w.limit) && fresh(w.Repr - old(w.Repr)) && w.Sound()
      ensures ipLimit == old(ipLimit) && ip == old(ip) + n
      ensures w.Roomy() ==> (ok <==> |old(w.out)| + n <= w.limit)
      ensures ok ==> w.Valid() && |w.out| == |old(w.out)| + n
      ensures ok ==> w.out + Pending() == old(w.out + Pending())
    {
      hide Writer.Valid;
      PendingAfter(n);
      ok := w.Append(buf[ip..ip + n]);
      ip := ip + n;
    }

    /** Appends all that is buffered and moves on to the next region. */
    method AppendRegion(w: Writer) returns (ok: bool)
      requires Valid() && Live() && Apart(w) && w.Valid()
      modifies this, reader, w.Repr
      ensures Valid() && Live() && eof == old(eof) && Apart(w)
      ensures w.limit == old(w.limit) && fresh(w.Repr - old(w.Repr)) && w.Sound()
      ensures ok ==> w.Valid() && |w.out| == |old(w.out)| + old(ipLimit - ip) && ip < ipLimit
      ensures ok ==> w.out + Pending() == old(w.out + Pending())
      ensures !ok && w.Roomy() ==> |old(w.out)| + old(ipLimit - ip) > w.limit || |old(Pending())| == old(ipLimit - ip)
    {
      hide Writer.Valid;
      ok := AppendBuffered(w, ipLimit - ip);
      if ok {
        FetchRegion();
        ok := buf != [];
      }
    }

    /**
     Appends a literal of `len` bytes, region by region.  It fails exactly when the stream
     holds fewer bytes or the writer has no room for them.
     */
    method AppendLiteral(w: Writer, len: nat) returns (ok: bool)
      requires Valid() && Live() && Apart(w) && w.Valid()
      modifies this, reader, w.Repr
      ensures Valid() && eof == old(eof) && Apart(w)
      ensures w.limit == old(w.limit) && fresh(w.Repr - old(w.Repr)) && w.Sound()
      ensures w.Roomy() ==> (ok <==> len <= |old(Pending())| && |old(w.out)| + len <= w.limit)
      ensures ok ==> Live() && w.Valid() && |w.out| == |old(w.out)| + len
      ensures ok ==> w.out + Pending() == old(w.out + Pending())
    {
      hide Writer.Valid;
      var left := len;
      while ipLimit - ip < left
        invariant Valid() && Live() && eof == old(eof) && Apart(w) && w.Valid() && 0 <= left
        invariant w.limit == old(w.limit) && fresh(w.Repr - old(w.Repr))
        invariant |w.out| + left == |old(w.out)| + len
        invariant w.out + Pending() == old(w.out + Pending())
        decreases left, ipLimit - ip == 0
      {
        var avail := ipLimit - ip;
        ok := AppendRegion(w);
        if !ok {
          return;
        }
        left := left - avail;
      }
      ok := AppendBuffered(w, left);
    }

    /** What a step promises when it goes on: the outcome is the same, and less is pending. */
    twostate predicate Kept(w: Writer)
      requires old(Valid()) && Valid()
      reads this, reader, w
    {
      Outcome(w) == old(Outcome(w)) && |Pending()| < |old(Pending())|
    }

    /** The fast path for a short literal; it leaves at least a whole tag buffered. */
    method FastLiteral(w: Writer) returns (ok: bool)
      requires TagReady() && buf[ip] % 4 == LITERAL && Apart(w) && w.Valid()
      modifies this, w.Repr
      ensures Valid() && Apart(w) && w.Valid()
      ensures w.limit == old(w.limit) && fresh(w.Repr - old(w.Repr)) && w.Sound()
      ensures ok <==> old(w.TakesFast(ipLimit - (ip + 1), buf[ip] / 4 + 1))
      ensures ok ==> TagReady() && Kept(w)
      ensures !ok ==> w.out == old(w.out) && unchanged(this)
    {
      hide Writer.Valid, TagFrom, TagOf, ExtraBytes, Accept;
      var c := buf[ip];
      var literalLength := c / 4 + 1;
      ghost var tail := reader.data[reader.pos + peeked..];
      if literalLength <= 16 && ip + 1 + literalLength <= ipLimit {
        assert ExtraBytes(c) == 0 && TagOf(Pending()) == LiteralTag(literalLength) by {
          PendingTag();
          ShortLiteral(c);
        }
        LiteralTaken(buf, ip, ipLimit, tail, literalLength, w.out, w.limit);
      }
      ok := w.TryFastAppend(buf, ip + 1, ipLimit - (ip + 1), literalLength);
      if ok {
        ip := ip + 1 + literalLength;
      }
    }

    /** Steps over the tag and returns the literal length it gives. */
    method LiteralLength() returns (literalLength: nat)
      requires TagReady() && buf[ip] % 4 == LITERAL
      modifies this
      ensures Valid() && Live() && !eof
      ensures old(Pending()) != [] && 1 + ExtraBytes(old(Pending())[0]) <= |old(Pending())|
      ensures TagOf(old(Pending())) == LiteralTag(literalLength)
      ensures Pending() == old(Pending())[1 + ExtraBytes(old(Pending())[0])..]
    {
      PendingTag();
      var c := buf[ip];
      PendingAfter(1 + ExtraBytes(c));
      literalLength := c / 4 + 1;
      if literalLength >= 61 {
        var literalLengthLength := literalLength - 60;
        literalLength := (ExtractLowBytes(Load32(buf, ip + 1), literalLengthLength) + 1) % TWO_TO_THE_32;
        ip := ip + literalLengthLength;
      }
      ip := ip + 1;
    }

    /** A literal that the fast path declined. */
    method SlowLiteral(w: Writer) returns (ok: bool)
      requires TagReady() && buf[ip] % 4 == LITERAL && Apart(w) && w.Valid()
      modifies this, reader, w.Repr
      ensures Valid() && !eof && Apart(w)
      ensures w.limit == old(w.limit) && fresh(w.Repr - old(w.Repr)) && w.Sound()
      ensures ok ==> Live() && w.Valid() && Kept(w)
      ensures !ok ==> old(Outcome(w)) == None
    {
      hide Writer.Valid, TagOf, ExtraBytes, Accept;
      ghost var s, out := Pending(), w.out;
      var literalLength := LiteralLength();
      ghost var n := 1 + ExtraBytes(s[0]);
      AcceptLiteral(s, n, literalLength, out, w.limit);
      ok := AppendLiteral(w, literalLength);
      if ok {
        AcceptLiteralMoved(s, n, literalLength, out, w.limit, Pending(), w.out);
        assert |w.out + Pending()| == |out + s[n..]|;
      }
    }

    /** Steps over a copy tag and returns what it asks for. */
    method CopyFields() returns (offset: nat, len: nat)
      requires TagReady() && buf[ip] % 4 != LITERAL
      modifies this
      ensures Valid() && Live() && !eof && offset < TWO_TO_THE_64 && len <= 64
      ensures old(Pending()) != [] && 1 + ExtraBytes(old(Pending())[0]) <= |old(Pending())|
      ensures TagOf(old(Pending())) == CopyTag(offset, len)
      ensures Pending() == old(Pending())[1 + ExtraBytes(old(Pending())[0])..]
    {
      hide TagFrom, ExtractLowBytes, Load32, CharTable.CharTable;
      PendingTag();
      var c := buf[ip];
      var entry := CharTable.CharTable(c);
      CharTable.EntryFields(c);
      var trailer := ExtractLowBytes(Load32(buf, ip + 1), entry / 2048);
      LowBytes(buf, ip + 1, entry / 2048);
      len := entry % 256;
      var copyOffset := entry / 256 % 8 * 256;
      PendingAfter(1 + ExtraBytes(c));
      ip := ip + 1 + entry / 2048;
      offset := copyOffset + trailer;
    }

    method Copy(w: Writer) returns (ok: bool)
      requires TagReady() && buf[ip] % 4 != LITERAL && Apart(w) && w.Valid()
      modifies this, w.Repr
      ensures Valid() && !eof && Apart(w)
      ensures w.limit == old(w.limit) && fresh(w.Repr - old(w.Repr)) && w.Sound()
      ensures ok ==> Live() && w.Valid() && Kept(w)
      ensures !ok ==> old(Outcome(w)) == None
    {
      hide Writer.Valid, TagOf, ExtraBytes, Accept, CopyFromSelf;
      ghost var s, out := Pending(), w.out;
      var offset, len := CopyFields();
      AcceptCopy(s, 1 + ExtraBytes(s[0]), offset, len, out, w.limit);
      ok := w.AppendFromSelf(offset, len);
    }

    /** Refills unless a longest tag is buffered. */
    method MaybeRefill() returns (ok: bool)
      requires Valid() && (ip < ipLimit ==> Live()) && !eof
      modifies this, reader, scratch
      ensures Valid() && Pending() == old(Pending())
      ensures ok ==> TagReady()
      ensures !ok ==> (eof <==> Pending() == [])
      ensures !ok && !eof ==> |Pending()| < 1 + ExtraBytes(Pending()[0])
    {
      ok := true;
      if ipLimit - ip < MAXIMUM_TAG_LENGTH {
        ok := RefillTag();
      }
    }

    /** When a refill fails, the outcome is settled. */
    lemma RefillFailed(w: Writer)
      requires Valid() && w.Valid() && (eof <==> Pending() == [])
      requires !eof ==> |Pending()| < 1 + ExtraBytes(Pending()[0])
      ensures !eof ==> Outcome(w) == None
      ensures eof ==> Outcome(w) == if |w.out| == w.limit then Some(w.out) else None
    {
      hide Writer.Valid;
      if !eof {
        AcceptTruncated(Pending(), w.out, w.limit);
      }
      if !w.Roomy() {
        w.ShortOfRoom();
      }
    }

    /** One element: a literal or a copy. */
    method Element(w: Writer) returns (ok: bool, fast: bool)
      requires TagReady() && Apart(w) && w.Valid()
      modifies this, reader, w.Repr
      ensures Valid() && !eof && Apart(w)
      ensures w.limit == old(w.limit) && fresh(w.Repr - old(w.Repr)) && w.Sound()
      ensures ok ==> Live() && w.Valid() && Kept(w)
      ensures ok && fast ==> TagReady()
      ensures !ok ==> old(Outcome(w)) == None
    {
      hide Writer.Valid, Accept;
      var c := buf[ip];
      fast := false;
      if c % 4 == LITERAL {
        fast := FastLiteral(w);
        if fast {
          return true, true;
        }
        ok := SlowLiteral(w);
      } else {
        ok := Copy(w);
      }
    }

    /**
     Runs the whole stream.  At the end of the input the writer holds what the reference
     decoder produces; anything else means that the reference decoder rejects the stream.
     */
    method DecompressAllTags(w: Writer)
      requires Valid() && ip == ipLimit && !eof && Apart(w) && w.Valid()
      modifies this, reader, scratch, w.Repr
      ensures Valid() && w.limit == old(w.limit) && fresh(w.Repr - old(w.Repr)) && w.Sound()
      ensures eof ==> Pending() == [] && w.Valid()
      ensures eof ==> old(Outcome(w)) == if |w.out| == w.limit then Some(w.out) else None
      ensures !eof ==> old(Outcome(w)) == None
    {
      hide Writer.Valid, Accept;
      ghost var outcome := Outcome(w);
      var ready := MaybeRefill();
      while ready
        invariant Valid() && Apart(w) && w.Valid() && Outcome(w) == outcome
        invariant w.limit == old(w.limit) && fresh(w.Repr - old(w.Repr))
        invariant ready ==> TagReady()
        invariant !ready ==> (eof <==> Pending() == [])
        invariant !ready && !eof ==> |Pending()| < 1 + ExtraBytes(Pending()[0])
        decreases |Pending()|, ready
      {
        var ok, fast := Element(w);
        if !ok {
          return;
        }
        if !fast {
          ready := MaybeRefill();
        }
      }
      RefillFailed(w);
    }
  }
}
