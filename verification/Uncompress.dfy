/** The decompression entry points. */
module Uncompress {
  import opened Bytes
  import opened SnappyFormat
  import opened ByteSource
  import opened FlatWriter
  import opened IOVec
  import opened Scattered
  import opened DecompressionWriter
  import opened Decompressor

  /** The compressed bytes a source still has to give. */
  ghost function Rest(r: Source): seq<byte>
    requires r.Valid()
    reads r
  {
    r.data[r.pos..]
  }

  /** The buffers the writer was given, if any, hold `len` bytes. */
  ghost predicate HasRoom(w: Writer, len: nat) {
    w.room.Some? ==> len <= w.room.value
  }

  method InternalUncompressAllTags(d: SnappyDecompressor, w: Writer, uncompressedLen: nat) returns (ok: bool)
    requires d.Valid() && d.ip == d.ipLimit && !d.eof && uncompressedLen < TWO_TO_THE_32
    requires w.Unused(uncompressedLen) && d.Apart(w)
    modifies d, d.reader, d.scratch, w.Repr
    ensures d.Valid()
    ensures ok <==> Accept(old(d.Pending()), [], uncompressedLen).Some? && HasRoom(w, uncompressedLen)
    ensures ok ==> w.Valid() && Accept(old(d.Pending()), [], uncompressedLen) == Some(w.out)
    ensures ok ==> d.Pending() == []
    ensures fresh(w.Repr - old(w.Repr)) && w.Sound() && w.limit == uncompressedLen
  {
    hide Writer.Valid, Writer.Unused, Accept;
    w.SetExpectedLength(uncompressedLen);
    d.DecompressAllTags(w);
    ok := d.eof && w.CheckLength();
  }

  /**
   Decompresses a source into a writer.  Provided its buffers are large enough, the writer
   accepts exactly the streams the reference decoder accepts, and then holds exactly what it
   produces; and then the whole source has been consumed.  With smaller buffers it accepts none.
   */
  method InternalUncompress(r: Source, w: Writer) returns (ok: bool)
    requires r.Valid() && r !in w.Repr
    requires HasHeader(Rest(r)) ==> w.Unused(VarintValue(Rest(r)))
    modifies r, w.Repr
    ensures r.Valid() && (ok ==> Rest(r) == [])
    ensures ok <==> Decode(old(Rest(r))).Some? && HasRoom(w, VarintValue(old(Rest(r))))
    ensures ok ==> w.Valid() && Decode(old(Rest(r))) == Some(w.out)
    ensures fresh(w.Repr - old(w.Repr))
    ensures if HasHeader(old(Rest(r))) then w.Sound() && w.limit == VarintValue(old(Rest(r))) else unchanged(old(w.Repr))
  {
    hide Writer.Valid, Writer.Unused, Accept, VarintValue, VarintLength;
    var d := new SnappyDecompressor(r);
    var len := d.ReadUncompressedLength();
    ok := false;
    if len.Some? {
      ok := InternalUncompressAllTags(d, w, len.value);
    }
    r.Skip(d.peeked);
  }

  /**
   Into a flat array with room for what the header announces.  Whether the stream is accepted or not,
   nothing behind the announced length is written, and nothing at all without a header.
   */
  method RawUncompress(r: Source, uncompressed: array<byte>) returns (ok: bool)
    requires r.Valid() && uncompressed.Length < TWO_TO_THE_64
    requires HasHeader(Rest(r)) ==> VarintValue(Rest(r)) <= uncompressed.Length
    modifies r, uncompressed
    ensures ok <==> Decode(old(Rest(r))).Some?
    ensures ok ==> Decode(old(Rest(r))).value <= uncompressed[..]
    ensures var n := if HasHeader(old(Rest(r))) then VarintValue(old(Rest(r))) else 0;
      uncompressed[n..] == old(uncompressed[n..])
  {
    hide Decode, VarintValue, VarintLength;
    var a := new ArrayWriter(uncompressed);
    var w := new Writer.OfArray(a, if HasHeader(Rest(r)) then VarintValue(Rest(r)) else 0);
    ok := InternalUncompress(r, w);
  }

  /** Into separate buffers; if together they do not hold what the header announces, it fails. */
  method RawUncompressToIOVec(r: Source, iov: seq<array<byte>>) returns (ok: bool)
    requires r.Valid() && forall j, k :: 0 <= j < k < |iov| ==> iov[j] != iov[k]
    modifies r, iov
    ensures ok <==> Decode(old(Rest(r))).Some? && VarintValue(old(Rest(r))) <= TotalLength(iov, |iov|)
    ensures ok ==> Decode(old(Rest(r))).value <= Gather(iov, |iov|)
  {
    hide Decode, VarintValue, VarintLength, TotalLength, Gather;
    var v := new IOVecWriter(iov);
    var w := new Writer.OfIOVec(v, if HasHeader(Rest(r)) then VarintValue(Rest(r)) else 0);
    ok := InternalUncompress(r, w);
    if ok {
      v.OutIsPrefix();
    }
  }

  /** Validation accepts exactly what decompression accepts. */
  method IsValidCompressed(r: Source) returns (ok: bool)
    requires r.Valid()
    modifies r
    ensures ok <==> Decode(old(Rest(r))).Some?
    ensures r.Valid() && (ok ==> Rest(r) == [])
  {
    hide Decode, VarintValue, VarintLength;
    var v := new Validator();
    var w := new Writer.OfValidator(v, if HasHeader(Rest(r)) then VarintValue(Rest(r)) else 0);
    ok := InternalUncompress(r, w);
  }

  /** Into blocks, which go to the sink at the end. */
  method UncompressToBlocks(r: Source) returns (ok: bool, sunk: seq<byte>)
    requires r.Valid()
    modifies r
    ensures ok <==> Decode(old(Rest(r))).Some?
    ensures ok ==> Decode(old(Rest(r))) == Some(sunk)
  {
    hide Decode, VarintValue, VarintLength;
    var b := new ScatteredWriter();
    var w := new Writer.OfBlocks(b, if HasHeader(Rest(r)) then VarintValue(Rest(r)) else 0);
    ok := InternalUncompress(r, w);
    sunk := [];
    if ok {
      sunk := b.Flush();
    }
  }
}
