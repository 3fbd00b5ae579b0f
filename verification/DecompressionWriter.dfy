/**
 The four interchangeable writers behind one face.

 The decompressor is a template over its writer; here the instances of the template are the
 constructors of `Implementation`, and `Writer` dispatches on them.  Every constructor meets
 the same contract: provided its buffers hold what the stream announced, an append or a copy
 is accepted exactly when it stays within the limit (and a copy reaches no further back than
 what was produced), and then extends `out` as the format says.
 */
module DecompressionWriter {
  import opened Bytes
  import opened SnappyFormat
  import opened FlatWriter
  import opened IOVec
  import opened Scattered
  import IncrementalCopy

  datatype Implementation =
    | Flat(array: ArrayWriter)
    | Vector(vector: IOVecWriter)
    | Blocks(blocks: ScatteredWriter)
    | ValidateOnly(validator: Validator)

  class Writer {
    const impl: Implementation
    /** The bytes produced so far. */
    ghost var out: seq<byte>
    /** The uncompressed length the stream announced. */
    ghost var limit: nat
    /** Every object the writer may change. */
    ghost var Repr: set<object>
    /** How much the buffers hold that the writer was given, if it does not make its own. */
    ghost const room: Option<nat>

    /** The objects of the implementation are in `Repr`. */
    ghost predicate Owns()
      reads this, if impl.Blocks? then {impl.blocks} else {}
    {
      && this in Repr
      && match impl
         case Flat(w) => {w, w.base} <= Repr
         case Vector(w) => w in Repr && forall b :: b in w.iov ==> b in Repr
         case Blocks(w) => w in Repr && forall b :: b in w.blocks ==> b in Repr
         case ValidateOnly(w) => w in Repr
    }

    /** The buffers hold what the stream announced. */
    ghost predicate Roomy()
      reads this
    {
      room.Some? ==> limit <= room.value
    }

    /** A writer nothing was written to, that may be asked for `len` bytes. */
    ghost predicate Unused(len: nat)
      reads this, Repr
    {
      && this in Repr
      && (impl.Blocks? ==> impl.blocks in Repr)
      && Owns()
      && match impl
         case Flat(w) => w.Valid() && w.op == 0 && w.touched == 0 && len <= w.base.Length && room == None
         case Vector(w) => w.Valid() && w.out == [] && room == Some(w.Room())
         case Blocks(w) => w.Valid() && w.blocks == [] && room == None
         case ValidateOnly(w) => w.Valid() && w.out == [] && room == None
    }

    /** Ready for the next append or copy. */
    ghost predicate Valid()
      reads this, Repr
    {
      && this in Repr
      && (impl.Blocks? ==> impl.blocks in Repr)
      && Owns()
      && match impl
         case Flat(w) => w.Valid() && out == w.out && limit == w.opLimit == w.touched && room == None
         case Vector(w) => w.Valid() && out == w.out && limit == w.outputLimit && room == Some(w.Room())
         case Blocks(w) => w.Valid() && out == w.out && limit == w.expected && room == None
         case ValidateOnly(w) => w.Valid() && out == w.out && limit == w.expected && room == None
    }

    /** A flat writer stays ready even when it refuses; in particular it never writes past the limit. */
    ghost predicate Sound()
      reads this, Repr
    {
      impl.Flat? ==> Valid()
    }

    /** A writer without enough room never produces all that was announced. */
    lemma ShortOfRoom()
      requires Valid() && !Roomy()
      ensures |out| < limit
    {
      impl.vector.WithinBuffers();
    }

    constructor OfArray(w: ArrayWriter, ghost len: nat)
      requires w.Valid() && w.op == 0 && w.touched == 0 && len <= w.base.Length
      ensures impl == Flat(w) && Unused(len) && Repr == {this, w, w.base} && room == None
    {
      room := None;
      impl := Flat(w);
      out, limit, Repr := [], 0, {this, w, w.base};
    }

    constructor OfIOVec(w: IOVecWriter, ghost len: nat)
      requires w.Valid() && w.out == []
      ensures impl == Vector(w) && Unused(len) && Repr == {this, w} + set b | b in w.iov
      ensures room == Some(w.Room())
    {
      room := Some(w.Room());
      impl := Vector(w);
      out, limit, Repr := [], 0, {this, w} + set b | b in w.iov;
    }

    constructor OfBlocks(w: ScatteredWriter, ghost len: nat)
      requires w.Valid() && w.blocks == []
      ensures impl == Blocks(w) && Unused(len) && Repr == {this, w} && room == None
    {
      room := None;
      impl := Blocks(w);
      out, limit, Repr := [], 0, {this, w};
    }

    constructor OfValidator(w: Validator, ghost len: nat)
      requires w.Valid() && w.out == []
      ensures impl == ValidateOnly(w) && Unused(len) && Repr == {this, w} && room == None
    {
      room := None;
      impl := ValidateOnly(w);
      out, limit, Repr := [], 0, {this, w};
    }

    method SetExpectedLength(len: nat)
      requires len < TWO_TO_THE_64 && Unused(len)
      modifies Repr
      ensures Valid() && out == [] && limit == len && Repr == old(Repr)
    {
      match impl {
        case Flat(w) => w.SetExpectedLength(len);
        case Vector(w) => w.SetExpectedLength(len);
        case Blocks(w) => w.SetExpectedLength(len);
        case ValidateOnly(w) => w.SetExpectedLength(len);
      }
      out, limit := [], len;
    }

    predicate CheckLength()
      requires Valid()
      reads this, Repr
      ensures CheckLength() <==> |out| == limit
    {
      match impl
      case Flat(w) => w.CheckLength()
      case Vector(w) => w.CheckLength()
      case Blocks(w) => w.CheckLength()
      case ValidateOnly(w) => w.CheckLength()
    }

    method Append(bytes: seq<byte>) returns (ok: bool)
      requires Valid()
      modifies Repr
      ensures limit == old(limit) && fresh(Repr - old(Repr)) && Sound()
      ensures Roomy() ==> (ok <==> |old(out)| + |bytes| <= limit)
      ensures ok ==> Valid() && out == old(out) + bytes
    {
      hide IOVecWriter.FullBuffers, IOVecWriter.CurrentBuffer, ScatteredWriter.FullBlocks, ScatteredWriter.LastBlock;
      match impl {
        case Flat(w) => ok := w.Append(bytes);
        case Vector(w) => ok := w.Append(bytes);
        case Blocks(w) =>
          ok := w.Append(bytes);
          Repr := Repr + set b | b in w.blocks;
        case ValidateOnly(w) => ok := w.Append(bytes);
      }
      if ok {
        out := out + bytes;
      }
    }

    /** Whether a fast append is taken: sixteen bytes can be stored, and sixteen and a whole tag can be read. */
    ghost predicate TakesFast(available: nat, len: nat)
      requires Valid()
      reads this, Repr
    {
      && len <= 16 && available >= 16 + MAXIMUM_TAG_LENGTH
      && match impl
         case Flat(w) => |out| + 16 <= limit
         case Vector(w) => |out| + 16 <= limit && w.currRemaining >= 16
         case Blocks(w) => w.opPtr + 16 <= w.OpLimit()
         case ValidateOnly(w) => false
    }

    /** May decline, and always does for lengths a tag byte cannot hold. */
    method TryFastAppend(mem: seq<byte>, ip: nat, available: nat, len: nat) returns (ok: bool)
      requires Valid() && ip + available <= |mem|
      modifies Repr
      ensures Valid() && limit == old(limit) && fresh(Repr - old(Repr))
      ensures ok <==> old(TakesFast(available, len))
      ensures ok ==> len <= 16 && len + MAXIMUM_TAG_LENGTH <= available
      ensures out == if ok then old(out) + mem[ip..ip + len] else old(out)
    {
      hide IOVecWriter.FullBuffers, IOVecWriter.CurrentBuffer, ScatteredWriter.FullBlocks, ScatteredWriter.LastBlock;
      match impl {
        case Flat(w) => ok := w.TryFastAppend(mem, ip, available, len);
        case Vector(w) => ok := w.TryFastAppend(mem, ip, available, len);
        case Blocks(w) =>
          ok := w.TryFastAppend(mem, ip, available, len);
          Repr := Repr + set b | b in w.blocks;
        case ValidateOnly(w) => ok := false;
      }
      if ok {
        out := out + mem[ip..ip + len];
      }
    }

    method AppendFromSelf(offset: nat, len: nat) returns (ok: bool)
      requires Valid() && offset < TWO_TO_THE_64
      modifies Repr
      ensures limit == old(limit) && fresh(Repr - old(Repr)) && Sound()
      ensures Roomy() ==> (ok <==> 1 <= offset <= |old(out)| && |old(out)| + len <= limit)
      ensures ok ==> Valid() && (Roomy() ==> |out| == |old(out)| + len)
      ensures ok && Roomy() && len <= 64 ==> out == CopyFromSelf(old(out), offset, len)
    {
      hide IOVecWriter.FullBuffers, IOVecWriter.CurrentBuffer, ScatteredWriter.FullBlocks, ScatteredWriter.LastBlock;
      hide CopyFromSelf, IOVecWriter.Copied, ScatteredWriter.Reaches, IncrementalCopy.Reach;
      match impl {
        case Flat(w) => ok := w.AppendFromSelf(offset, len);
        case Vector(w) =>
          ghost var r, piece;
          ok, r, piece := w.AppendFromSelf(offset, len);
        case Blocks(w) =>
          ok := w.AppendFromSelf(offset, len);
          Repr := Repr + set b | b in w.blocks;
        case ValidateOnly(w) => ok := w.AppendFromSelf(offset, len);
      }
      if ok {
        out := match impl
          case Flat(w) => w.out
          case Vector(w) => w.out
          case Blocks(w) => w.out
          case ValidateOnly(w) => w.out;
      }
    }
  }
}
