/** Decompression into one flat array, and validation without any output. */
module FlatWriter {
  import opened Bytes
  import opened SnappyFormat
  import IncrementalCopy

  const MAXIMUM_TAG_LENGTH := 5

  /** Writes the decompressed bytes to a caller's array. */
  class ArrayWriter {
    const base: array<byte>
    var op: nat
    var opLimit: nat
    /** The bytes produced so far. */
    ghost var out: seq<byte>
    /** What the array held at first, and the place from where on it still does. */
    ghost const before: seq<byte>
    ghost var touched: nat

    ghost predicate Valid()
      reads this, base
    {
      && op <= opLimit <= touched <= base.Length < TWO_TO_THE_64
      && out == base[..op]
      && |before| == base.Length && base[touched..] == before[touched..]
    }

    constructor (dst: array<byte>)
      requires dst.Length < TWO_TO_THE_64
      ensures Valid() && base == dst && out == [] && opLimit == 0 && touched == 0 && before == dst[..]
    {
      base := dst;
      op, opLimit := 0, 0;
      out, touched, before := [], 0, dst[..];
    }

    method SetExpectedLength(len: nat)
      requires Valid() && op + len <= base.Length
      modifies this
      ensures Valid() && out == old(out) && opLimit == |out| + len
      ensures touched == if opLimit < old(touched) then old(touched) else opLimit
    {
      opLimit := op + len;
      touched := if opLimit < touched then touched else opLimit;
    }

    /** The length test at the end of a stream. */
    predicate CheckLength()
      requires Valid()
      reads this, base
      ensures CheckLength() <==> |out| == opLimit
    {
      op == opLimit
    }

    method Append(bytes: seq<byte>) returns (ok: bool)
      requires Valid()
      modifies this, base
      ensures Valid() && opLimit == old(opLimit) && touched == old(touched)
      ensures ok <==> |old(out)| + |bytes| <= opLimit
      ensures out == if ok then old(out) + bytes else old(out)
    {
      var spaceLeft := opLimit - op;
      if spaceLeft < |bytes| {
        return false;
      }
      forall i | 0 <= i < |bytes| {
        base[op + i] := bytes[i];
      }
      out := out + bytes;
      op := op + |bytes|;
      return true;
    }

    /**
     Appends `len` bytes of `mem` from `ip` by copying sixteen, when the source has sixteen
     plus a whole tag and the target has sixteen to spare.
     */
    method TryFastAppend(mem: seq<byte>, ip: nat, available: nat, len: nat) returns (ok: bool)
      requires Valid() && ip + available <= |mem|
      modifies this, base
      ensures Valid() && opLimit == old(opLimit) && touched == old(touched)
      ensures ok <==> len <= 16 && available >= 16 + MAXIMUM_TAG_LENGTH && |old(out)| + 16 <= opLimit
      ensures out == if ok then old(out) + mem[ip..ip + len] else old(out)
    {
      var spaceLeft := opLimit - op;
      if len <= 16 && available >= 16 + MAXIMUM_TAG_LENGTH && spaceLeft >= 16 {
        forall i | 0 <= i < 16 {
          base[op + i] := mem[ip + i];
        }
        out := out + mem[ip..ip + len];
        op := op + len;
        return true;
      }
      return false;
    }

    /**
     Copies from what was produced; the one unsigned comparison also refuses offset 0.  A copy of
     more than 64 bytes may stop short, and then the rest is what the array held before.
     */
    method AppendFromSelf(offset: nat, len: nat) returns (ok: bool)
      requires Valid() && offset < TWO_TO_THE_64
      modifies this, base
      ensures Valid() && opLimit == old(opLimit) && touched == old(touched)
      ensures ok <==> 1 <= offset <= |old(out)| && |old(out)| + len <= opLimit
      ensures ok ==>
        var op, end := |old(out)|, |old(out)| + len;
        var r := IncrementalCopy.Reach(op - offset, op, end, opLimit);
        out == CopyFromSelf(old(out), offset, r - op) + old(base[r..end])
      ensures ok && len <= 64 ==> out == CopyFromSelf(old(out), offset, len)
      ensures !ok ==> out == old(out)
    {
      hide CopyFromSelf, IncrementalCopy.Reach;
      var opEnd := op + len;
      if op <= Sub64(offset, 1) || opEnd > opLimit {
        return false;
      }
      ghost var r := IncrementalCopy.Reach(op - offset, op, opEnd, opLimit);
      IncrementalCopy.Fast(base, op - offset, op, opEnd, opLimit);
      assert base[r..opEnd] == old(base[r..opEnd]);
      assert base[..opEnd] == base[..r] + base[r..opEnd];
      out := base[..opEnd];
      op := opEnd;
      return true;
    }
  }

  /** Counts what would be written; `out` is what the other writers would hold. */
  class Validator {
    var expected: nat
    var produced: nat
    ghost var out: seq<byte>

    ghost predicate Valid()
      reads this
    {
      produced == |out| <= expected < TWO_TO_THE_64
    }

    constructor ()
      ensures Valid() && out == [] && expected == 0
    {
      expected, produced := 0, 0;
      out := [];
    }

    method SetExpectedLength(len: nat)
      requires Valid() && out == [] && len < TWO_TO_THE_64
      modifies this
      ensures Valid() && out == old(out) && expected == len
    {
      expected := len;
    }

    predicate CheckLength()
      requires Valid()
      reads this
      ensures CheckLength() <==> |out| == expected
    {
      expected == produced
    }

    method Append(bytes: seq<byte>) returns (ok: bool)
      requires Valid()
      modifies this
      ensures expected == old(expected)
      ensures ok <==> |old(out)| + |bytes| <= expected
      ensures ok ==> Valid() && out == old(out) + bytes
    {
      produced := produced + |bytes|;
      out := out + bytes;
      return produced <= expected;
    }

    method AppendFromSelf(offset: nat, len: nat) returns (ok: bool)
      requires Valid() && offset < TWO_TO_THE_64
      modifies this
      ensures expected == old(expected)
      ensures ok <==> 1 <= offset <= |old(out)| && |old(out)| + len <= expected
      ensures ok ==> Valid() && out == CopyFromSelf(old(out), offset, len)
    {
      if produced <= Sub64(offset, 1) {
        return false;
      }
      produced := produced + len;
      out := CopyFromSelf(out, offset, len);
      return produced <= expected;
    }
  }
}
