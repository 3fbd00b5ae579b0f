/** Decompression into a list of separate buffers, filled one after the other. */
module IOVec {
  import opened Bytes
  import opened SnappyFormat
  import opened FlatWriter
  import IncrementalCopy

  /** How many bytes the first `k` buffers hold together. */
  function TotalLength(iov: seq<array<byte>>, k: nat): nat
    requires k <= |iov|
  {
    if k == 0 then 0 else TotalLength(iov, k - 1) + iov[k - 1].Length
  }

  /** `starts[k]` is the stream position of the first byte of buffer `k`. */
  ghost predicate Layout(iov: seq<array<byte>>, starts: seq<nat>) {
    && |starts| == |iov| + 1
    && starts[0] == 0
    && forall k {:trigger iov[k]} :: 0 <= k < |iov| ==> starts[k + 1] == starts[k] + iov[k].Length
  }

  ghost function Starts(iov: seq<array<byte>>): (starts: seq<nat>)
    ensures Layout(iov, starts)
    ensures forall k :: 0 <= k <= |iov| ==> starts[k] == TotalLength(iov, k)
  {
    seq(|iov| + 1, k requires 0 <= k <= |iov| => TotalLength(iov, k))
  }

  lemma {:induction false} StartsMonotone(iov: seq<array<byte>>, starts: seq<nat>, j: nat, k: nat)
    requires Layout(iov, starts) && j <= k <= |iov|
    ensures starts[j] <= starts[k]
    decreases k
  {
    if j < k {
      StartsMonotone(iov, starts, j, k - 1);
      assert iov[k - 1].Length >= 0;
    }
  }

  class IOVecWriter {
    const iov: seq<array<byte>>
    var currIov: nat
    /** Write position inside the current buffer. */
    var currOutput: nat
    var currRemaining: nat
    var totalWritten: nat
    var outputLimit: nat
    /** The bytes produced so far. */
    ghost var out: seq<byte>
    ghost const starts: seq<nat>

    ghost predicate Shape() {
      && Layout(iov, starts)
      && (forall j, k :: 0 <= j < k < |iov| ==> iov[j] != iov[k])
    }

    /** The buffers in front of the current one are full, and hold the front of `out`. */
    ghost predicate FullBuffers()
      requires Shape()
      reads this, iov
    {
      && currIov <= |iov|
      && starts[currIov] <= |out|
      && (forall k :: 0 <= k < currIov ==> starts[k] + iov[k].Length <= |out|)
      && forall k, j {:trigger iov[k][j]} :: 0 <= k < currIov && 0 <= j < iov[k].Length ==>
           iov[k][j] == out[starts[k] + j]
    }

    /** The current buffer holds the rest of `out`. */
    ghost predicate CurrentBuffer()
      requires Shape()
      reads this, iov
    {
      if currIov < |iov| then
        && currOutput + currRemaining == iov[currIov].Length
        && |out| == starts[currIov] + currOutput
        && out[starts[currIov]..] == iov[currIov][..currOutput]
      else
        currIov == 0 && currOutput == 0 && currRemaining == 0 && out == []
    }

    ghost predicate Valid()
      reads this, iov
    {
      && Shape() && currIov <= |iov| && FullBuffers() && CurrentBuffer()
      && totalWritten == |out| <= outputLimit < TWO_TO_THE_64
    }

    /** How much the buffers hold together. */
    ghost function Room(): nat
      requires Shape()
    {
      starts[|iov|]
    }

    constructor (iov: seq<array<byte>>)
      requires forall j, k :: 0 <= j < k < |iov| ==> iov[j] != iov[k]
      ensures Valid() && this.iov == iov && out == []
      ensures Room() == TotalLength(iov, |iov|)
    {
      this.iov := iov;
      currIov := 0;
      currOutput := 0;
      currRemaining := if |iov| > 0 then iov[0].Length else 0;
      totalWritten := 0;
      outputLimit := TWO_TO_THE_64 - 1;
      out := [];
      starts := Starts(iov);
    }

    method SetExpectedLength(len: nat)
      requires Valid() && out == [] && len < TWO_TO_THE_64
      modifies this
      ensures Valid() && out == old(out) && outputLimit == len
    {
      outputLimit := len;
    }

    predicate CheckLength()
      requires Valid()
      reads this, iov
      ensures CheckLength() <==> |out| == outputLimit
    {
      totalWritten == outputLimit
    }

    /** Moves on to the next buffer once the current one is full. */
    method NextBuffer()
      requires Valid() && currRemaining == 0 && currIov + 1 < |iov|
      modifies this
      ensures Valid() && out == old(out) && outputLimit == old(outputLimit)
      ensures currIov == old(currIov) + 1
    {
      currIov := currIov + 1;
      currOutput := 0;
      currRemaining := iov[currIov].Length;
    }

    /** Stores bytes behind the write position of the current buffer, producing nothing yet. */
    method Poke(bytes: seq<byte>)
      requires Valid() && currIov < |iov| && |bytes| <= currRemaining
      modifies iov[currIov]
      ensures Valid()
      ensures iov[currIov][currOutput..currOutput + |bytes|] == bytes
    {
      var buffer := iov[currIov];
      forall i | 0 <= i < |bytes| {
        buffer[currOutput + i] := bytes[i];
      }
      assert forall k :: 0 <= k < currIov ==> iov[k] != buffer;
    }

    /** Counts `n` bytes stored behind the write position as produced. */
    method Advance(n: nat)
      requires Valid() && currIov < |iov| && n <= currRemaining && |out| + n <= outputLimit
      modifies this
      ensures Valid() && outputLimit == old(outputLimit) && currIov == old(currIov)
      ensures currRemaining == old(currRemaining) - n && currOutput == old(currOutput) + n
      ensures out == old(out) + iov[currIov][old(currOutput)..old(currOutput) + n]
    {
      out := out + iov[currIov][currOutput..currOutput + n];
      currOutput := currOutput + n;
      currRemaining := currRemaining - n;
      totalWritten := totalWritten + n;
    }

    /** What has been produced and the room left never exceed what the buffers hold. */
    lemma WithinBuffers()
      requires Valid()
      ensures |out| + currRemaining <= starts[|iov|]
    {
      if currIov < |iov| {
        assert iov[currIov].Length == currOutput + currRemaining;
        StartsMonotone(iov, starts, currIov + 1, |iov|);
      }
    }

    /** One round of `AppendNoCheck`: fills what the current or the next buffer has room for. */
    method AppendSome(bytes: seq<byte>) returns (ok: bool, n: nat)
      requires Valid() && bytes != [] && Min(|out| + |bytes|, starts[|iov|]) <= outputLimit
      modifies this, iov
      ensures Valid() && outputLimit == old(outputLimit) && currIov >= old(currIov)
      ensures n <= |bytes| && out == old(out) + bytes[..n] && currIov <= |iov|
      ensures ok ==> n > 0 || currIov > old(currIov)
      ensures !ok ==> n == 0 && |out| == starts[|iov|]
    {
      hide FullBuffers;
      if currRemaining == 0 {
        if currIov + 1 >= |iov| {
          assert currIov < |iov| ==> iov[currIov].Length == currOutput;
          return false, 0;
        }
        NextBuffer();
      }
      n := Min(|bytes|, currRemaining);
      WithinBuffers();
      Poke(bytes[..n]);
      Advance(n);
      ok := true;
    }

    /** Appends without the limit test: it stops early exactly when the buffers run out. */
    method AppendNoCheck(bytes: seq<byte>) returns (ok: bool)
      requires Valid() && Min(|out| + |bytes|, starts[|iov|]) <= outputLimit
      modifies this, iov
      ensures Valid() && outputLimit == old(outputLimit) && currIov >= old(currIov)
      ensures ok <==> |old(out)| + |bytes| <= Room()
      ensures ok ==> out == old(out) + bytes
      ensures !ok ==> |out| == starts[|iov|]
    {
      hide FullBuffers, CurrentBuffer;
      var rest := bytes;
      while rest != []
        invariant Valid() && outputLimit == old(outputLimit) && currIov >= old(currIov)
        invariant out + rest == old(out) + bytes && currIov <= |iov|
        decreases |rest|, |iov| - currIov
      {
        var more, n := AppendSome(rest);
        if !more {
          return false;
        }
        assert rest == rest[..n] + rest[n..];
        rest := rest[n..];
      }
      WithinBuffers();
      return true;
    }

    method Append(bytes: seq<byte>) returns (ok: bool)
      requires Valid()
      modifies this, iov
      ensures Valid() && outputLimit == old(outputLimit)
      ensures ok <==> |old(out)| + |bytes| <= outputLimit && |old(out)| + |bytes| <= Room()
      ensures ok ==> out == old(out) + bytes
    {
      if totalWritten + |bytes| > outputLimit {
        return false;
      }
      ok := AppendNoCheck(bytes);
    }

    method TryFastAppend(mem: seq<byte>, ip: nat, available: nat, len: nat) returns (ok: bool)
      requires Valid() && ip + available <= |mem|
      modifies this, iov
      ensures Valid() && outputLimit == old(outputLimit)
      ensures ok <==> len <= 16 && available >= 16 + MAXIMUM_TAG_LENGTH &&
                      |old(out)| + 16 <= outputLimit && old(currRemaining) >= 16
      ensures out == if ok then old(out) + mem[ip..ip + len] else old(out)
    {
      hide FullBuffers;
      var spaceLeft := outputLimit - totalWritten;
      if len <= 16 && available >= 16 + MAXIMUM_TAG_LENGTH && spaceLeft >= 16 && currRemaining >= 16 {
        Poke(mem[ip..ip + 16]);
        PrefixOfSlice(mem, ip, ip + 16, len);
        PrefixOfSlice(iov[currIov][..], currOutput, currOutput + 16, len);
        Advance(len);
        return true;
      }
      return false;
    }

    /** Finds the buffer, and the place in it, that lies `offset` bytes back. */
    method Locate(offset: nat) returns (fromIov: nat, fromOffset: nat)
      requires Valid() && 1 <= offset <= |out|
      ensures fromIov <= currIov < |iov| && fromOffset <= iov[fromIov].Length
      ensures starts[fromIov] + fromOffset == |out| - offset
    {
      var offset' := offset;
      fromIov := currIov;
      fromOffset := iov[currIov].Length - currRemaining;
      while offset' > 0
        invariant 1 <= offset' && fromIov <= currIov < |iov| && fromOffset <= iov[fromIov].Length
        invariant starts[fromIov] + fromOffset - offset' == |out| - offset
        decreases fromIov
      {
        if fromOffset >= offset' {
          fromOffset := fromOffset - offset';
          break;
        }
        offset' := offset' - fromOffset;
        fromIov := fromIov - 1;
        fromOffset := iov[fromIov].Length;
      }
    }

    /** The overlapping copy inside the current buffer, producing nothing yet. */
    method PokeCopy(fromOffset: nat, toCopy: nat)
      requires Valid() && currIov < |iov| && fromOffset < currOutput
      requires toCopy <= currRemaining
      modifies iov[currIov]
      ensures Valid()
      ensures var r := IncrementalCopy.Reach(fromOffset, currOutput, currOutput + toCopy, iov[currIov].Length);
        iov[currIov][..r] == CopyFromSelf(old(iov[currIov][..currOutput]), currOutput - fromOffset, r - currOutput)
    {
      hide CopyFromSelf, IncrementalCopy.Reach;
      var buffer := iov[currIov];
      IncrementalCopy.Fast(buffer, fromOffset, currOutput, currOutput + toCopy, buffer.Length);
      assert forall k :: 0 <= k < currIov ==> iov[k] != buffer;
      assert Shape() && FullBuffers() && CurrentBuffer();
    }

    /** Copies within the current buffer; the copy is right as far as it reaches, which is `r` bytes more. */
    method CopyInside(fromOffset: nat, toCopy: nat) returns (ghost r: nat)
      requires Valid() && currIov < |iov| && fromOffset < currOutput
      requires toCopy <= currRemaining && |out| + toCopy <= outputLimit
      modifies this, iov[currIov]
      ensures Valid() && outputLimit == old(outputLimit) && currIov == old(currIov)
      ensures currOutput == old(currOutput) + toCopy && |out| == |old(out)| + toCopy
      ensures r + old(currOutput) == IncrementalCopy.Reach(fromOffset, old(currOutput), currOutput, iov[currIov].Length)
      ensures out[..|old(out)| + r] == CopyFromSelf(old(out), old(currOutput) - fromOffset, r)
    {
      hide CopyFromSelf, IncrementalCopy.Reach, FullBuffers, CurrentBuffer;
      InCurrent();
      ghost var start, op, d := starts[currIov], currOutput, currOutput - fromOffset;
      ghost var buffer := iov[currIov];
      r := IncrementalCopy.Reach(fromOffset, op, op + toCopy, buffer.Length) - op;
      ghost var front, back := out[..start], out[start..];
      PokeCopy(fromOffset, toCopy);
      InCurrent();
      ghost var piece := buffer[..op + toCopy];
      assert buffer[..op + r] == piece[..op + r] && back == piece[..op] && buffer[op..op + toCopy] == piece[op..];
      CopiedBehind(front, back, piece, d, r);
      Joined(out, start, piece);
      Advance(toCopy);
    }

    /** Where the write position is, and what lies in front of it. */
    lemma InCurrent()
      requires Valid() && currIov < |iov|
      ensures starts[currIov] + currOutput == |out| && out[starts[currIov]..] == iov[currIov][..currOutput]
      ensures currOutput + currRemaining == iov[currIov].Length
    {
    }

    static lemma Joined(out: seq<byte>, start: nat, piece: seq<byte>)
      requires start <= |out| && |out| - start <= |piece| && out[start..] == piece[..|out| - start]
      ensures out + piece[|out| - start..] == out[..start] + piece && out == out[..start] + out[start..]
    {
    }

    /** A copy inside a buffer is a copy behind what the buffers in front of it hold. */
    static lemma CopiedBehind(front: seq<byte>, back: seq<byte>, piece: seq<byte>, d: nat, r: nat)
      requires 1 <= d <= |back| && |back| + r <= |piece| && piece[..|back| + r] == CopyFromSelf(back, d, r)
      ensures (front + piece)[..|front| + (|back| + r)] == CopyFromSelf(front + back, d, r)
    {
      CopyFromSelfSuffix(front, back, d, r);
      PrefixOfConcat(front, piece, |back| + r);
    }

    /**
     What the copy loop keeps.  Either `out` is the copy so far and the source lies `offset`
     bytes behind the end, or the buffers have run out in front of the wanted end.
     */
    ghost predicate CopyState(out0: seq<byte>, offset: nat, done: nat, len: nat, fromIov: nat, fromOffset: nat)
      requires Valid() && 1 <= offset <= |out0|
      reads this, iov
    {
      && fromIov <= currIov < |iov| && fromOffset <= iov[fromIov].Length
      && if |out0| + done + len <= Room() || |out| < starts[|iov|] then
           && out == CopyFromSelf(out0, offset, done)
           && starts[fromIov] + fromOffset == |out| - offset
         else
           |out| <= outputLimit
    }

    /** A stretch of an earlier buffer is what the copy has to append next. */
    lemma AcrossStep(out0: seq<byte>, offset: nat, done: nat, fromIov: nat, fromOffset: nat, toCopy: nat)
      requires Valid() && 1 <= offset <= |out0| && fromIov < currIov < |iov|
      requires fromOffset + toCopy <= iov[fromIov].Length
      requires out == CopyFromSelf(out0, offset, done) && starts[fromIov] + fromOffset == |out| - offset
      ensures out + iov[fromIov][fromOffset..fromOffset + toCopy] == CopyFromSelf(out0, offset, done + toCopy)
    {
      hide CopyFromSelf, CurrentBuffer;
      StartsMonotone(iov, starts, fromIov + 1, currIov);
      var src := |out| - offset;
      assert starts[fromIov + 1] == starts[fromIov] + iov[fromIov].Length;
      assert iov[fromIov][fromOffset..fromOffset + toCopy] == out[src..src + toCopy];
      CopyFromSelfDisjoint(out, offset, toCopy);
      CopyFromSelfSplit(out0, offset, done, toCopy);
    }

    /** One round of the copy loop with the source in an earlier buffer. */
    method CopyAcross(ghost out0: seq<byte>, ghost offset: nat, ghost done: nat, len: nat, fromIov: nat, fromOffset: nat)
      returns (toCopy: nat)
      requires Valid() && 1 <= offset <= |out0| && |out0| + done + len <= outputLimit
      requires CopyState(out0, offset, done, len, fromIov, fromOffset) && fromIov < currIov && len > 0
      modifies this, iov
      ensures Valid() && outputLimit == old(outputLimit) && currIov >= old(currIov)
      ensures toCopy <= len
      ensures toCopy < len ==> CopyState(out0, offset, done + toCopy, len - toCopy, fromIov + 1, 0)
      ensures |out0| + done + len <= Room() || |out| < starts[|iov|] ==>
                out == CopyFromSelf(out0, offset, done + toCopy)
    {
      hide CopyFromSelf;
      toCopy := Min(iov[fromIov].Length - fromOffset, len);
      var bytes := iov[fromIov][fromOffset..fromOffset + toCopy];
      if |out0| + done + len <= Room() || |out| < starts[|iov|] {
        AcrossStep(out0, offset, done, fromIov, fromOffset, toCopy);
      }
      WithinBuffers();
      var _ := AppendNoCheck(bytes);
      WithinBuffers();
      assert starts[fromIov + 1] == starts[fromIov] + iov[fromIov].Length;
    }

    /**
     A copy of `len` bytes is over, and `out` is right up to `r`.  Only its last piece can have stopped short,
     the one from `op` on in the current buffer.
     */
    ghost predicate Copied(out0: seq<byte>, offset: nat, len: nat, r: nat, op: nat)
      requires Valid() && 1 <= offset <= |out0|
      reads this, iov
    {
      && |out| == |out0| + len && |out0| <= r <= |out|
      && out[..r] == CopyFromSelf(out0, offset, r - |out0|)
      && (r < |out| ==>
            && currIov < |iov| && offset <= op <= currOutput && |out0| <= starts[currIov] + op
            && r == starts[currIov] + IncrementalCopy.Reach(op - offset, op, currOutput, iov[currIov].Length))
    }

    lemma CopiedLength(out0: seq<byte>, offset: nat, len: nat, r: nat, op: nat)
      requires Valid() && 1 <= offset <= |out0| && Copied(out0, offset, len, r, op)
      ensures |out| == |out0| + len
    {
    }

    /** Nothing stops short of up to 64 bytes. */
    lemma ShortCopied(out0: seq<byte>, offset: nat, len: nat, r: nat, op: nat)
      requires Valid() && 1 <= offset <= |out0| && Copied(out0, offset, len, r, op) && len <= 64
      ensures out == CopyFromSelf(out0, offset, len)
    {
      hide CopyFromSelf, FullBuffers;
      assert r == |out|;
      assert out[..r] == out;
    }

    /** One round with the source in the current buffer; only a piece that does not fill it can stop short. */
    method CopyWithin(ghost out0: seq<byte>, ghost offset: nat, ghost done: nat, len: nat, fromOffset: nat)
      returns (toCopy: nat, ghost r: nat, ghost op: nat)
      requires Valid() && 1 <= offset <= |out0| && |out0| + done + len <= outputLimit
      requires CopyState(out0, offset, done, len, currIov, fromOffset) && len > 0 && currRemaining > 0
      modifies this, iov
      ensures Valid() && outputLimit == old(outputLimit) && currIov == old(currIov)
      ensures 0 < toCopy <= len
      ensures toCopy < len ==> out == CopyFromSelf(out0, offset, done + toCopy)
      ensures toCopy < len ==> CopyState(out0, offset, done + toCopy, len - toCopy, currIov, fromOffset + toCopy)
      ensures toCopy == len ==> Copied(out0, offset, done + len, r, op)
    {
      hide CopyFromSelf, FullBuffers;
      toCopy := Min(currRemaining, len);
      WithinBuffers();
      assert currOutput - fromOffset == offset;
      op := currOutput;
      ghost var was := out;
      ghost var n := CopyInside(fromOffset, toCopy);
      r := |was| + n;
      CopyFromSelfSplit(out0, offset, done, n);
      if toCopy < len {
        assert n == toCopy;
        assert out[..r] == out;
      }
    }

    /** One round of the copy loop; `n` is how many bytes it copied. */
    method CopyRound(ghost out0: seq<byte>, ghost offset: nat, ghost done: nat, left: nat, fromIov: nat, fromOffset: nat)
      returns (ok: bool, n: nat, fromIov': nat, fromOffset': nat, ghost r: nat, ghost op: nat)
      requires Valid() && 1 <= offset <= |out0| && |out0| + done + left <= outputLimit && 0 < left
      requires CopyState(out0, offset, done, left, fromIov, fromOffset)
      modifies this, iov
      ensures Valid() && outputLimit == old(outputLimit) && n <= left && currIov <= |iov|
      ensures |out0| + done + left <= Room() ==> ok && (n < left ==> out == CopyFromSelf(out0, offset, done + n))
      ensures |out0| + done + left <= Room() && n == left ==> Copied(out0, offset, done + left, r, op)
      ensures ok && n < left ==> CopyState(out0, offset, done + n, left - n, fromIov', fromOffset')
      ensures ok ==> n > 0 || currIov > old(currIov) || (currIov == old(currIov) && fromIov < fromIov' <= |iov|)
    {
      hide CopyFromSelf, FullBuffers;
      ok, n, fromIov', fromOffset', r, op := true, 0, fromIov, fromOffset, 0, 0;
      if fromIov != currIov {
        n := CopyAcross(out0, offset, done, left, fromIov, fromOffset);
        r := |out|;
        assert out[..r] == out;
        if left > n {
          fromIov', fromOffset' := fromIov + 1, 0;
        }
      } else if currRemaining == 0 {
        if currIov + 1 >= |iov| {
          ok := false;
        } else {
          NextBuffer();
        }
      } else {
        n, r, op := CopyWithin(out0, offset, done, left, fromOffset);
        fromOffset' := fromOffset + n;
      }
    }

    /** The copy loop, from a located source. */
    method CopyLoop(ghost offset: nat, len: nat, from: nat, fromOff: nat) returns (ok: bool, ghost r: nat, ghost op: nat)
      requires Valid() && 1 <= offset <= |out| && |out| + len <= outputLimit
      requires CopyState(out, offset, 0, len, from, fromOff)
      modifies this, iov
      ensures Valid() && outputLimit == old(outputLimit)
      ensures |old(out)| + len <= Room() ==> ok && Copied(old(out), offset, len, r, op)
    {
      hide CopyFromSelf, FullBuffers, CurrentBuffer, Copied;
      ghost var out0, done := out, 0;
      r, op := |out|, 0;
      assert len == 0 && |out0| + len <= Room() ==> Copied(out0, offset, len, r, op) by { NothingCopied(offset); }
      CopyFromSelfUnique(out, offset, 0, out);
      var left, fromIov, fromOffset := len, from, fromOff;
      while left > 0
        invariant Valid() && outputLimit == old(outputLimit) && currIov <= |iov|
        invariant left + done == len
        invariant left > 0 ==> CopyState(out0, offset, done, left, fromIov, fromOffset)
        invariant |out0| + len <= Room() && left > 0 ==> out == CopyFromSelf(out0, offset, done)
        invariant |out0| + len <= Room() && left == 0 ==> Copied(out0, offset, len, r, op)
        decreases left, |iov| - currIov, |iov| - fromIov
      {
        var n;
        ok, n, fromIov, fromOffset, r, op := CopyRound(out0, offset, done, left, fromIov, fromOffset);
        if !ok {
          return;
        }
        left, done := left - n, done + n;
      }
      ok := true;
    }

    /** No bytes, no piece. */
    lemma NothingCopied(offset: nat)
      requires Valid() && 1 <= offset <= |out|
      ensures Copied(out, offset, 0, |out|, 0)
    {
      CopyFromSelfUnique(out, offset, 0, out);
      assert out[..|out|] == out;
    }

    /**
     The copy accepts exactly when the flat writer does, provided the buffers are large
     enough, and then appends the abstract copy, of which only the last piece can stop short.
     */
    method AppendFromSelf(offset: nat, len: nat) returns (ok: bool, ghost r: nat, ghost op: nat)
      requires Valid() && offset < TWO_TO_THE_64
      modifies this, iov
      ensures Valid() && outputLimit == old(outputLimit)
      ensures !(1 <= offset <= |old(out)| && |old(out)| + len <= outputLimit) ==> !ok
      ensures 1 <= offset <= |old(out)| && |old(out)| + len <= outputLimit && |old(out)| + len <= Room() ==>
                ok && Copied(old(out), offset, len, r, op) && |out| == |old(out)| + len
      ensures ok && |old(out)| + len <= Room() && len <= 64 ==> out == CopyFromSelf(old(out), offset, len)
    {
      hide CopyFromSelf, Copied;
      r, op := 0, 0;
      ok := false;
      if Sub64(offset, 1) >= totalWritten {
        return;
      }
      var spaceLeft := outputLimit - totalWritten;
      if len > spaceLeft {
        return;
      }
      CopyFromSelfUnique(out, offset, 0, out);
      var fromIov, fromOffset := Locate(offset);
      ghost var was := out;
      ok, r, op := CopyLoop(offset, len, fromIov, fromOffset);
      if |was| + len <= Room() {
        assert |out| == |was| + len by { CopiedLength(was, offset, len, r, op); }
        if len <= 64 {
          ShortCopied(was, offset, len, r, op);
        }
      }
    }

    /** What was produced lies at the front of the buffers, taken in order. */
    lemma OutIsPrefix()
      requires Valid()
      ensures out <= Gather(iov, |iov|)
    {
      GatherLength(iov, starts, |iov|);
      WithinBuffers();
      forall p | 0 <= p < |out| ensures Gather(iov, |iov|)[p] == out[p] {
        var k := Find(iov, starts, p, |iov|);
        GatherAt(iov, starts, k, p - starts[k], |iov|);
        if k > currIov {
          StartsMonotone(iov, starts, currIov + 1, k);
        }
        if k == currIov {
          assert out[p] == out[starts[k]..][p - starts[k]];
        }
      }
    }
  }

  /** The first `k` buffers, concatenated. */
  ghost function Gather(iov: seq<array<byte>>, k: nat): seq<byte>
    requires k <= |iov|
    reads iov
  {
    if k == 0 then [] else Gather(iov, k - 1) + iov[k - 1][..]
  }

  lemma {:induction false} GatherLength(iov: seq<array<byte>>, starts: seq<nat>, k: nat)
    requires Layout(iov, starts) && k <= |iov|
    ensures |Gather(iov, k)| == starts[k]
    decreases k
  {
    if k > 0 {
      GatherLength(iov, starts, k - 1);
      assert starts[k] == starts[k - 1] + iov[k - 1].Length;
    }
  }

  lemma {:induction false} GatherAt(iov: seq<array<byte>>, starts: seq<nat>, k: nat, j: nat, n: nat)
    requires Layout(iov, starts) && k < n <= |iov| && j < iov[k].Length
    ensures |Gather(iov, n)| == starts[n] && starts[k] + j < starts[n]
    ensures Gather(iov, n)[starts[k] + j] == iov[k][j]
    decreases n
  {
    GatherLength(iov, starts, n);
    GatherLength(iov, starts, n - 1);
    StartsMonotone(iov, starts, k + 1, n);
    assert starts[k + 1] == starts[k] + iov[k].Length;
    if k < n - 1 {
      GatherAt(iov, starts, k, j, n - 1);
    }
  }

  /** The buffer that holds stream position `p`. */
  lemma {:induction false} Find(iov: seq<array<byte>>, starts: seq<nat>, p: nat, n: nat) returns (k: nat)
    requires Layout(iov, starts) && n <= |iov| && p < starts[n]
    ensures k < n && starts[k] <= p < starts[k] + iov[k].Length
    decreases n
  {
    assert starts[n] == starts[n - 1] + iov[n - 1].Length;
    if starts[n - 1] <= p {
      k := n - 1;
    } else {
      k := Find(iov, starts, p, n - 1);
    }
  }
}
