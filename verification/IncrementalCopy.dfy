/**
 The overlapping copy inside one buffer.

 `Slow` copies a byte at a time.  `Fast` copies eight bytes at a time: it first widens a
 short pattern by doubling, then runs an unrolled loop of 2x8 bytes when there is slack
 behind the target, and otherwise goes as far as the slack lets it.  Both leave the same
 bytes in a target of up to 64 bytes, and `Reach` says when they do in a longer one; `Fast` may
 also scribble between the target and the buffer limit.
 */
module IncrementalCopy {
  import opened Bytes
  import opened SnappyFormat

  /** The first `n` bytes of the buffer are those of `t`. */
  ghost predicate Agrees(a: array<byte>, t: seq<byte>, n: nat)
    requires n <= a.Length && n <= |t|
    reads a
  {
    forall i :: 0 <= i < n ==> a[i] == t[i]
  }

  /** From position `from` on, `t` repeats what it held `d` bytes earlier. */
  ghost predicate Periodic(t: seq<byte>, from: nat, d: nat)
    requires d <= from
  {
    forall i :: from <= i < |t| ==> t[i] == t[i - d]
  }

  /** Nothing at or past `limit` differs between the two snapshots. */
  twostate predicate UnchangedFrom(a: array<byte>, limit: nat)
    reads a
  {
    forall i :: limit <= i < a.Length ==> a[i] == old(a[i])
  }

  /** Copies a byte at a time, so that bytes just written are read again. */
  method Slow(a: array<byte>, src: nat, op: nat, opLimit: nat, ghost t: seq<byte>)
    requires src < op <= opLimit <= |t| <= a.Length
    requires Periodic(t, op, op - src) && Agrees(a, t, op)
    modifies a
    ensures Agrees(a, t, opLimit)
    ensures UnchangedFrom(a, opLimit)
  {
    var src, op := src, op;
    ghost var d := op - src;
    while op < opLimit
      invariant op == src + d && op <= opLimit
      invariant Agrees(a, t, op) && Periodic(t, op, d)
      invariant UnchangedFrom(a, opLimit)
    {
      a[op] := a[src];
      src, op := src + 1, op + 1;
    }
  }

  /**
   Copies eight bytes through a temporary.  As many of them are right as fit in one
   period; the rest are garbage that a later copy overwrites.
   */
  method UnalignedCopy64(a: array<byte>, src: nat, op: nat, ghost t: seq<byte>)
    requires src < op && op + 8 <= |t| <= a.Length
    requires Periodic(t, op, op - src) && Agrees(a, t, op)
    modifies a
    ensures Agrees(a, t, op + Min(8, op - src))
    ensures UnchangedFrom(a, op + 8)
  {
    var tmp := a[src..src + 8];
    forall i | 0 <= i < 8 {
      a[op + i] := tmp[i];
    }
  }

  /** A pattern repeats with twice its period too. */
  lemma PeriodDoubles(t: seq<byte>, from: nat, d: nat)
    requires d <= from && Periodic(t, from, d)
    ensures Periodic(t, from + d, 2 * d)
  {
    forall i | from + d <= i < |t| ensures t[i] == t[i - 2 * d] {
      assert t[i] == t[i - d];
    }
  }

  /** Where the target starts once a pattern of under eight bytes has been doubled often enough. */
  function Widened(src: nat, op: nat): (op': nat)
    requires src < op
    ensures src + 8 <= op' && op <= op' <= op + 9
  {
    if op - src >= 8 then op
    else if op - src < 3 then src + 8
    else if op - src == 3 then src + 12
    else src + 2 * (op - src)
  }

  /** Doubles a pattern of under eight bytes until it spans at least eight. */
  method ExpandPattern(a: array<byte>, src: nat, op: nat, ghost t: seq<byte>) returns (op': nat)
    requires src < op < src + 8 && op + 11 <= |t| <= a.Length
    requires Periodic(t, op, op - src) && Agrees(a, t, op)
    modifies a
    ensures op' == Widened(src, op) && Agrees(a, t, op')
    ensures Periodic(t, op', op' - src)
    ensures UnchangedFrom(a, op + 11)
  {
    op' := op;
    var patternSize := op - src;
    while patternSize < 8
      invariant 1 <= patternSize && op' == src + patternSize
      invariant op - src <= patternSize
      invariant patternSize < 8 ==> op' <= op + 3
      invariant op' <= op + 9
      invariant patternSize == op - src || patternSize == 2 * (op - src)
             || patternSize == 4 * (op - src) || patternSize == 8 * (op - src)
      invariant Agrees(a, t, op') && Periodic(t, op', patternSize)
      invariant UnchangedFrom(a, op + 11)
      decreases 8 - patternSize
    {
      UnalignedCopy64(a, src, op', t);
      PeriodDoubles(t, op', patternSize);
      op' := op' + patternSize;
      patternSize := patternSize * 2;
    }
  }

  /** Copies sixteen bytes, as two eights, with a pattern of at least eight. */
  method Copy2x8(a: array<byte>, src: nat, op: nat, ghost t: seq<byte>)
    requires src + 8 <= op && op + 16 <= |t| <= a.Length
    requires Periodic(t, op, op - src) && Agrees(a, t, op)
    modifies a
    ensures Agrees(a, t, op + 16)
    ensures UnchangedFrom(a, op + 16)
  {
    UnalignedCopy64(a, src, op, t);
    UnalignedCopy64(a, src + 8, op + 8, t);
  }

  /** The unrolled branch: at most four 16-byte blocks, hence no more than 64 bytes. */
  method CopyUnrolled(a: array<byte>, src: nat, op: nat, opLimit: nat, ghost t: seq<byte>)
    requires src + 8 <= op <= opLimit && opLimit + 16 <= |t| <= a.Length
    requires Periodic(t, op, op - src) && Agrees(a, t, op)
    modifies a
    ensures Agrees(a, t, Min(opLimit, op + 64))
    ensures UnchangedFrom(a, Min(opLimit + 16, op + 64))
  {
    Copy2x8(a, src, op, t);
    if op + 16 < opLimit {
      Copy2x8(a, src + 16, op + 16, t);
    }
    if op + 32 < opLimit {
      Copy2x8(a, src + 32, op + 32, t);
    }
    if op + 48 < opLimit {
      Copy2x8(a, src + 48, op + 48, t);
    }
  }

  /** The branch without enough slack to write 16 bytes past the target. */
  method CopyWithSlop(a: array<byte>, src: nat, op: nat, opLimit: nat, bufLimit: nat, ghost t: seq<byte>)
    requires src + 8 <= op <= opLimit <= bufLimit == |t| <= a.Length
    requires Periodic(t, op, op - src) && Agrees(a, t, op)
    modifies a
    ensures Agrees(a, t, opLimit)
    ensures UnchangedFrom(a, bufLimit)
  {
    var src, op := src, op;
    ghost var d := op - src;
    while op + 16 < bufLimit
      invariant op == src + d && op <= bufLimit
      invariant Agrees(a, t, op) && Periodic(t, op, d)
      invariant UnchangedFrom(a, bufLimit)
      decreases bufLimit - op
    {
      Copy2x8(a, src, op, t);
      src, op := src + 16, op + 16;
    }
    if op < opLimit {
      if op + 8 <= bufLimit {
        UnalignedCopy64(a, src, op, t);
        src, op := src + 8, op + 8;
      }
      if op < opLimit {
        Slow(a, src, op, opLimit, t);
      }
    }
  }

  /** What a copy from `src` to `[op, opLimit)` leaves up to `limit`, if it went on that far. */
  ghost function Target(s: seq<byte>, src: nat, op: nat, limit: nat): (t: seq<byte>)
    requires src < op <= |s| && op <= limit
    ensures |t| == limit && Periodic(t, op, op - src)
    ensures forall i :: 0 <= i < op ==> t[i] == s[i]
  {
    CopyFromSelf(s[..op], op - src, limit - op)
  }

  /** A prefix of a long copy is a shorter copy. */
  lemma TargetPrefix(s: seq<byte>, src: nat, op: nat, opLimit: nat, limit: nat)
    requires src < op <= |s| && op <= opLimit <= limit
    ensures Target(s, src, op, limit)[..opLimit] == CopyFromSelf(s[..op], op - src, opLimit - op)
  {
    CopyFromSelfUnique(s[..op], op - src, opLimit - op, Target(s, src, op, limit)[..opLimit]);
  }

  /**
   How far the copy gets: to the end of the target, unless more than 64 bytes are left for the
   unrolled branch.
   */
  function Reach(src: nat, op: nat, opLimit: nat, bufLimit: nat): (r: nat)
    requires src < op <= opLimit <= bufLimit
    ensures op <= r <= opLimit
    ensures opLimit - op <= 64 ==> r == opLimit
  {
    if op - src < 8 && op + 11 > bufLimit then opLimit
    else if opLimit + 16 <= bufLimit then Min(opLimit, Widened(src, op) + 64)
    else opLimit
  }

  /** The dispatch between the branches. */
  method Branches(a: array<byte>, src: nat, op: nat, opLimit: nat, bufLimit: nat, ghost t: seq<byte>)
    requires src < op <= opLimit <= bufLimit == |t| <= a.Length
    requires Periodic(t, op, op - src) && Agrees(a, t, op)
    modifies a
    ensures Agrees(a, t, Reach(src, op, opLimit, bufLimit))
    ensures UnchangedFrom(a, bufLimit)
    ensures Reach(src, op, opLimit, bufLimit) < opLimit ==> UnchangedFrom(a, Reach(src, op, opLimit, bufLimit))
  {
    var op := op;
    if op - src < 8 {
      if op + 11 <= bufLimit {
        op := ExpandPattern(a, src, op, t);
        if op >= opLimit { return; }
      } else {
        Slow(a, src, op, opLimit, t);
        return;
      }
    }
    if opLimit + 16 <= bufLimit {
      CopyUnrolled(a, src, op, opLimit, t);
    } else {
      CopyWithSlop(a, src, op, opLimit, bufLimit, t);
    }
  }

  /**
   The fast overlapping copy leaves exactly the abstract copy as far as it reaches, which is the
   whole target unless that is too long for the unrolled branch; it keeps everything before `op`,
   and writes nothing at or past `bufLimit`, nor past where it stops short.
   */
  method Fast(a: array<byte>, src: nat, op: nat, opLimit: nat, bufLimit: nat)
    requires src < op <= opLimit <= bufLimit <= a.Length
    modifies a
    ensures var r := Reach(src, op, opLimit, bufLimit);
      && a[..r] == CopyFromSelf(old(a[..op]), op - src, r - op)
      && (r < opLimit ==> UnchangedFrom(a, r))
    ensures a[..op] == old(a[..op]) && UnchangedFrom(a, bufLimit)
  {
    hide CopyFromSelf, Reach;
    ghost var before := a[..];
    ghost var t := Target(before, src, op, bufLimit);
    Branches(a, src, op, opLimit, bufLimit, t);
    ghost var r := Reach(src, op, opLimit, bufLimit);
    TargetPrefix(before, src, op, r, bufLimit);
    assert before[..op] == old(a[..op]);
    assert a[..r] == t[..r];
  }

  /**
   Where the copy stops short it is wrong: whatever the positions, for some contents of the
   buffer the target does not end up holding the copy.  So `Reach` says exactly which calls
   are safe.
   */
  lemma FallsShort(src: nat, op: nat, opLimit: nat, bufLimit: nat)
    requires src < op <= opLimit <= bufLimit && Reach(src, op, opLimit, bufLimit) < opLimit
    ensures var r := Reach(src, op, opLimit, bufLimit);
      exists s: seq<byte> :: |s| == bufLimit &&
        CopyFromSelf(s[..op], op - src, r - op) + s[r..opLimit] != CopyFromSelf(s[..op], op - src, opLimit - op)
  {
    hide CopyFromSelf, Reach;
    var r := Reach(src, op, opLimit, bufLimit);
    var s: seq<byte> := seq(bufLimit, i => if i < op then 0 else 1);
    var zeros: seq<byte> := seq(opLimit, _ => 0);
    CopyFromSelfUnique(s[..op], op - src, opLimit - op, zeros);
    var got := CopyFromSelf(s[..op], op - src, r - op) + s[r..opLimit];
    assert got[opLimit - 1] == s[opLimit - 1] == 1;
    assert got != zeros;
  }

  /** Such a call: 65 bytes with sixteen to spare behind them, of which the last is not copied. */
  lemma FallsShortAt73()
    ensures Reach(0, 8, 73, 89) == 72
    ensures exists s: seq<byte> :: |s| == 89 && CopyFromSelf(s[..8], 8, 64) + s[72..73] != CopyFromSelf(s[..8], 8, 65)
  {
    hide CopyFromSelf;
    FallsShort(0, 8, 73, 89);
  }
}
