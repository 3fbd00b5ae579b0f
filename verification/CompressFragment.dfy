/**
 The compressor of one block: a greedy matcher with a lossy hash table.

 A table entry is only a guess: whatever the hash function and whatever it collides with,
 an entry is a position in front of the current one and a match is compared byte for byte,
 so the emitted tags always run back to the input.
 */
module CompressFragment {
  import opened Bytes
  import opened SnappyFormat
  import opened StrictFormat
  import opened Bits
  import opened MatchLength
  import opened Emit
  import opened Greedy

  type uint16 = x: int | 0 <= x < 0x1_0000

  /** A hash function into tables of `size` entries; nothing else is asked of it. */
  ghost predicate IsHash(hash: bv32 -> nat, size: nat) {
    forall w :: hash(w) < size
  }

  /** Every remembered position lies in front of `n`. */
  ghost predicate TableBelow(table: array<uint16>, n: nat)
    reads table
  {
    forall i :: 0 <= i < table.Length ==> table[i] < n
  }

  /** Every entry is the latest of the stored positions with its hash, or 0. */
  ghost predicate Remembers(entries: seq<uint16>, input: seq<byte>, hash: bv32 -> nat, stored: seq<nat>) {
    forall h :: 0 <= h < |entries| ==> entries[h] == Latest(input, hash, stored, h)
  }

  /** The entry of a position is overwritten when the position is stored. */
  lemma Stores(entries: seq<uint16>, input: seq<byte>, hash: bv32 -> nat, stored: seq<nat>, p: uint16)
    requires Remembers(entries, input, hash, stored) && p + 4 <= |input| && hash(Word32(input, p)) < |entries|
    ensures Remembers(entries[hash(Word32(input, p)) := p], input, hash, stored + [p])
  {
    hide Latest, Word32;
    forall h | 0 <= h < |entries| ensures entries[hash(Word32(input, p)) := p][h] == Latest(input, hash, stored + [p], h) {
      LatestAdded(input, hash, stored, p, h);
    }
  }

  //////////////////////////////////////////////////////////////////////////////
  // What has been emitted
  //////////////////////////////////////////////////////////////////////////////

  /** The tags produce the first `n` bytes of the input, and none of them wraps around. */
  ghost predicate Covers(tags: seq<byte>, input: seq<byte>, n: nat) {
    n <= |input| && RunTags(tags, []) == Some(input[..n]) && !HasWrappingTag(tags)
  }

  /** The size of what is emitted, in sixtieths; `pending` after a literal that awaits its copy. */
  ghost predicate Small(tags: seq<byte>, n: nat, pending: bool) {
    60 * |tags| <= 61 * n + (if pending then 60 else 0)
  }

  lemma LiteralTagLength(len: nat)
    requires 1 <= len <= BLOCK_SIZE
    ensures 1 <= |LiteralTagBytes(len)| <= 3
    ensures 60 * |LiteralTagBytes(len)| <= len + 60
  {
  }

  /** A literal covers the bytes it carries. */
  lemma CoverLiteral(tags: seq<byte>, input: seq<byte>, a: nat, b: nat)
    requires Covers(tags, input, a) && a < b <= |input| && b - a <= BLOCK_SIZE
    ensures Covers(tags + (LiteralTagBytes(b - a) + input[a..b]), input, b)
    ensures Small(tags, a, false) ==> Small(tags + (LiteralTagBytes(b - a) + input[a..b]), b, true)
  {
    hide RunTags, LiteralTagBytes, HasWrappingTag;
    LiteralRuns(input[a..b], input[..a]);
    LiteralNoWrap(input[a..b]);
    NoWrapConcat(tags, LiteralTagBytes(b - a) + input[a..b], []);
    RunTagsConcat(tags, LiteralTagBytes(b - a) + input[a..b], []);
    assert input[..a] + input[a..b] == input[..b];
    LiteralTagLength(b - a);
  }

  /** Copies cover a match. */
  lemma CoverCopy(tags: seq<byte>, input: seq<byte>, candidate: nat, ip: nat, len: nat)
    requires Covers(tags, input, ip) && candidate < ip < candidate + 0x1_0000
    requires 4 <= len && ip + len <= |input| && Same(input, candidate, ip, len)
    ensures Covers(tags + CopyBytes(ip - candidate, len), input, ip + len)
    ensures Small(tags, ip, true) ==> Small(tags + CopyBytes(ip - candidate, len), ip + len, false)
  {
    hide RunTags, CopyBytes, CopyFromSelf, HasWrappingTag;
    var offset := ip - candidate;
    CopyRuns(offset, len, input[..ip]);
    CopyNoWrap(offset, len, input[..ip]);
    NoWrapConcat(tags, CopyBytes(offset, len), []);
    RunTagsConcat(tags, CopyBytes(offset, len), []);
    CopyFromSelfUnique(input[..ip], offset, len, input[..ip + len]);
    CopyBytesLength(offset, len);
  }

  /** What has been emitted leaves room for the over-writes of the emitters. */
  lemma Room(tags: seq<byte>, a: nat, n: nat, extra: nat)
    requires Small(tags, a, true) && a <= n && extra <= n - a + 20
    ensures |tags| + extra + 5 <= MaxCompressedLength(n)
  {
  }

  //////////////////////////////////////////////////////////////////////////////
  // The compressor
  //////////////////////////////////////////////////////////////////////////////

  /** The next look is at `ip`, and its first four bytes agree with those at `candidate`. */
  ghost predicate Matching(input: seq<byte>, hash: bv32 -> nat, looks: seq<Look>, ip: nat, candidate: nat) {
    && IsGreedy(input, hash, looks) && LooksOn(|input|, looks) && ip == Next(looks)
    && candidate == CandidateFor(input, hash, looks, ip) && candidate < ip && Same(input, candidate, ip, 4)
  }

  lemma MatchingRoom(input: seq<byte>, hash: bv32 -> nat, looks: seq<Look>, ip: nat, candidate: nat)
    requires Matching(input, hash, looks, ip, candidate)
    ensures ip + INPUT_MARGIN_BYTES < |input|
  {
  }

  /** A look without a match. */
  lemma Missed(input: seq<byte>, hash: bv32 -> nat, looks: seq<Look>, ip: nat, candidate: nat)
    requires IsGreedy(input, hash, looks) && LooksOn(|input|, looks) && ip == Next(looks)
    requires candidate == CandidateFor(input, hash, looks, ip) && candidate < ip && !Same(input, candidate, ip, 4)
    ensures var after := looks + [Look(ip, candidate, 0)];
      && IsGreedy(input, hash, after) && End(after) == End(looks) && Next(after) == ip + Gap(ip, End(looks))
      && Stored(after) == Stored(looks) + [ip] && TagsOf(input, after) == TagsOf(input, looks)
  {
    hide Same, CandidateFor;
    LookAdded(input, hash, looks, Look(ip, candidate, 0));
    MissAdded(input, looks, ip, candidate);
  }

  /**
   Step 1: scans forward for a four-byte match, ever faster the longer it finds none.
   Gives up close to the end of the input.  Every position looked at is stored, and none but the last
   one, if a match is found, agrees with the one remembered for it.
   */
  method FindMatch(input: seq<byte>, start: nat, firstHash: nat, table: array<uint16>, hash: bv32 -> nat,
                   ghost looks: seq<Look>)
    returns (found: bool, ip: nat, candidate: nat, ghost looks': seq<Look>)
    requires INPUT_MARGIN_BYTES <= |input| <= BLOCK_SIZE && 1 <= start && start + 4 <= |input|
    requires IsHash(hash, table.Length) && TableBelow(table, start)
    requires firstHash == hash(Word32(input, start))
    requires IsGreedy(input, hash, looks) && start == Next(looks) == End(looks) + 1
    requires Remembers(table[..], input, hash, Stored(looks))
    modifies table
    ensures start <= ip && TableBelow(table, ip + 1)
    ensures looks <= looks' && IsGreedy(input, hash, looks')
    ensures forall i :: |looks| <= i < |looks'| ==> looks'[i].len == 0
    ensures End(looks') == End(looks) && TagsOf(input, looks') == TagsOf(input, looks)
    ensures found ==> Matching(input, hash, looks', ip, candidate)
    ensures found ==> Remembers(table[..], input, hash, Stored(looks') + [ip])
    ensures !found ==> !LooksOn(|input|, looks')
  {
    hide Word32, IsGreedy, Same, Stored, TagsOf, End, Next, Latest, Remembers;
    var ipLimit := |input| - INPUT_MARGIN_BYTES;
    var skip := 32;
    var nextIp := start;
    var nextHash := firstHash;
    found, ip, candidate, looks' := false, start, 0, looks;
    while !found
      invariant start <= ip <= nextIp && nextIp + 4 <= |input|
      invariant !found ==> nextHash == hash(Word32(input, nextIp)) && TableBelow(table, nextIp)
      invariant skip == 32 + (nextIp - start)
      invariant TableBelow(table, ip + 1)
      invariant looks <= looks' && IsGreedy(input, hash, looks')
      invariant forall i :: |looks| <= i < |looks'| ==> looks'[i].len == 0
      invariant End(looks') == End(looks) && TagsOf(input, looks') == TagsOf(input, looks)
      invariant !found ==> nextIp == Next(looks') && Remembers(table[..], input, hash, Stored(looks'))
      invariant found ==> Matching(input, hash, looks', ip, candidate)
      invariant found ==> Remembers(table[..], input, hash, Stored(looks') + [ip])
      decreases !found, |input| - nextIp
    {
      ip := nextIp;
      var h := nextHash;
      var bytesBetweenHashLookups := skip / 32;
      skip := skip + bytesBetweenHashLookups;
      nextIp := ip + bytesBetweenHashLookups;
      assert bytesBetweenHashLookups == Gap(ip, End(looks'));
      if nextIp > ipLimit {
        return false, ip, 0, looks';
      }
      nextHash := hash(Word32(input, nextIp));
      candidate := table[h];
      assert candidate == CandidateFor(input, hash, looks', ip) by {
        RememberedEntry(table[..], input, hash, Stored(looks'), h);
      }
      Stores(table[..], input, hash, Stored(looks'), ip);
      table[h] := ip;
      SameWord32(input, candidate, ip);
      found := Word32(input, ip) == Word32(input, candidate);
      if !found {
        Missed(input, hash, looks', ip, candidate);
        looks' := looks' + [Look(ip, candidate, 0)];
      }
    }
  }

  lemma RememberedEntry(entries: seq<uint16>, input: seq<byte>, hash: bv32 -> nat, stored: seq<nat>, h: nat)
    requires Remembers(entries, input, hash, stored) && h < |entries|
    ensures entries[h] == Latest(input, hash, stored, h)
  {
  }

  /** The buffer holds `pre` and behind it the tags emitted for the first `n` bytes. */
  ghost predicate Holds(dest: array<byte>, op: nat, pre: seq<byte>, tags: seq<byte>, input: seq<byte>, n: nat, pending: bool)
    reads dest
  {
    && op <= dest.Length && dest[..op] == pre + tags
    && |pre| + MaxCompressedLength(|input|) - 5 <= dest.Length
    && n <= |input| && Covers(tags, input, n) && Small(tags, n, pending)
  }

  /** Step 2: emits the bytes in front of a match as a literal. */
  method EmitPending(input: seq<byte>, dest: array<byte>, op: nat, nextEmit: nat, ip: nat,
                     ghost pre: seq<byte>, ghost tags: seq<byte>)
    returns (op': nat, ghost tags': seq<byte>)
    requires |input| <= BLOCK_SIZE && nextEmit < ip && ip + INPUT_MARGIN_BYTES < |input|
    requires Holds(dest, op, pre, tags, input, nextEmit, false)
    modifies dest
    ensures Holds(dest, op', pre, tags', input, ip, true) && tags' == tags + Literal(input, nextEmit, ip)
  {
    hide LiteralTagBytes, Covers;
    var len := ip - nextEmit;
    LiteralTagLength(len);
    Room(tags, nextEmit, |input|, 3 + len);
    Room(tags, nextEmit, |input|, 17);
    CoverLiteral(tags, input, nextEmit, ip);
    op' := EmitLiteral(dest, op, input, nextEmit, len, true);
    tags' := tags + Literal(input, nextEmit, ip);
  }

  /** The look that finds the longest match. */
  lemma Matched(input: seq<byte>, hash: bv32 -> nat, looks: seq<Look>, l: Look)
    requires Matching(input, hash, looks, l.at, l.candidate) && IsLongest(input, l)
    ensures var after := looks + [l];
      && IsGreedy(input, hash, after) && End(after) == Next(after) == l.at + l.len
      && Stored(after) == Stored(looks) + [l.at] + [l.at + l.len - 1]
      && TagsOf(input, after) == TagsOf(input, looks) + Literal(input, End(looks), l.at) + Copies(l)
  {
    hide Same, CandidateFor, Copies, Literal;
    LookAdded(input, hash, looks, l);
    MatchAdded(input, looks, l);
  }

  /** The four bytes already compared and the longest match behind them. */
  lemma LongestFrom(input: seq<byte>, candidate: nat, ip: nat, n: nat)
    requires candidate < ip && ip + 4 <= |input| && Same(input, candidate, ip, 4)
    requires IsMatch(input, candidate + 4, ip + 4, |input|, n)
    ensures IsLongest(input, Look(ip, candidate, 4 + n))
  {
    hide Same;
    SameConcat(input, candidate, ip, 4, n);
  }

  /** Step 3, first half: emits the whole match at `ip` as copies. */
  method EmitMatch(input: seq<byte>, dest: array<byte>, op: nat, ip: nat, candidate: nat,
                   ghost pre: seq<byte>, ghost tags: seq<byte>, ghost hash: bv32 -> nat, ghost looks: seq<Look>)
    returns (op': nat, ip': nat, ghost tags': seq<byte>, ghost looks': seq<Look>)
    requires |input| <= BLOCK_SIZE && ip + 4 <= |input| && Matching(input, hash, looks, ip, candidate)
    requires Holds(dest, op, pre, tags, input, ip, true)
    requires tags == TagsOf(input, looks) + Literal(input, End(looks), ip)
    modifies dest
    ensures ip < ip' <= |input| && Holds(dest, op', pre, tags', input, ip', false)
    ensures Same(input, candidate, ip, ip' - ip)
    ensures ip' == |input| || input[ip'] != input[candidate + (ip' - ip)]
    ensures looks' == looks + [Look(ip, candidate, ip' - ip)] && IsGreedy(input, hash, looks')
    ensures End(looks') == Next(looks') == ip' && tags' == TagsOf(input, looks')
    ensures Stored(looks') == Stored(looks) + [ip] + [ip' - 1]
  {
    hide CopyBytes, Covers, Same, IsMatch, IsGreedy, LooksOn, Stored, TagsOf, End, Next, Literal, CandidateFor;
    var n, lessThan8 := FindMatchLength64(input, candidate + 4, ip + 4, |input|);
    var matched := 4 + n;
    LongestFrom(input, candidate, ip, n);
    CoverCopy(tags, input, candidate, ip, matched);
    CopyBytesLength(ip - candidate, matched);
    Room(tags, ip, |input|, matched);
    Matched(input, hash, looks, Look(ip, candidate, matched));
    op' := EmitCopy(dest, op, ip - candidate, matched, lessThan8);
    tags' := tags + CopyBytes(ip - candidate, matched);
    ip' := ip + matched;
    looks' := looks + [Look(ip, candidate, matched)];
  }

  /**
   Step 3, second half: remembers two positions, looks up a candidate for the next match, and
   takes the hash of the position behind from the same load.
   */
  method NextCandidate(input: seq<byte>, ip: nat, table: array<uint16>, hash: bv32 -> nat, ghost stored: seq<nat>)
    returns (candidate: nat, matches: bool, nextHash: nat)
    requires 1 <= ip && ip + INPUT_MARGIN_BYTES < |input| <= BLOCK_SIZE
    requires IsHash(hash, table.Length) && TableBelow(table, ip) && Remembers(table[..], input, hash, stored)
    modifies table
    ensures TableBelow(table, ip + 1) && candidate < ip
    ensures matches <==> Same(input, candidate, ip, 4)
    ensures nextHash == hash(Word32(input, ip + 1))
    ensures candidate == Latest(input, hash, stored + [ip - 1], hash(Word32(input, ip)))
    ensures Remembers(table[..], input, hash, stored + [ip - 1] + [ip])
  {
    hide Word32, Word64, GetUint32AtOffset, Remembers, Latest, Same;
    var inputBytes := Word64(input, ip - 1);
    OverlappingLoads(input, ip - 1, 0);
    OverlappingLoads(input, ip - 1, 1);
    OverlappingLoads(input, ip - 1, 2);
    var prevHash := hash(GetUint32AtOffset(inputBytes, 0));
    Stores(table[..], input, hash, stored, ip - 1);
    table[prevHash] := ip - 1;
    var curHash := hash(GetUint32AtOffset(inputBytes, 1));
    candidate := table[curHash];
    RememberedEntry(table[..], input, hash, stored + [ip - 1], curHash);
    var candidateBytes := Word32(input, candidate);
    Stores(table[..], input, hash, stored + [ip - 1], ip);
    table[curHash] := ip;
    SameWord32(input, candidate, ip);
    matches := GetUint32AtOffset(inputBytes, 1) == candidateBytes;
    nextHash := hash(GetUint32AtOffset(inputBytes, 2));
  }

  /** Step 3: copies, for as long as one match follows another. */
  method EmitCopies(input: seq<byte>, dest: array<byte>, op: nat, table: array<uint16>, hash: bv32 -> nat,
                    ip: nat, candidate: nat, ghost pre: seq<byte>, ghost tags: seq<byte>, ghost looks: seq<Look>)
    returns (op': nat, ip': nat, more: bool, nextHash: nat, ghost tags': seq<byte>, ghost looks': seq<Look>)
    requires |input| <= BLOCK_SIZE && ip + INPUT_MARGIN_BYTES < |input|
    requires Matching(input, hash, looks, ip, candidate) && Remembers(table[..], input, hash, Stored(looks) + [ip])
    requires IsHash(hash, table.Length) && TableBelow(table, ip + 1)
    requires Holds(dest, op, pre, tags, input, ip, true) && table as object != dest
    requires tags == TagsOf(input, looks) + Literal(input, End(looks), ip)
    modifies dest, table
    ensures ip < ip' <= |input| && Holds(dest, op', pre, tags', input, ip', false)
    ensures more ==> ip' + INPUT_MARGIN_BYTES < |input| && TableBelow(table, ip' + 1)
    ensures more ==> nextHash == hash(Word32(input, ip' + 1))
    ensures IsGreedy(input, hash, looks') && End(looks') == ip' && tags' == TagsOf(input, looks')
    ensures more ==> Next(looks') == ip' + 1 && Remembers(table[..], input, hash, Stored(looks'))
    ensures !more ==> !LooksOn(|input|, looks')
  {
    hide Covers, Same, Word32, IsGreedy, Stored, TagsOf, End, Next, Literal, Remembers, Latest;
    op', ip', tags', more, nextHash, looks' := op, ip, tags, true, 0, looks;
    var c: nat := candidate;
    var matches := true;
    while matches
      invariant ip <= ip' <= |input| && (ip == ip' ==> matches)
      invariant Holds(dest, op', pre, tags', input, ip', matches)
      invariant ip' + INPUT_MARGIN_BYTES < |input| && TableBelow(table, ip' + 1)
      invariant more && (!matches ==> nextHash == hash(Word32(input, ip' + 1)))
      invariant matches ==> Matching(input, hash, looks', ip', c)
      invariant matches ==> Remembers(table[..], input, hash, Stored(looks') + [ip'])
      invariant matches ==> tags' == TagsOf(input, looks') + Literal(input, End(looks'), ip')
      invariant !matches ==> IsGreedy(input, hash, looks') && End(looks') == ip' && tags' == TagsOf(input, looks')
      invariant !matches ==> Next(looks') == ip' + 1 && Remembers(table[..], input, hash, Stored(looks'))
      decreases |input| - ip', matches
    {
      ghost var stored := Stored(looks') + [ip'];
      op', ip', tags', looks' := EmitMatch(input, dest, op', ip', c, pre, tags', hash, looks');
      if ip' + INPUT_MARGIN_BYTES >= |input| {
        more := false;
        return;
      }
      c, matches, nextHash := NextCandidate(input, ip', table, hash, stored);
      if matches {
        assert Literal(input, ip', ip') == [] by { NoLiteral(input, ip'); }
      } else {
        Missed(input, hash, looks', ip', c);
        looks' := looks' + [Look(ip', c, 0)];
      }
    }
  }

  lemma NoLiteral(input: seq<byte>, n: nat)
    ensures Literal(input, n, n) == []
  {
  }

  /** The rest of the input, as a literal. */
  method EmitRemainder(input: seq<byte>, dest: array<byte>, op: nat, nextEmit: nat,
                       ghost pre: seq<byte>, ghost tags: seq<byte>)
    returns (op': nat, ghost tags': seq<byte>)
    requires |input| <= BLOCK_SIZE && Holds(dest, op, pre, tags, input, nextEmit, false)
    modifies dest
    ensures op' <= dest.Length && dest[..op'] == pre + tags' && Covers(tags', input, |input|)
    ensures 60 * |tags'| <= 61 * |input| + 60
    ensures tags' == tags + Literal(input, nextEmit, |input|)
  {
    hide LiteralTagBytes, Covers;
    op', tags' := op, tags + Literal(input, nextEmit, |input|);
    if nextEmit < |input| {
      var len := |input| - nextEmit;
      LiteralTagLength(len);
      Room(tags, nextEmit, |input|, 3 + len);
      CoverLiteral(tags, input, nextEmit, |input|);
      op' := EmitLiteral(dest, op, input, nextEmit, len, false);
      assert input[nextEmit..] == input[nextEmit..|input|];
    } else {
      assert tags' == tags;
    }
  }

  /** The main loop, from the first literal to the place where the remainder starts. */
  method MainLoop(input: seq<byte>, dest: array<byte>, op: nat, table: array<uint16>, hash: bv32 -> nat,
                  ghost pre: seq<byte>)
    returns (op': nat, nextEmit: nat, ghost tags: seq<byte>, ghost looks: seq<Look>)
    requires INPUT_MARGIN_BYTES <= |input| <= BLOCK_SIZE && IsHash(hash, table.Length) && TableBelow(table, 1)
    requires Holds(dest, op, pre, [], input, 0, false) && table as object != dest
    modifies dest, table
    ensures Holds(dest, op', pre, tags, input, nextEmit, false)
    ensures IsComplete(input, hash, looks) && nextEmit == End(looks) && tags == TagsOf(input, looks)
  {
    hide Covers, Same, Word32, IsGreedy, Stored, Literal, LooksOn, End, Next, TagsOf, Remembers, Matching;
    op', nextEmit, tags, looks := op, 0, [], [];
    var ip := 1;
    var nextHash := hash(Word32(input, ip));
    var more := true;
    Nothing(input, hash, table[..]);
    while more
      invariant nextEmit <= |input|
      invariant Holds(dest, op', pre, tags, input, nextEmit, false)
      invariant more ==> ip == nextEmit + 1 && ip + 4 <= |input| && TableBelow(table, ip)
      invariant more ==> nextHash == hash(Word32(input, ip))
      invariant IsGreedy(input, hash, looks) && nextEmit == End(looks) && tags == TagsOf(input, looks)
      invariant more ==> ip == Next(looks) && Remembers(table[..], input, hash, Stored(looks))
      invariant !more ==> !LooksOn(|input|, looks)
      decreases |input| - nextEmit, more
    {
      var found, candidate;
      found, ip, candidate, looks := FindMatch(input, ip, nextHash, table, hash, looks);
      if !found {
        return;
      }
      assert ip + INPUT_MARGIN_BYTES < |input| by { MatchingRoom(input, hash, looks, ip, candidate); }
      op', tags := EmitPending(input, dest, op', nextEmit, ip, pre, tags);
      op', ip, more, nextHash, tags, looks := EmitCopies(input, dest, op', table, hash, ip, candidate, pre, tags, looks);
      nextEmit := ip;
      ip := ip + 1;
    }
  }

  /** Where the looks start: an empty table remembers nothing. */
  lemma Nothing(input: seq<byte>, hash: bv32 -> nat, entries: seq<uint16>)
    requires forall i :: 0 <= i < |entries| ==> entries[i] == 0
    ensures IsGreedy(input, hash, []) && Next([]) == 1 && End([]) == 0 && TagsOf(input, []) == []
    ensures Remembers(entries, input, hash, Stored([]))
  {
  }

  /**
   Compresses one block behind `op`.  The emitted tags are those of the greedy looks at the block, and
   produce exactly the input.  No write, over-writes included, leaves the buffer, which may even be five
   bytes shorter than `MaxCompressedLength`.
   */
  method Compress(input: seq<byte>, dest: array<byte>, op: nat, table: array<uint16>, hash: bv32 -> nat)
    returns (op': nat, ghost tags: seq<byte>, ghost looks: seq<Look>)
    requires |input| <= BLOCK_SIZE && IsHash(hash, table.Length) && table as object != dest
    requires forall i :: 0 <= i < table.Length ==> table[i] == 0
    requires op + MaxCompressedLength(|input|) - 5 <= dest.Length
    modifies dest, table
    ensures op <= op' <= dest.Length && dest[..op'] == old(dest[..op]) + tags
    ensures RunTags(tags, []) == Some(input) && !HasWrappingTag(tags)
    ensures 60 * |tags| <= 61 * |input| + 60
    ensures IsComplete(input, hash, looks) && tags == BlockTags(input, looks)
  {
    hide Literal;
    ghost var pre := dest[..op];
    assert input[..0] == [] && input[..|input|] == input;
    op' := op;
    var nextEmit := 0;
    tags, looks := [], [];
    if |input| >= INPUT_MARGIN_BYTES {
      op', nextEmit, tags, looks := MainLoop(input, dest, op, table, hash, pre);
    }
    op', tags := EmitRemainder(input, dest, op', nextEmit, pre, tags);
  }
}
