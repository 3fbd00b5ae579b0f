/**
 What the block compressor looks at and what it emits, without its hash table.

 The compressor looks at one position after another.  For each it takes the latest position stored
 so far whose word has the same hash, or 0 if there is none, and stores the position itself.  If the
 four bytes at both agree it emits the longest match between them and goes on behind it, where the
 last position of the match has been stored too; otherwise it goes on by a step that grows with the
 distance from the last match.
 */
module Greedy {
  import opened Bytes
  import opened SnappyFormat
  import opened Bits
  import opened MatchLength
  import opened Emit

  const INPUT_MARGIN_BYTES := 15

  /** One position looked at, the earlier one it was compared to, and the length of the match, 0 if none. */
  datatype Look = Look(at: nat, candidate: nat, len: nat)

  /** Where the last match ends. */
  function End(looks: seq<Look>): nat {
    if looks == [] then 0 else
      var l := looks[|looks| - 1];
      if l.len > 0 then l.at + l.len else End(looks[..|looks| - 1])
  }

  /** How far to go on from `p` without a match: one byte more for every 32 bytes since the last one. */
  function Gap(p: nat, end: nat): (r: nat)
    ensures if p <= end then r == 1 else 32 * (r - 1) < p - end <= 32 * r
  {
    if p <= end then 1 else (31 + p - end) / 32
  }

  /** The position to look at next. */
  function Next(looks: seq<Look>): nat {
    if looks == [] then 1 else
      var l := looks[|looks| - 1];
      if l.len > 0 then l.at + l.len else l.at + Gap(l.at, End(looks))
  }

  /** Whether an input of `n` bytes is looked at once more: the step behind must stay off its last 15 bytes. */
  predicate LooksOn(n: nat, looks: seq<Look>) {
    Next(looks) + Gap(Next(looks), End(looks)) + INPUT_MARGIN_BYTES <= n
  }

  /** The positions stored, oldest first: every position looked at and the last one of every match. */
  function Stored(looks: seq<Look>): seq<nat> {
    if looks == [] then [] else
      var l := looks[|looks| - 1];
      Stored(looks[..|looks| - 1]) + [l.at] + if l.len > 0 then [l.at + l.len - 1] else []
  }

  /** The latest of the stored positions whose word hashes to `h`, or 0. */
  function Latest(input: seq<byte>, hash: bv32 -> nat, stored: seq<nat>, h: nat): nat {
    if stored == [] then 0 else
      var q := stored[|stored| - 1];
      if q + 4 <= |input| && hash(Word32(input, q)) == h then q
      else Latest(input, hash, stored[..|stored| - 1], h)
  }

  /** The position that the one at `p` is compared to. */
  function CandidateFor(input: seq<byte>, hash: bv32 -> nat, looks: seq<Look>, p: nat): nat
    requires p + 4 <= |input|
  {
    Latest(input, hash, Stored(looks), hash(Word32(input, p)))
  }

  /** A look that finds four equal bytes is a match, and no longer match starts there. */
  ghost predicate IsLongest(input: seq<byte>, l: Look) {
    && 4 <= l.len && l.candidate < l.at && l.at + l.len <= |input| && Same(input, l.candidate, l.at, l.len)
    && (l.at + l.len == |input| || input[l.at + l.len] != input[l.candidate + l.len])
  }

  /** `l` is the look that follows `looks`. */
  ghost predicate IsLook(input: seq<byte>, hash: bv32 -> nat, looks: seq<Look>, l: Look) {
    && LooksOn(|input|, looks) && l.at == Next(looks)
    && l.candidate == CandidateFor(input, hash, looks, l.at) && l.candidate < l.at
    && if l.len == 0 then !Same(input, l.candidate, l.at, 4) else IsLongest(input, l)
  }

  ghost predicate IsGreedy(input: seq<byte>, hash: bv32 -> nat, looks: seq<Look>) {
    looks == [] ||
    var before := looks[..|looks| - 1];
    IsGreedy(input, hash, before) && IsLook(input, hash, before, looks[|looks| - 1])
  }

  /** The looks of the whole block. */
  ghost predicate IsComplete(input: seq<byte>, hash: bv32 -> nat, looks: seq<Look>) {
    IsGreedy(input, hash, looks) && !LooksOn(|input|, looks)
  }

  /** The bytes of `[a, b)` as a literal, if there are any. */
  function Literal(input: seq<byte>, a: nat, b: nat): seq<byte> {
    if a < b <= |input| && b - a < TWO_TO_THE_32 then LiteralTagBytes(b - a) + input[a..b] else []
  }

  /** A match as copies. */
  function Copies(l: Look): seq<byte> {
    if l.candidate < l.at < l.candidate + 0x1_0000 && 4 <= l.len then CopyBytes(l.at - l.candidate, l.len) else []
  }

  /** The tags of everything up to the end of the last match. */
  function TagsOf(input: seq<byte>, looks: seq<Look>): seq<byte> {
    if looks == [] then [] else
      var before, l := looks[..|looks| - 1], looks[|looks| - 1];
      if l.len == 0 then TagsOf(input, before)
      else TagsOf(input, before) + Literal(input, End(before), l.at) + Copies(l)
  }

  /** The tags of the whole block: the remainder is a literal. */
  function BlockTags(input: seq<byte>, looks: seq<Look>): seq<byte> {
    TagsOf(input, looks) + Literal(input, End(looks), |input|)
  }

  //////////////////////////////////////////////////////////////////////////////
  // One look more
  //////////////////////////////////////////////////////////////////////////////

  lemma LookAdded(input: seq<byte>, hash: bv32 -> nat, looks: seq<Look>, l: Look)
    requires IsGreedy(input, hash, looks) && IsLook(input, hash, looks, l)
    ensures IsGreedy(input, hash, looks + [l])
  {
    hide IsLook;
    assert (looks + [l])[..|looks|] == looks;
  }

  lemma MissAdded(input: seq<byte>, looks: seq<Look>, at: nat, candidate: nat)
    ensures var after := looks + [Look(at, candidate, 0)];
      && End(after) == End(looks) && Next(after) == at + Gap(at, End(looks))
      && Stored(after) == Stored(looks) + [at] && TagsOf(input, after) == TagsOf(input, looks)
  {
    assert (looks + [Look(at, candidate, 0)])[..|looks|] == looks;
  }

  lemma MatchAdded(input: seq<byte>, looks: seq<Look>, l: Look)
    requires l.len > 0
    ensures var after := looks + [l];
      && End(after) == Next(after) == l.at + l.len
      && Stored(after) == Stored(looks) + [l.at] + [l.at + l.len - 1]
      && TagsOf(input, after) == TagsOf(input, looks) + Literal(input, End(looks), l.at) + Copies(l)
  {
    assert (looks + [l])[..|looks|] == looks;
  }

  lemma LatestAdded(input: seq<byte>, hash: bv32 -> nat, stored: seq<nat>, p: nat, h: nat)
    ensures Latest(input, hash, stored + [p], h)
         == if p + 4 <= |input| && hash(Word32(input, p)) == h then p else Latest(input, hash, stored, h)
  {
    hide Word32;
    assert (stored + [p])[..|stored|] == stored;
  }

  //////////////////////////////////////////////////////////////////////////////
  // What every block's looks keep
  //////////////////////////////////////////////////////////////////////////////

  /** Increasing positions from 1 on, all in front of `bound`. */
  ghost predicate Ascends(s: seq<nat>, bound: nat) {
    && (forall i, j :: 0 <= i < j < |s| ==> s[i] < s[j])
    && (forall i :: 0 <= i < |s| ==> 1 <= s[i] < bound)
  }

  lemma AscendsFurther(s: seq<nat>, bound: nat, p: nat, bound': nat)
    requires Ascends(s, bound) && 1 <= p && bound <= p < bound'
    ensures Ascends(s + [p], bound')
  {
  }

  /** The stored positions increase, and all lie in front of the next one. */
  lemma {:induction false} StoredAscends(input: seq<byte>, hash: bv32 -> nat, looks: seq<Look>)
    requires IsGreedy(input, hash, looks)
    ensures Ascends(Stored(looks), Next(looks))
    ensures 1 <= Next(looks) && End(looks) <= Next(looks)
  {
    hide Same, CandidateFor, Ascends, LooksOn;
    if looks == [] {
      assert Ascends([], 1) by { NoneAscends(); }
    } else {
      var before, l := looks[..|looks| - 1], looks[|looks| - 1];
      StoredAscends(input, hash, before);
      if l.len > 0 {
        assert IsLongest(input, l);
        AscendsFurther(Stored(before), l.at, l.at, l.at + 1);
        AscendsFurther(Stored(before) + [l.at], l.at + 1, l.at + l.len - 1, l.at + l.len);
      } else {
        assert Stored(looks) == Stored(before) + [l.at];
        AscendsFurther(Stored(before), l.at, l.at, Next(looks));
      }
    }
  }

  lemma NoneAscends()
    ensures Ascends([], 1)
  {
  }

  /** What is stored: the positions looked at and the last ones of the matches, and nothing else. */
  lemma {:induction false} StoredExactly(looks: seq<Look>, q: nat)
    ensures q in Stored(looks) <==>
            exists i :: 0 <= i < |looks| && (q == looks[i].at || (looks[i].len > 0 && q == looks[i].at + looks[i].len - 1))
  {
    if looks != [] {
      var before, l := looks[..|looks| - 1], looks[|looks| - 1];
      StoredExactly(before, q);
      assert looks == before + [l];
      assert q in Stored(looks) <==> q in Stored(before) || q == l.at || (l.len > 0 && q == l.at + l.len - 1);
    }
  }

  /** Nobody looks at the last 15 bytes. */
  lemma {:induction false} LooksOff(input: seq<byte>, hash: bv32 -> nat, looks: seq<Look>)
    requires IsGreedy(input, hash, looks)
    ensures forall i :: 0 <= i < |looks| ==> looks[i].at + 15 < |input|
  {
    hide IsLook;
    if looks != [] {
      var before, l := looks[..|looks| - 1], looks[|looks| - 1];
      LooksOff(input, hash, before);
      assert l.at + 15 < |input| by { LookRoom(input, hash, before, l); }
      assert looks == before + [l];
    }
  }

  lemma LookRoom(input: seq<byte>, hash: bv32 -> nat, looks: seq<Look>, l: Look)
    requires IsLook(input, hash, looks, l)
    ensures l.at + 15 < |input|
  {
  }

  /** A block of up to 16 bytes is one literal. */
  lemma ShortBlock(input: seq<byte>, hash: bv32 -> nat, looks: seq<Look>)
    requires |input| <= 16 && IsComplete(input, hash, looks)
    ensures looks == [] && BlockTags(input, looks) == if input == [] then [] else [4 * (|input| - 1)] + input
  {
    LooksOff(input, hash, looks);
    if looks != [] {
      FirstLook(input, hash, looks);
    }
    assert input[0..|input|] == input;
  }

  /** The latest stored position with a hash is the greatest one, and it is 0 exactly when there is none. */
  lemma LatestIsGreatest(input: seq<byte>, hash: bv32 -> nat, looks: seq<Look>, h: nat)
    requires IsGreedy(input, hash, looks)
    ensures var s, p := Stored(looks), Latest(input, hash, Stored(looks), h);
      && (p != 0 ==> p in s && p + 4 <= |input| && hash(Word32(input, p)) == h)
      && (forall q :: q in s && q + 4 <= |input| && hash(Word32(input, q)) == h ==> q <= p && p != 0)
  {
    hide IsGreedy, Word32, Stored, Ascends, Latest;
    StoredAscends(input, hash, looks);
    LatestAmong(input, hash, Stored(looks), Next(looks), h);
  }

  lemma {:induction false} LatestAmong(input: seq<byte>, hash: bv32 -> nat, s: seq<nat>, bound: nat, h: nat)
    requires Ascends(s, bound)
    ensures var p := Latest(input, hash, s, h);
      && (p != 0 ==> p in s && p + 4 <= |input| && hash(Word32(input, p)) == h)
      && (forall q :: q in s && q + 4 <= |input| && hash(Word32(input, q)) == h ==> q <= p && p != 0)
  {
    hide Word32;
    if s != [] {
      var q := s[|s| - 1];
      if !(q + 4 <= |input| && hash(Word32(input, q)) == h) {
        LatestAmong(input, hash, s[..|s| - 1], bound, h);
        assert s == s[..|s| - 1] + [q];
      }
    }
  }

  /** A position is compared to the same one whoever looks, so a match there has only one length. */
  lemma LookUnique(input: seq<byte>, hash: bv32 -> nat, looks: seq<Look>, a: Look, b: Look)
    requires IsLook(input, hash, looks, a) && IsLook(input, hash, looks, b)
    ensures a == b
  {
    hide CandidateFor, Next, Same;
    LongestUnique(input, a, b);
  }

  lemma LongestUnique(input: seq<byte>, a: Look, b: Look)
    requires a.at == b.at && a.candidate == b.candidate && a.candidate < a.at && a.at + 4 <= |input|
    requires if a.len == 0 then !Same(input, a.candidate, a.at, 4) else IsLongest(input, a)
    requires if b.len == 0 then !Same(input, a.candidate, a.at, 4) else IsLongest(input, b)
    ensures a == b
  {
    hide Same;
    if a.len != 0 && b.len != 0 {
      NotLonger(input, a, b);
      NotLonger(input, b, a);
    } else if a.len != 0 {
      SameStart(input, a);
    } else if b.len != 0 {
      SameStart(input, b);
    }
  }

  lemma SameAt(s: seq<byte>, a: nat, b: nat, n: nat, k: nat)
    requires a + n <= |s| && b + n <= |s| && Same(s, a, b, n) && k < n
    ensures s[b + k] == s[a + k]
  {
    assert s[b + k] == s[a + (b + k - b)];
  }

  lemma NotLonger(input: seq<byte>, a: Look, b: Look)
    requires a.at == b.at && a.candidate == b.candidate && IsLongest(input, a) && IsLongest(input, b)
    ensures b.len <= a.len
  {
    hide Same;
    if a.len < b.len {
      SameAt(input, b.candidate, b.at, b.len, a.len);
    }
  }

  lemma SameStart(input: seq<byte>, l: Look)
    requires IsLongest(input, l)
    ensures Same(input, l.candidate, l.at, 4)
  {
  }

  /** Of two runs of looks over a block one starts like the other. */
  lemma {:induction false} LooksAgree(input: seq<byte>, hash: bv32 -> nat, a: seq<Look>, b: seq<Look>)
    requires IsGreedy(input, hash, a) && IsGreedy(input, hash, b) && |a| <= |b|
    ensures a == b[..|a|]
    ensures |a| < |b| ==> LooksOn(|input|, a)
    decreases |b|
  {
    hide IsLook;
    if |a| < |b| {
      var before := b[..|b| - 1];
      LooksAgree(input, hash, a, before);
      assert before[..|a|] == b[..|a|];
      if |a| == |before| {
        assert LooksOn(|input|, before) by { LookNeedsRoom(input, hash, before, b[|b| - 1]); }
        assert a == before;
      }
    } else if a != [] {
      var before := b[..|b| - 1];
      LooksAgree(input, hash, a[..|a| - 1], before);
      assert before[..|a| - 1] == before;
      LookUnique(input, hash, before, a[|a| - 1], b[|b| - 1]);
      assert a == a[..|a| - 1] + [a[|a| - 1]] && b[..|a|] == before + [b[|b| - 1]];
    }
  }

  lemma LookNeedsRoom(input: seq<byte>, hash: bv32 -> nat, looks: seq<Look>, l: Look)
    requires IsLook(input, hash, looks, l)
    ensures LooksOn(|input|, looks)
  {
  }

  /** The block and the hash function decide the looks, and with them every byte that is emitted. */
  lemma CompleteUnique(input: seq<byte>, hash: bv32 -> nat, a: seq<Look>, b: seq<Look>)
    requires IsComplete(input, hash, a) && IsComplete(input, hash, b)
    ensures a == b
  {
    hide IsGreedy, LooksOn;
    if |a| <= |b| {
      LooksAgree(input, hash, a, b);
      assert b[..|b|] == b;
    } else {
      LooksAgree(input, hash, b, a);
    }
  }

  //////////////////////////////////////////////////////////////////////////////
  // Blocks of one byte
  //////////////////////////////////////////////////////////////////////////////

  /** The first look of a block. */
  lemma {:induction false} FirstLook(input: seq<byte>, hash: bv32 -> nat, looks: seq<Look>)
    requires IsGreedy(input, hash, looks) && looks != []
    ensures IsLook(input, hash, [], looks[0])
    ensures |looks| > 1 ==> LooksOn(|input|, looks[..1])
  {
    hide IsLook, LooksOn;
    var before := looks[..|looks| - 1];
    if |looks| == 1 {
      assert before == [];
    } else {
      FirstLook(input, hash, before);
      LookNeedsRoom(input, hash, before, looks[|looks| - 1]);
      assert before[..1] == looks[..1];
      assert |before| == 1 ==> before == looks[..1];
    }
  }

  /** A block of equal bytes is one match: it is looked at once, and the match reaches to the end. */
  lemma EqualBytes(input: seq<byte>, hash: bv32 -> nat, looks: seq<Look>)
    requires 17 <= |input| && (forall i :: 0 <= i < |input| ==> input[i] == input[0])
    requires IsComplete(input, hash, looks)
    ensures looks == [Look(1, 0, |input| - 1)]
  {
    hide IsGreedy;
    assert LooksOn(|input|, []);
    assert looks != [];
    FirstLook(input, hash, looks);
    var l := looks[0];
    assert l.at == 1 && l.candidate == 0;
    assert Same(input, 0, 1, 4);
    assert IsLongest(input, l);
    assert looks[..1] == [l];
    MatchAdded(input, [], l);
    assert [] + [l] == [l];
  }

  /** However the hash scatters, a block of equal bytes shrinks to one byte and copies of up to 64. */
  lemma EqualBytesShrink(input: seq<byte>, hash: bv32 -> nat, looks: seq<Look>)
    requires 17 <= |input| <= BLOCK_SIZE && (forall i :: 0 <= i < |input| ==> input[i] == input[0])
    requires IsComplete(input, hash, looks)
    ensures |BlockTags(input, looks)| <= 2 + 3 * ((|input| + 62) / 64)
    ensures 64 * |BlockTags(input, looks)| >= 3 * |input| + 61
  {
    hide CopyBytes, IsComplete;
    EqualBytes(input, hash, looks);
    var l := Look(1, 0, |input| - 1);
    MatchAdded(input, [], l);
    assert [] + [l] == [l];
    CopyBytesLength(1, |input| - 1);
    assert |Literal(input, 0, 1)| == 2;
  }
}
