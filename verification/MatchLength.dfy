/** The length of a match, found a word at a time. */
module MatchLength {
  import opened Bytes
  import opened Bits

  /** The bytes from `a` and from `b` on agree for `n` bytes. */
  ghost predicate Same(s: seq<byte>, a: nat, b: nat, n: nat)
    requires a + n <= |s| && b + n <= |s|
  {
    forall j {:trigger s[j]} :: b <= j < b + n ==> s[j] == s[a + (j - b)]
  }

  /** `n` is the longest match of the bytes from `s1` with those in `[s2, s2Limit)`. */
  ghost predicate IsMatch(s: seq<byte>, s1: nat, s2: nat, s2Limit: nat, n: nat)
    requires s2 <= s2Limit <= |s| && s1 + (s2Limit - s2) <= |s|
  {
    && s2 + n <= s2Limit && Same(s, s1, s2, n)
    && (s2 + n < s2Limit ==> s[s1 + n] != s[s2 + n])
  }

  /** Equal words are equal bytes. */
  lemma SameWord32(s: seq<byte>, a: nat, b: nat)
    requires a + 4 <= |s| && b + 4 <= |s|
    ensures Word32(s, a) == Word32(s, b) <==> Same(s, a, b, 4)
  {
    hide ToBv8;
    if Word32(s, a) == Word32(s, b) {
      ToBv8Injective(s[a], s[b]);
      ToBv8Injective(s[a + 1], s[b + 1]);
      ToBv8Injective(s[a + 2], s[b + 2]);
      ToBv8Injective(s[a + 3], s[b + 3]);
    }
    if Same(s, a, b, 4) {
      assert s[b] == s[a] && s[b + 1] == s[a + 1] && s[b + 2] == s[a + 2] && s[b + 3] == s[a + 3];
    }
  }

  /** The lowest byte of the difference of two words is the first differing byte. */
  lemma FirstDifference32(s: seq<byte>, a: nat, b: nat, k: nat)
    requires a + 4 <= |s| && b + 4 <= |s| && k < 4
    requires IsLowestByte(Word32(s, a) ^ Word32(s, b), k)
    ensures Same(s, a, b, k) && s[a + k] != s[b + k]
  {
    hide ToBv8, Join;
    XorBytes(ToBv8(s[a]), ToBv8(s[a + 1]), ToBv8(s[a + 2]), ToBv8(s[a + 3]),
             ToBv8(s[b]), ToBv8(s[b + 1]), ToBv8(s[b + 2]), ToBv8(s[b + 3]));
    if k >= 1 { ToBv8Injective(s[a], s[b]); }
    if k >= 2 { ToBv8Injective(s[a + 1], s[b + 1]); }
    if k >= 3 { ToBv8Injective(s[a + 2], s[b + 2]); }
  }

  /** The scan of an eight-byte difference finds the first differing byte. */
  method FirstDifference64(s: seq<byte>, a: nat, b: nat) returns (k: nat)
    requires a + 8 <= |s| && b + 8 <= |s| && Word64(s, a) != Word64(s, b)
    ensures k < 8 && Same(s, a, b, k) && s[a + k] != s[b + k]
  {
    hide Word32;
    assert Word64(s, a) ^ Word64(s, b) != 0;
    var rc := FindLSBSetNonZero64(Word64(s, a) ^ Word64(s, b));
    HalvesOfXor(s, a, b);
    if rc < 32 {
      FirstDifference32(s, a, b, rc / 8);
    } else {
      SameWord32(s, a, b);
      FirstDifference32(s, a + 4, b + 4, rc / 8 - 4);
    }
    k := rc / 8;
  }

  /** Extends a match by a stretch that agrees. */
  lemma SameConcat(s: seq<byte>, a: nat, b: nat, m: nat, n: nat)
    requires a + m + n <= |s| && b + m + n <= |s|
    requires Same(s, a, b, m) && Same(s, a + m, b + m, n)
    ensures Same(s, a, b, m + n)
  {
    forall j | b <= j < b + (m + n) ensures s[j] == s[a + (j - b)] {
      if j >= b + m {
        assert s[j] == s[a + m + (j - (b + m))];
      }
    }
  }

  lemma SameWord64(s: seq<byte>, a: nat, b: nat)
    requires a + 8 <= |s| && b + 8 <= |s|
    ensures Word64(s, a) == Word64(s, b) <==> Same(s, a, b, 8)
  {
    hide Word32, JoinHalves;
    SameWord32(s, a, b);
    SameWord32(s, a + 4, b + 4);
    SameHalfWords(Word32(s, a), Word32(s, a + 4), Word32(s, b), Word32(s, b + 4));
    if Same(s, a, b, 4) && Same(s, a + 4, b + 4, 4) {
      SameConcat(s, a, b, 4, 4);
    }
    if Same(s, a, b, 8) {
      forall j | b + 4 <= j < b + 8 ensures s[j] == s[a + 4 + (j - (b + 4))] {
      }
    }
  }

  /** The tail of both versions: a byte at a time. */
  method MatchBytes(s: seq<byte>, s1: nat, s2: nat, s2Limit: nat, start: nat) returns (matched: nat)
    requires s2 + start <= s2Limit <= |s| && s1 + (s2Limit - s2) <= |s| && Same(s, s1, s2, start)
    ensures IsMatch(s, s1, s2, s2Limit, matched) && start <= matched
  {
    matched := start;
    while s2 + matched < s2Limit && s[s1 + matched] == s[s2 + matched]
      invariant start <= matched && s2 + matched <= s2Limit && Same(s, s1, s2, matched)
      decreases s2Limit - matched
    {
      matched := matched + 1;
    }
  }

  /** Eight bytes at a time, for 64-bit machines. */
  method FindMatchLength64(s: seq<byte>, s1: nat, s2: nat, s2Limit: nat) returns (n: nat, lessThan8: bool)
    requires s2 <= s2Limit <= |s| && s1 + (s2Limit - s2) <= |s|
    ensures IsMatch(s, s1, s2, s2Limit, n) && lessThan8 == (n < 8)
  {
    hide Word64;
    var matched := 0;
    if s2 + 8 <= s2Limit {
      SameWord64(s, s1, s2);
      if Word64(s, s1) != Word64(s, s2) {
        var k := FirstDifference64(s, s1, s2);
        return k, true;
      }
      matched := 8;
    }
    while s2 + matched + 8 <= s2Limit
      invariant s2 + matched <= s2Limit && Same(s, s1, s2, matched)
      invariant matched == 0 ==> s2Limit < s2 + 8
      invariant matched != 0 ==> matched >= 8
      decreases s2Limit - matched
    {
      SameWord64(s, s1 + matched, s2 + matched);
      if Word64(s, s2 + matched) == Word64(s, s1 + matched) {
        SameConcat(s, s1, s2, matched, 8);
        matched := matched + 8;
      } else {
        var k := FirstDifference64(s, s1 + matched, s2 + matched);
        SameConcat(s, s1, s2, matched, k);
        return matched + k, false;
      }
    }
    n := MatchBytes(s, s1, s2, s2Limit, matched);
    lessThan8 := n < 8;
  }

  /** Where two differing words first differ. */
  method FirstMismatch32(s: seq<byte>, a: nat, b: nat) returns (k: nat)
    requires a + 4 <= |s| && b + 4 <= |s| && Word32(s, a) != Word32(s, b)
    ensures k < 4 && Same(s, a, b, k) && s[b + k] != s[a + k]
  {
    hide Word32, IsLowestSet, IsLowestByte;
    var x := Word32(s, b) ^ Word32(s, a);
    assert x != 0;
    var rc := FindLSBSetNonZero(x);
    assert x == Word32(s, a) ^ Word32(s, b);
    FirstDifference32(s, a, b, rc / 8);
    k := rc / 8;
  }

  /** Four bytes at a time, for the other little-endian machines. */
  method FindMatchLength32(s: seq<byte>, s1: nat, s2: nat, s2Limit: nat) returns (n: nat, lessThan8: bool)
    requires s2 <= s2Limit <= |s| && s1 + (s2Limit - s2) <= |s|
    ensures IsMatch(s, s1, s2, s2Limit, n) && lessThan8 == (n < 8)
  {
    hide Word32, IsLowestSet, IsLowestByte;
    var matched := 0;
    while s2 + matched + 4 <= s2Limit && Word32(s, s2 + matched) == Word32(s, s1 + matched)
      invariant s2 + matched <= s2Limit && Same(s, s1, s2, matched)
      decreases s2Limit - matched
    {
      SameWord32(s, s1 + matched, s2 + matched);
      SameConcat(s, s1, s2, matched, 4);
      matched := matched + 4;
    }
    if s2 + matched + 4 <= s2Limit {
      var k := FirstMismatch32(s, s1 + matched, s2 + matched);
      SameConcat(s, s1, s2, matched, k);
      n := matched + k;
    } else {
      n := MatchBytes(s, s1, s2, s2Limit, matched);
    }
    lessThan8 := n < 8;
  }
}
