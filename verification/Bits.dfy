/** Bit scans, and words as bit vectors. */
module Bits {
  import opened Bytes

  //////////////////////////////////////////////////////////////////////////////
  // Bytes as bit vectors
  //////////////////////////////////////////////////////////////////////////////

  function Bit(x: nat, mask: bv8): bv8 {
    if x % 2 == 1 then mask else 0
  }

  /** Eight numbers by their lowest bits. */
  function Pack(x0: nat, x1: nat, x2: nat, x3: nat, x4: nat, x5: nat, x6: nat, x7: nat): bv8 {
    Bit(x0, 1) | Bit(x1, 2) | Bit(x2, 4) | Bit(x3, 8) | Bit(x4, 16) | Bit(x5, 32) | Bit(x6, 64) | Bit(x7, 128)
  }

  /** The eight bits of a byte. */
  function ToBv8(b: byte): bv8 {
    Pack(b, b / 2, b / 4, b / 8, b / 16, b / 32, b / 64, b / 128)
  }

  lemma PackInjective(x0: nat, x1: nat, x2: nat, x3: nat, x4: nat, x5: nat, x6: nat, x7: nat,
                      y0: nat, y1: nat, y2: nat, y3: nat, y4: nat, y5: nat, y6: nat, y7: nat)
    requires Pack(x0, x1, x2, x3, x4, x5, x6, x7) == Pack(y0, y1, y2, y3, y4, y5, y6, y7)
    ensures x0 % 2 == y0 % 2 && x1 % 2 == y1 % 2 && x2 % 2 == y2 % 2 && x3 % 2 == y3 % 2
    ensures x4 % 2 == y4 % 2 && x5 % 2 == y5 % 2 && x6 % 2 == y6 % 2 && x7 % 2 == y7 % 2
  {
  }

  lemma SameHalves(x: nat, y: nat)
    requires x % 2 == y % 2 && x / 2 == y / 2
    ensures x == y
  {
  }

  lemma Halving(b: byte)
    ensures b / 128 / 2 == 0 && b / 64 / 2 == b / 128 && b / 32 / 2 == b / 64 && b / 16 / 2 == b / 32
    ensures b / 8 / 2 == b / 16 && b / 4 / 2 == b / 8 && b / 2 / 2 == b / 4
  {
  }

  /** Different bytes have different bits. */
  lemma ToBv8Injective(a: byte, b: byte)
    requires ToBv8(a) == ToBv8(b)
    ensures a == b
  {
    hide Pack;
    PackInjective(a, a / 2, a / 4, a / 8, a / 16, a / 32, a / 64, a / 128,
                  b, b / 2, b / 4, b / 8, b / 16, b / 32, b / 64, b / 128);
    Halving(a);
    Halving(b);
    SameHalves(a / 128, b / 128);
    SameHalves(a / 64, b / 64);
    SameHalves(a / 32, b / 32);
    SameHalves(a / 16, b / 16);
    SameHalves(a / 8, b / 8);
    SameHalves(a / 4, b / 4);
    SameHalves(a / 2, b / 2);
    SameHalves(a, b);
  }

  /** Four bytes as a little-endian word. */
  function Join(b0: bv8, b1: bv8, b2: bv8, b3: bv8): bv32 {
    (b0 as bv32) | (b1 as bv32 << 8) | (b2 as bv32 << 16) | (b3 as bv32 << 24)
  }

  /** A four-byte load. */
  function Word32(s: seq<byte>, at: nat): bv32
    requires at + 4 <= |s|
  {
    Join(ToBv8(s[at]), ToBv8(s[at + 1]), ToBv8(s[at + 2]), ToBv8(s[at + 3]))
  }

  function JoinHalves(low: bv32, high: bv32): bv64 {
    (low as bv64) | (high as bv64 << 32)
  }

  /** An eight-byte load. */
  function Word64(s: seq<byte>, at: nat): bv64
    requires at + 8 <= |s|
  {
    JoinHalves(Word32(s, at), Word32(s, at + 4))
  }

  function Low32(n: bv64): bv32 {
    (n & 0xFFFF_FFFF) as bv32
  }

  function High32(n: bv64): bv32 {
    (n >> 32) as bv32
  }

  /** A long word is determined by its halves. */
  lemma SameHalfWords(lo1: bv32, hi1: bv32, lo2: bv32, hi2: bv32)
    ensures JoinHalves(lo1, hi1) == JoinHalves(lo2, hi2) <==> lo1 == lo2 && hi1 == hi2
  {
  }

  lemma HalvesOfXor(s: seq<byte>, a: nat, b: nat)
    requires a + 8 <= |s| && b + 8 <= |s|
    ensures Low32(Word64(s, a) ^ Word64(s, b)) == Word32(s, a) ^ Word32(s, b)
    ensures High32(Word64(s, a) ^ Word64(s, b)) == Word32(s, a + 4) ^ Word32(s, b + 4)
  {
    hide Word32;
  }

  /** The 32-bit word `offset` bytes into an eight-byte load. */
  function GetUint32AtOffset(v: bv64, offset: nat): bv32
    requires offset <= 4
  {
    match offset
    case 0 => Low32(v)
    case 1 => Low32(v >> 8)
    case 2 => Low32(v >> 16)
    case 3 => Low32(v >> 24)
    case _ => Low32(v >> 32)
  }

  lemma ShiftedBy0(b0: bv8, b1: bv8, b2: bv8, b3: bv8, b4: bv8, b5: bv8, b6: bv8, b7: bv8)
    ensures GetUint32AtOffset(JoinHalves(Join(b0, b1, b2, b3), Join(b4, b5, b6, b7)), 0) == Join(b0, b1, b2, b3)
  {
  }

  lemma ShiftedBy1(b0: bv8, b1: bv8, b2: bv8, b3: bv8, b4: bv8, b5: bv8, b6: bv8, b7: bv8)
    ensures GetUint32AtOffset(JoinHalves(Join(b0, b1, b2, b3), Join(b4, b5, b6, b7)), 1) == Join(b1, b2, b3, b4)
  {
  }

  lemma ShiftedBy2(b0: bv8, b1: bv8, b2: bv8, b3: bv8, b4: bv8, b5: bv8, b6: bv8, b7: bv8)
    ensures GetUint32AtOffset(JoinHalves(Join(b0, b1, b2, b3), Join(b4, b5, b6, b7)), 2) == Join(b2, b3, b4, b5)
  {
  }

  lemma ShiftedBy3(b0: bv8, b1: bv8, b2: bv8, b3: bv8, b4: bv8, b5: bv8, b6: bv8, b7: bv8)
    ensures GetUint32AtOffset(JoinHalves(Join(b0, b1, b2, b3), Join(b4, b5, b6, b7)), 3) == Join(b3, b4, b5, b6)
  {
  }

  lemma ShiftedBy4(b0: bv8, b1: bv8, b2: bv8, b3: bv8, b4: bv8, b5: bv8, b6: bv8, b7: bv8)
    ensures GetUint32AtOffset(JoinHalves(Join(b0, b1, b2, b3), Join(b4, b5, b6, b7)), 4) == Join(b4, b5, b6, b7)
  {
  }

  /** Shifting one eight-byte load replaces the overlapping four-byte loads. */
  lemma OverlappingLoads(s: seq<byte>, at: nat, offset: nat)
    requires at + 8 <= |s| && offset <= 4
    ensures GetUint32AtOffset(Word64(s, at), offset) == Word32(s, at + offset)
  {
    hide GetUint32AtOffset, Join, JoinHalves, ToBv8;
    var b0, b1, b2, b3 := ToBv8(s[at]), ToBv8(s[at + 1]), ToBv8(s[at + 2]), ToBv8(s[at + 3]);
    var b4, b5, b6, b7 := ToBv8(s[at + 4]), ToBv8(s[at + 5]), ToBv8(s[at + 6]), ToBv8(s[at + 7]);
    ShiftedBy0(b0, b1, b2, b3, b4, b5, b6, b7);
    ShiftedBy1(b0, b1, b2, b3, b4, b5, b6, b7);
    ShiftedBy2(b0, b1, b2, b3, b4, b5, b6, b7);
    ShiftedBy3(b0, b1, b2, b3, b4, b5, b6, b7);
    ShiftedBy4(b0, b1, b2, b3, b4, b5, b6, b7);
  }

  //////////////////////////////////////////////////////////////////////////////
  // The lowest set bit
  //////////////////////////////////////////////////////////////////////////////

  /** Bit `rc` of `n` is set and no lower bit is. */
  ghost predicate IsLowestSet(n: bv32, rc: nat)
    requires rc < 32
  {
    (n >> rc) & 1 == 1 && n << (32 - rc) == 0
  }

  /** Byte `k` of `n` is not zero and every lower byte is. */
  ghost predicate IsLowestByte(n: bv32, k: nat) {
    if k == 0 then n & 0xFF != 0
    else if k == 1 then n & 0xFF == 0 && n & 0xFF00 != 0
    else if k == 2 then n & 0xFF == 0 && n & 0xFF00 == 0 && n & 0xFF_0000 != 0
    else n & 0xFF == 0 && n & 0xFF00 == 0 && n & 0xFF_0000 == 0 && n & 0xFF00_0000 != 0
  }

  /** A byte of the exclusive or of two words is zero exactly when they agree in that byte. */
  lemma XorBytes(p0: bv8, p1: bv8, p2: bv8, p3: bv8, q0: bv8, q1: bv8, q2: bv8, q3: bv8)
    ensures (Join(p0, p1, p2, p3) ^ Join(q0, q1, q2, q3)) & 0xFF == 0 <==> p0 == q0
    ensures (Join(p0, p1, p2, p3) ^ Join(q0, q1, q2, q3)) & 0xFF00 == 0 <==> p1 == q1
    ensures (Join(p0, p1, p2, p3) ^ Join(q0, q1, q2, q3)) & 0xFF_0000 == 0 <==> p2 == q2
    ensures (Join(p0, p1, p2, p3) ^ Join(q0, q1, q2, q3)) & 0xFF00_0000 == 0 <==> p3 == q3
  {
    hide Join;
    XorLowBytes(p0, p1, p2, p3, q0, q1, q2, q3);
    XorHighBytes(p0, p1, p2, p3, q0, q1, q2, q3);
  }

  lemma XorLowBytes(p0: bv8, p1: bv8, p2: bv8, p3: bv8, q0: bv8, q1: bv8, q2: bv8, q3: bv8)
    ensures (Join(p0, p1, p2, p3) ^ Join(q0, q1, q2, q3)) & 0xFF == 0 <==> p0 == q0
    ensures (Join(p0, p1, p2, p3) ^ Join(q0, q1, q2, q3)) & 0xFF00 == 0 <==> p1 == q1
  {
  }

  lemma XorHighBytes(p0: bv8, p1: bv8, p2: bv8, p3: bv8, q0: bv8, q1: bv8, q2: bv8, q3: bv8)
    ensures (Join(p0, p1, p2, p3) ^ Join(q0, q1, q2, q3)) & 0xFF_0000 == 0 <==> p2 == q2
    ensures (Join(p0, p1, p2, p3) ^ Join(q0, q1, q2, q3)) & 0xFF00_0000 == 0 <==> p3 == q3
  {
  }

  /**
   Finds the lowest set bit by shifting ever smaller parts out at the top; the five rounds
   of the loop are written out.
   */
  method FindLSBSetNonZero(word: bv32) returns (rc: nat)
    requires word != 0
    ensures rc < 32 && IsLowestSet(word, rc) && IsLowestByte(word, rc / 8)
  {
    var n := word;
    rc := 31;
    var x := n << 16;
    if x != 0 { n, rc := x, rc - 16; }
    x := n << 8;
    if x != 0 { n, rc := x, rc - 8; }
    x := n << 4;
    if x != 0 { n, rc := x, rc - 4; }
    x := n << 2;
    if x != 0 { n, rc := x, rc - 2; }
    x := n << 1;
    if x != 0 { n, rc := x, rc - 1; }
  }

  /** The 64-bit scan looks at the bottom half first. */
  method FindLSBSetNonZero64(n: bv64) returns (rc: nat)
    requires n != 0
    ensures rc < 64
    ensures Low32(n) != 0 ==> rc < 32 && IsLowestSet(Low32(n), rc) && IsLowestByte(Low32(n), rc / 8)
    ensures Low32(n) == 0 ==>
              32 <= rc && IsLowestSet(High32(n), rc - 32) && IsLowestByte(High32(n), rc / 8 - 4)
  {
    hide IsLowestSet, IsLowestByte;
    var bottombits := Low32(n);
    if bottombits == 0 {
      assert High32(n) != 0;
      rc := FindLSBSetNonZero(High32(n));
      rc := 32 + rc;
    } else {
      rc := FindLSBSetNonZero(bottombits);
    }
  }

  //////////////////////////////////////////////////////////////////////////////
  // The binary logarithm
  //////////////////////////////////////////////////////////////////////////////

  function Pow2(k: nat): nat {
    if k == 0 then 1 else 2 * Pow2(k - 1)
  }

  lemma {:induction false} Pow2Sum(j: nat, k: nat)
    ensures Pow2(j + k) == Pow2(j) * Pow2(k)
    decreases k
  {
    if k > 0 {
      Pow2Sum(j, k - 1);
      assert Pow2(j + k) == 2 * Pow2(j + (k - 1));
      assert 2 * (Pow2(j) * Pow2(k - 1)) == Pow2(j) * (2 * Pow2(k - 1));
    }
  }

  /** `value` is `n` without its `log` lowest bits. */
  ghost predicate IsTop(n: nat, value: nat, log: nat) {
    value * Pow2(log) <= n < (value + 1) * Pow2(log)
  }

  lemma MulAssoc(x: nat, p: nat, q: nat)
    ensures x * p * q == x * (q * p)
  {
  }

  lemma DivBounds(v: nat, p: nat)
    requires p > 0
    ensures v / p * p <= v && v + 1 <= (v / p + 1) * p
  {
  }

  /** Shifting out `shift` more bits. */
  lemma TopStep(n: nat, value: nat, log: nat, shift: nat, p: nat, x: nat)
    requires p == Pow2(shift) && p > 0 && x == value / p
    requires IsTop(n, value, log)
    ensures IsTop(n, x, log + shift)
  {
    hide Pow2;
    Pow2Sum(log, shift);
    var q := Pow2(log);
    DivBounds(value, p);
    MulMono(x * p, value, q);
    MulMono(value + 1, (x + 1) * p, q);
    MulAssoc(x, p, q);
    MulAssoc(x + 1, p, q);
  }

  lemma MulMono(a: nat, b: nat, q: nat)
    requires a <= b
    ensures a * q <= b * q
  {
  }

  lemma {:induction false} Pow2Positive(k: nat)
    ensures Pow2(k) > 0
  {
    if k > 0 {
      Pow2Positive(k - 1);
    }
  }

  lemma {:induction false} Pow2Monotone(j: nat, k: nat)
    requires j <= k
    ensures Pow2(j) <= Pow2(k)
    decreases k
  {
    if j < k {
      Pow2Monotone(j, k - 1);
    }
  }

  /** Finds the highest set bit of a 32-bit number by halving the search range. */
  method Log2FloorNonZero(n: nat) returns (log: nat)
    requires 0 < n < TWO_TO_THE_32
    ensures log < 32 && Pow2(log) <= n < 2 * Pow2(log)
  {
    hide Pow2;
    log := 0;
    var value := n;
    var i := 5;
    SmallPowers();
    while i > 0
      invariant 0 <= i <= 5
      invariant 0 < value && IsTop(n, value, log)
      invariant value < (if i == 5 then TWO_TO_THE_32 else if i == 4 then 0x1_0000 else if i == 3 then 0x100
                         else if i == 2 then 0x10 else if i == 1 then 4 else 2)
      invariant log + (if i == 5 then 31 else if i == 4 then 15 else if i == 3 then 7
                       else if i == 2 then 3 else if i == 1 then 1 else 0) <= 31
    {
      i := i - 1;
      var shift := if i == 4 then 16 else if i == 3 then 8 else if i == 2 then 4 else if i == 1 then 2 else 1;
      SmallPowers();
      var x := value / Pow2(shift);
      TopStep(n, value, log, shift, Pow2(shift), x);
      if x != 0 {
        value := x;
        log := log + shift;
      }
    }
  }

  lemma SmallPowers()
    ensures Pow2(0) == 1 && Pow2(1) == 2 && Pow2(2) == 4 && Pow2(4) == 0x10 && Pow2(8) == 0x100
    ensures Pow2(16) == 0x1_0000 && Pow2(24) == 0x100_0000
  {
  }
}
