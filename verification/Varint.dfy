/** The varint header: encoding, and the two parsers for it. */
module Varint {
  import opened Bytes
  import opened SnappyFormat

  const MAX_32 := 5

  /** `x` shifted left by `7 * i` bits, for the digits a 32-bit varint can have. */
  function Shift(i: nat, x: nat): nat
    requires i <= 5
  {
    if i == 0 then x else if i == 1 then 0x80 * x else if i == 2 then 0x4000 * x
    else if i == 3 then 0x20_0000 * x else if i == 4 then 0x1000_0000 * x else 0x8_0000_0000 * x
  }

  /** The canonical digits of `v`. */
  function Encoded(v: nat): seq<byte> {
    if v < 128 then [v] else [v % 128 + 128] + Encoded(v / 128)
  }

  /** Writes `v` to the front of the buffer and returns the end of what it wrote. */
  method Encode32(ptr: array<byte>, v: nat) returns (n: nat)
    requires v < TWO_TO_THE_32 && MAX_32 <= ptr.Length
    modifies ptr
    ensures 1 <= n <= MAX_32 && ptr[..n] == Encoded(v)
  {
    if v < 0x80 {
      ptr[0] := v;
      n := 1;
    } else if v < 0x4000 {
      ptr[0], ptr[1] := v % 128 + 128, v / 0x80;
      n := 2;
    } else if v < 0x20_0000 {
      ptr[0], ptr[1], ptr[2] := v % 128 + 128, v / 0x80 % 128 + 128, v / 0x4000;
      n := 3;
    } else if v < 0x1000_0000 {
      ptr[0], ptr[1], ptr[2], ptr[3] :=
        v % 128 + 128, v / 0x80 % 128 + 128, v / 0x4000 % 128 + 128, v / 0x20_0000;
      n := 4;
    } else {
      ptr[0], ptr[1], ptr[2], ptr[3], ptr[4] :=
        v % 128 + 128, v / 0x80 % 128 + 128, v / 0x4000 % 128 + 128, v / 0x20_0000 % 128 + 128, v / 0x1000_0000;
      n := 5;
    }
    EncodedStep(v, 0);
    EncodedStep(v, 1);
    EncodedStep(v, 2);
    EncodedStep(v, 3);
    EncodedStep(v, 4);
  }

  /** Unfolds the digits of a number of at least 32 - 7 * `i` bits. */
  lemma EncodedStep(v: nat, i: nat)
    requires i <= 4
    ensures v / Shift(i, 1) < 128 ==> Encoded(v / Shift(i, 1)) == [v / Shift(i, 1)]
    ensures i < 4 && v / Shift(i, 1) >= 128 ==>
              Encoded(v / Shift(i, 1)) == [v / Shift(i, 1) % 128 + 128] + Encoded(v / Shift(i + 1, 1))
  {
    assert v / Shift(i, 1) / 128 == v / Shift(i + 1, 1);
  }

  /** Whatever follows it, an encoded number is read back with its own length. */
  lemma {:induction false} EncodedParses(v: nat, rest: seq<byte>)
    ensures VarintLength(Encoded(v) + rest) == |Encoded(v)|
    ensures VarintValue(Encoded(v) + rest) == v
  {
    var s := Encoded(v) + rest;
    if v >= 128 {
      assert s[1..] == Encoded(v / 128) + rest;
      EncodedParses(v / 128, rest);
    }
  }

  /** Five digits are enough for 32 bits. */
  lemma EncodedLength(v: nat)
    requires v < TWO_TO_THE_32
    ensures 1 <= |Encoded(v)| <= 5
  {
    assert |Encoded(v / 0x1000_0000)| <= 1;
    assert |Encoded(v / 0x20_0000)| <= 2;
    assert |Encoded(v / 0x4000)| <= 3;
    assert |Encoded(v / 128)| <= 4;
  }

  /** And no more digits than needed are used. */
  lemma EncodedMinimal(v: nat)
    requires v < TWO_TO_THE_32
    ensures |Encoded(v)| == if v < 0x80 then 1 else if v < 0x4000 then 2 else if v < 0x20_0000 then 3
                            else if v < 0x1000_0000 then 4 else 5
  {
    EncodedStep(v, 0);
    EncodedStep(v, 1);
    EncodedStep(v, 2);
    EncodedStep(v, 3);
    EncodedStep(v, 4);
  }

  /** Every number below 2^32 has a header, and it says that number. */
  lemma HeaderRoundTrip(v: nat, rest: seq<byte>)
    requires v < TWO_TO_THE_32
    ensures HasHeader(Encoded(v) + rest) && VarintValue(Encoded(v) + rest) == v
    ensures (Encoded(v) + rest)[VarintLength(Encoded(v) + rest)..] == rest
  {
    EncodedLength(v);
    EncodedParses(v, rest);
  }

  //////////////////////////////////////////////////////////////////////////////
  // Parsing
  //////////////////////////////////////////////////////////////////////////////

  /** Having read `i` digits of `s`, none of them the last, worth `result` together. */
  ghost predicate Read(s: seq<byte>, i: nat, result: nat) {
    && i <= 5 && i <= |s| && result < Shift(i, 1)
    && VarintValue(s) == result + Shift(i, VarintValue(s[i..]))
    && VarintLength(s) == if VarintLength(s[i..]) == 0 then 0 else i + VarintLength(s[i..])
  }

  lemma {:induction false} ReadStart(s: seq<byte>)
    ensures Read(s, 0, 0)
  {
    assert s[0..] == s;
  }

  lemma ShiftStep(i: nat, d: nat, x: nat)
    requires i < 5
    ensures Shift(i, d + 128 * x) == Shift(i, d) + Shift(i + 1, x) >= Shift(i, d)
    ensures d < 128 ==> Shift(i, 1) + Shift(i, d) <= Shift(i + 1, 1)
    ensures d < 128 && Shift(i, d) < TWO_TO_THE_32 ==> Shift(i, 1) + Shift(i, d) <= TWO_TO_THE_32
  {
  }

  /** Reads one more digit. */
  lemma {:induction false} ReadStep(s: seq<byte>, i: nat, result: nat)
    requires Read(s, i, result) && i < 5 && i < |s|
    ensures s[i] >= 128 ==> Read(s, i + 1, result + Shift(i, s[i] - 128))
    ensures s[i] < 128 ==> VarintLength(s) == i + 1 && VarintValue(s) == result + Shift(i, s[i])
    ensures VarintValue(s) >= result + Shift(i, s[i] % 128)
    ensures Shift(i, s[i] % 128) < TWO_TO_THE_32 ==> result + Shift(i, s[i] % 128) < TWO_TO_THE_32
  {
    hide Shift;
    assert s[i..][1..] == s[i + 1..];
    var d: nat := s[i] % 128;
    ShiftStep(i, d, if s[i] < 128 then 0 else VarintValue(s[i + 1..]));
  }

  /** Whether 7-bit `value`, shifted left by `digits` digits, loses bits of a 32-bit word. */
  function LeftShiftOverflows(value: nat, digits: nat): (r: bool)
    requires digits <= 4 && value < 128
    ensures r <==> Shift(digits, value) >= TWO_TO_THE_32
  {
    digits == 4 && value / 16 != 0
  }

  /** A parser that stops after `i` digits without an end has no header in front of it. */
  lemma {:induction false} ReadStops(s: seq<byte>, i: nat, result: nat)
    requires Read(s, i, result) && (|s| <= i || i == 5)
    ensures !HasHeader(s)
  {
  }

  datatype Progress = Malformed | Complete | More

  /** One of the first four steps of `Parse32WithLimit`. */
  method ParseDigit(s: seq<byte>, i: nat, result: nat) returns (p: Progress, result': nat)
    requires i < 4 && Read(s, i, result)
    ensures p == Malformed ==> !HasHeader(s)
    ensures p == Complete ==> HasHeader(s) && VarintValue(s) == result' && VarintLength(s) == i + 1
    ensures p == More ==> Read(s, i + 1, result')
  {
    hide VarintValue, VarintLength;
    if |s| <= i {
      ReadStops(s, i, result);
      return Malformed, result;
    }
    var b: int := s[i];
    ReadStep(s, i, result);
    result' := result + Shift(i, b % 128);
    p := if b < 128 then Complete else More;
  }

  /** Parses a header from flat memory, with the five steps written out. */
  method Parse32WithLimit(s: seq<byte>) returns (r: Option<(nat, nat)>)
    ensures r.Some? <==> HasHeader(s)
    ensures r.Some? ==> r.value == (VarintValue(s), VarintLength(s))
  {
    hide Read, VarintValue, VarintLength;
    ReadStart(s);
    var p, result := ParseDigit(s, 0, 0);
    if p != More { return if p == Complete then Some((result, 1)) else None; }
    p, result := ParseDigit(s, 1, result);
    if p != More { return if p == Complete then Some((result, 2)) else None; }
    p, result := ParseDigit(s, 2, result);
    if p != More { return if p == Complete then Some((result, 3)) else None; }
    p, result := ParseDigit(s, 3, result);
    if p != More { return if p == Complete then Some((result, 4)) else None; }
    if |s| <= 4 {
      ReadStops(s, 4, result);
      return None;
    }
    var b: int := s[4];
    ReadStep(s, 4, result);
    if b >= 128 {
      ReadStops(s, 5, result + Shift(4, b - 128));
    }
    result := result + 0x1000_0000 * (b % 128) % TWO_TO_THE_32;
    r := if b < 16 then Some((result, 5)) else None;
  }
}
