/** Bytes, machine words and the option type shared by every module. */
module Bytes {

  type byte = b: int | 0 <= b < 256

  const TWO_TO_THE_32: int := 0x1_0000_0000
  const TWO_TO_THE_64: int := 0x1_0000_0000_0000_0000

  datatype Option<+T> = None | Some(value: T)

  function Min(a: int, b: int): int {
    if a <= b then a else b
  }

  /** Unsigned 64-bit subtraction: a negative difference wraps around. */
  function Sub64(a: nat, b: nat): (r: nat)
    requires b <= TWO_TO_THE_64
  {
    if b <= a then a - b else a + TWO_TO_THE_64 - b
  }

  lemma PrefixOfSlice<T>(s: seq<T>, lo: nat, hi: nat, n: nat)
    requires lo + n <= hi <= |s|
    ensures s[lo..hi][..n] == s[lo..lo + n]
  {
  }

  lemma PrefixOfConcat<T>(a: seq<T>, b: seq<T>, n: nat)
    requires n <= |b|
    ensures (a + b)[..|a| + n] == a + b[..n]
  {
  }

  /** Byte `i` of `s`, or 0 behind its end. */
  function ByteOr0(s: seq<byte>, i: nat): int {
    if i < |s| then s[i] else 0
  }

  /** The number whose base-256 digits are `s`, least significant first. */
  function LittleEndian(s: seq<byte>): nat
    requires |s| <= 4
  {
    ByteOr0(s, 0) + 0x100 * ByteOr0(s, 1) + 0x1_0000 * ByteOr0(s, 2) + 0x100_0000 * ByteOr0(s, 3)
  }

  /** What makes it so: the first byte is the lowest digit, and no byte at all stands for nothing. */
  lemma LittleEndianDigits(s: seq<byte>)
    requires |s| <= 4
    ensures s == [] ==> LittleEndian(s) == 0
    ensures s != [] ==> LittleEndian(s) == s[0] + 256 * LittleEndian(s[1..])
  {
  }

  /** 256 to the power `n`, for the word sizes a tag can name. */
  function Pow256(n: nat): nat
    requires n <= 4
  {
    if n == 0 then 1 else if n == 1 then 0x100 else if n == 2 then 0x1_0000
    else if n == 3 then 0x100_0000 else 0x1_0000_0000
  }
}
