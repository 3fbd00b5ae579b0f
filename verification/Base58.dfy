/**
 CryptoNote's Base58: blocks of eight bytes become eleven characters, and a shorter last
 block becomes correspondingly fewer.  This says what an encoding is, in terms of positional
 numbers in base 256 and base 58, and that it is a bijection; `Base58Code` is the 64-bit code,
 proved to compute just that.
 */
module Base58 {
  import opened Bytes

  //////////////////////////////////////////////////////////////////////////////
  // Positional numbers, most significant digit first
  //////////////////////////////////////////////////////////////////////////////

  function Pow(b: nat, w: nat): nat {
    if w == 0 then 1 else b * Pow(b, w - 1)
  }

  ghost predicate AreDigits(d: seq<nat>, b: nat) {
    forall i :: 0 <= i < |d| ==> d[i] < b
  }

  /** The number with digits `d`. */
  function Value(d: seq<nat>, b: nat): nat {
    if d == [] then 0 else b * Value(d[..|d| - 1], b) + d[|d| - 1]
  }

  /** The `w` lowest digits of `n`. */
  function Digits(n: nat, b: nat, w: nat): (d: seq<nat>)
    requires b >= 2
    ensures |d| == w && AreDigits(d, b)
  {
    if w == 0 then [] else Digits(n / b, b, w - 1) + [n % b]
  }

  lemma DivMod(b: nat, q: nat, r: nat)
    requires r < b
    ensures (b * q + r) / b == q && (b * q + r) % b == r
  {
    var n := b * q + r;
    assert n == b * (n / b) + n % b;
    if n / b < q {
      MulStep(b, n / b + 1, q);
    } else if n / b > q {
      MulStep(b, q + 1, n / b);
    }
  }

  lemma MulStep(b: nat, x: nat, y: nat)
    requires x <= y
    ensures b * x <= b * y
  {
  }

  lemma DivIdentity(n: nat, b: nat)
    requires b > 0
    ensures n == b * (n / b) + n % b
  {
  }

  lemma QuotientBelow(n: nat, b: nat, p: nat)
    requires b > 0 && n < b * p
    ensures n / b < p
  {
    DivIdentity(n, b);
    if n / b >= p {
      MulStep(b, p, n / b);
    }
  }

  lemma ValueAppend(d: seq<nat>, x: nat, b: nat)
    ensures Value(d + [x], b) == b * Value(d, b) + x
  {
    assert (d + [x])[..|d|] == d;
  }

  lemma {:induction false} ValueOfDigits(n: nat, b: nat, w: nat)
    requires b >= 2 && n < Pow(b, w)
    ensures Value(Digits(n, b, w), b) == n
    decreases w
  {
    if w > 0 {
      hide Value;
      QuotientBelow(n, b, Pow(b, w - 1));
      ValueOfDigits(n / b, b, w - 1);
      ValueAppend(Digits(n / b, b, w - 1), n % b, b);
      DivIdentity(n, b);
    }
  }

  lemma DigitsStep(q: nat, r: nat, b: nat, w: nat)
    requires b >= 2 && r < b && w > 0
    ensures Digits(b * q + r, b, w) == Digits(q, b, w - 1) + [r]
  {
    DivMod(b, q, r);
  }

  lemma PowStep(v: nat, r: nat, b: nat, w: nat)
    requires r < b && v < Pow(b, w)
    ensures b * v + r < Pow(b, w + 1)
  {
    MulStep(b, v + 1, Pow(b, w));
  }

  lemma {:induction false} DigitsOfValue(d: seq<nat>, b: nat)
    requires b >= 2 && AreDigits(d, b)
    ensures Value(d, b) < Pow(b, |d|) && Digits(Value(d, b), b, |d|) == d
    decreases |d|
  {
    if d != [] {
      hide Value, Pow, Digits;
      var front, last := d[..|d| - 1], d[|d| - 1];
      DigitsOfValue(front, b);
      assert front + [last] == d;
      ValueAppend(front, last, b);
      DigitsStep(Value(front, b), last, b, |d|);
      PowStep(Value(front, b), last, b, |d| - 1);
    }
  }

  /** A digit put in front counts with the place of what follows it. */
  lemma {:induction false} ValuePrepend(x: nat, d: seq<nat>, b: nat)
    ensures Value([x] + d, b) == x * Pow(b, |d|) + Value(d, b)
    decreases |d|
  {
    var s := [x] + d;
    if d == [] {
      assert s[..0] == [];
    } else {
      var front, last := d[..|d| - 1], d[|d| - 1];
      assert s[..|s| - 1] == [x] + front;
      ValuePrepend(x, front, b);
      MulOut(b, x, Pow(b, |d| - 1), Value(front, b));
    }
  }

  lemma MulOut(b: nat, x: nat, p: nat, v: nat)
    ensures b * (x * p + v) == x * (b * p) + b * v
  {
  }

  /** More digits in front never make a number smaller. */
  lemma {:induction false} ValueSuffix(d: seq<nat>, i: nat, b: nat)
    requires i <= |d|
    ensures Value(d, b) >= Value(d[i..], b)
    decreases i
  {
    hide Value;
    if i == 0 {
      assert d[0..] == d;
    } else {
      ValueSuffix(d, i - 1, b);
      assert d[i - 1..] == [d[i - 1]] + d[i..];
      ValuePrepend(d[i - 1], d[i..], b);
    }
  }

  /** Fewer of the low digits are a suffix of more of them. */
  lemma {:induction false} DigitsSuffix(n: nat, b: nat, w: nat, k: nat)
    requires b >= 2 && k <= w
    ensures Digits(n, b, w)[w - k..] == Digits(n, b, k)
    decreases k
  {
    if k > 0 {
      DigitsSuffix(n / b, b, w - 1, k - 1);
    }
  }

  //////////////////////////////////////////////////////////////////////////////
  // The alphabet and the block sizes
  //////////////////////////////////////////////////////////////////////////////

  const ALPHABET_SIZE := 58
  const FULL_BLOCK_SIZE := 8
  const FULL_ENCODED_BLOCK_SIZE := 11

  /** 58 letters and digits, without 0, I, O and l; one string for each run of neighbours. */
  const ALPHABET: string := "123456789" + "ABCDEFGH" + "JKLMN" + "PQRSTUVWXYZ" + "abcdefghijk" + "mnopqrstuvwxyz"

  /** The code of letter `i`. */
  function Code(i: nat): nat
    requires i < ALPHABET_SIZE
  {
    if i < 9 then i + 49 else if i < 17 then i + 56 else if i < 22 then i + 57
    else if i < 33 then i + 58 else if i < 44 then i + 64 else i + 65
  }

  lemma AlphabetCode(i: nat)
    requires i < ALPHABET_SIZE
    ensures |ALPHABET| == ALPHABET_SIZE && ALPHABET[i] as int == Code(i)
  {
    var a, b, c, d, e, f := "123456789", "ABCDEFGH", "JKLMN", "PQRSTUVWXYZ", "abcdefghijk", "mnopqrstuvwxyz";
    var j := if i < 9 then i else if i < 17 then i - 9 else if i < 22 then i - 17
             else if i < 33 then i - 22 else if i < 44 then i - 33 else i - 44;
    assert ALPHABET[i] == if i < 9 then a[j] else if i < 17 then b[j] else if i < 22 then c[j]
                          else if i < 33 then d[j] else if i < 44 then e[j] else f[j];
  }

  /** The letter for a digit. */
  function Letter(d: nat): (c: char)
    requires d < ALPHABET_SIZE
    ensures c as int == Code(d)
  {
    AlphabetCode(d);
    ALPHABET[d]
  }

  /** The digit for a letter, or -1. */
  function DigitOf(c: char): (d: int)
    ensures -1 <= d < ALPHABET_SIZE
    ensures d >= 0 ==> Letter(d) == c
    ensures d < 0 ==> forall i :: 0 <= i < ALPHABET_SIZE ==> Letter(i) != c
  {
    var n := c as int;
    if 49 <= n <= 57 then n - 49 else if 65 <= n <= 72 then n - 56 else if 74 <= n <= 78 then n - 57
    else if 80 <= n <= 90 then n - 58 else if 97 <= n <= 107 then n - 64 else if 109 <= n <= 122 then n - 65
    else -1
  }

  /** The symbols are the ASCII letters and digits but for four that are easily mistaken. */
  lemma Symbols(c: char)
    ensures DigitOf(c) >= 0 <==>
      ('0' <= c <= '9' || 'A' <= c <= 'Z' || 'a' <= c <= 'z') && c != '0' && c != 'I' && c != 'O' && c != 'l'
  {
  }

  /** Larger digits have larger letters. */
  lemma LettersAscend(i: nat, j: nat)
    requires i < j < ALPHABET_SIZE
    ensures Letter(i) < Letter(j)
  {
  }

  lemma DigitOfLetter(d: nat)
    requires d < ALPHABET_SIZE
    ensures DigitOf(Letter(d)) == d
  {
  }

  /** How many characters a block of `n` bytes takes. */
  function EncodedBlockSize(n: nat): (e: nat)
    requires n <= FULL_BLOCK_SIZE
    ensures e <= FULL_ENCODED_BLOCK_SIZE && (e == 0 <==> n == 0)
  {
    if n == 0 then 0 else if n == 1 then 2 else if n == 2 then 3 else if n == 3 then 5 else if n == 4 then 6
    else if n == 5 then 7 else if n == 6 then 9 else if n == 7 then 10 else 11
  }

  /** How many bytes a block of `e` characters stands for, or -1. */
  function DecodedBlockSize(e: nat): (n: int)
    requires e <= FULL_ENCODED_BLOCK_SIZE
    ensures -1 <= n <= FULL_BLOCK_SIZE
    ensures n >= 0 ==> EncodedBlockSize(n) == e
    ensures n < 0 ==> forall k :: 0 <= k <= FULL_BLOCK_SIZE ==> EncodedBlockSize(k) != e
  {
    if e == 0 then 0 else if e == 2 then 1 else if e == 3 then 2 else if e == 5 then 3 else if e == 6 then 4
    else if e == 7 then 5 else if e == 9 then 6 else if e == 10 then 7 else if e == 11 then 8 else -1
  }

  lemma DecodedOfEncoded(n: nat)
    requires n <= FULL_BLOCK_SIZE
    ensures DecodedBlockSize(EncodedBlockSize(n)) == n
  {
  }

  /** The numbers a block of `n` bytes can hold fit the characters it is given. */
  lemma BlockFits(n: nat)
    requires 1 <= n <= FULL_BLOCK_SIZE
    ensures Pow(256, n) <= Pow(58, EncodedBlockSize(n))
    ensures Pow(256, n) <= TWO_TO_THE_64 && (n == FULL_BLOCK_SIZE ==> Pow(256, n) == TWO_TO_THE_64)
  {
    assert Pow(256, 1) == 0x100 && Pow(58, 2) == 3_364;
    assert Pow(256, 2) == 0x1_0000 && Pow(58, 3) == 195_112;
    assert Pow(256, 3) == 0x100_0000 && Pow(58, 5) == 656_356_768;
    assert Pow(256, 4) == 0x1_0000_0000 && Pow(58, 6) == 38_068_692_544;
    assert Pow(256, 5) == 0x100_0000_0000 && Pow(58, 7) == 2_207_984_167_552;
    assert Pow(256, 6) == 0x1_0000_0000_0000 && Pow(58, 9) == 7_427_658_739_644_928;
    assert Pow(256, 7) == 0x100_0000_0000_0000 && Pow(58, 10) == 430_804_206_899_405_824;
    assert Pow(256, 8) == TWO_TO_THE_64 && Pow(58, 11) == 24_986_644_000_165_537_792;
  }

  /** And with one character less they would not. */
  lemma BlockSizeMinimal(n: nat)
    requires 1 <= n <= FULL_BLOCK_SIZE
    ensures Pow(58, EncodedBlockSize(n) - 1) < Pow(256, n)
  {
    assert Pow(256, 1) == 0x100 && Pow(58, 1) == 58;
    assert Pow(256, 2) == 0x1_0000 && Pow(58, 2) == 3_364;
    assert Pow(256, 3) == 0x100_0000 && Pow(58, 4) == 11_316_496;
    assert Pow(256, 4) == 0x1_0000_0000 && Pow(58, 5) == 656_356_768;
    assert Pow(256, 5) == 0x100_0000_0000 && Pow(58, 6) == 38_068_692_544;
    assert Pow(256, 6) == 0x1_0000_0000_0000 && Pow(58, 8) == 128_063_081_718_016;
    assert Pow(256, 7) == 0x100_0000_0000_0000 && Pow(58, 9) == 7_427_658_739_644_928;
    assert Pow(256, 8) == TWO_TO_THE_64 && Pow(58, 10) == 430_804_206_899_405_824;
  }

  //////////////////////////////////////////////////////////////////////////////
  // What an encoding is
  //////////////////////////////////////////////////////////////////////////////

  function Letters(d: seq<nat>): (s: string)
    requires AreDigits(d, ALPHABET_SIZE)
    ensures |s| == |d|
  {
    seq(|d|, i requires 0 <= i < |d| => Letter(d[i]))
  }

  predicate AreSymbols(s: string) {
    forall i :: 0 <= i < |s| ==> DigitOf(s[i]) >= 0
  }

  function Numbers(s: string): (d: seq<nat>)
    requires AreSymbols(s)
    ensures |d| == |s| && AreDigits(d, ALPHABET_SIZE)
  {
    seq(|s|, i requires 0 <= i < |s| => DigitOf(s[i]))
  }

  lemma NumbersOfLetters(d: seq<nat>)
    requires AreDigits(d, ALPHABET_SIZE)
    ensures AreSymbols(Letters(d)) && Numbers(Letters(d)) == d
  {
    forall i | 0 <= i < |d| ensures DigitOf(Letters(d)[i]) == d[i] {
      DigitOfLetter(d[i]);
    }
  }

  lemma LettersOfNumbers(s: string)
    requires AreSymbols(s)
    ensures Letters(Numbers(s)) == s
  {
  }

  function AsBytes(d: seq<nat>): (s: seq<byte>)
    requires AreDigits(d, 256)
    ensures s == d
  {
    seq(|d|, i requires 0 <= i < |d| => d[i])
  }

  /** A block as the fixed-width base-58 numeral of its big-endian value. */
  function EncodeBlock(block: seq<byte>): (s: string)
    requires 1 <= |block| <= FULL_BLOCK_SIZE
    ensures |s| == EncodedBlockSize(|block|)
  {
    Letters(Digits(Value(block, 256), 58, EncodedBlockSize(|block|)))
  }

  /** The block a numeral stands for, if its value fits the block. */
  function DecodeBlock(s: string): (r: Option<seq<byte>>)
    requires |s| <= FULL_ENCODED_BLOCK_SIZE
    ensures r.Some? ==> |r.value| == DecodedBlockSize(|s|) > 0
  {
    var n := DecodedBlockSize(|s|);
    if n <= 0 || !AreSymbols(s) || Value(Numbers(s), 58) >= Pow(256, n) then None
    else Some(AsBytes(Digits(Value(Numbers(s), 58), 256, n)))
  }

  lemma BlockRoundTrip(block: seq<byte>)
    requires 1 <= |block| <= FULL_BLOCK_SIZE
    ensures DecodeBlock(EncodeBlock(block)) == Some(block)
  {
    hide Pow, Value, Digits, Letters, EncodedBlockSize, DecodedBlockSize;
    var n := |block|;
    var v := Value(block, 256);
    DigitsOfValue(block, 256);
    BlockFits(n);
    DecodedOfEncoded(n);
    ValueOfDigits(v, 58, EncodedBlockSize(n));
    NumbersOfLetters(Digits(v, 58, EncodedBlockSize(n)));
  }

  lemma BlockInverse(s: string)
    requires |s| <= FULL_ENCODED_BLOCK_SIZE && DecodeBlock(s).Some?
    ensures EncodeBlock(DecodeBlock(s).value) == s
  {
    hide Pow, Value, Digits, Letters, EncodedBlockSize, DecodedBlockSize;
    var n := DecodedBlockSize(|s|);
    var v := Value(Numbers(s), 58);
    ValueOfDigits(v, 256, n);
    DigitsOfValue(Numbers(s), 58);
    LettersOfNumbers(s);
  }

  /** Full blocks, then a shorter last one. */
  function Encode(data: seq<byte>): string {
    if data == [] then ""
    else if |data| < FULL_BLOCK_SIZE then EncodeBlock(data)
    else EncodeBlock(data[..FULL_BLOCK_SIZE]) + Encode(data[FULL_BLOCK_SIZE..])
  }

  function Decode(enc: string): Option<seq<byte>> {
    if enc == "" then Some([])
    else if |enc| < FULL_ENCODED_BLOCK_SIZE then DecodeBlock(enc)
    else
      var first := DecodeBlock(enc[..FULL_ENCODED_BLOCK_SIZE]);
      var rest := Decode(enc[FULL_ENCODED_BLOCK_SIZE..]);
      if first.Some? && rest.Some? then Some(first.value + rest.value) else None
  }

  /** Full blocks are encoded one after the other. */
  lemma {:induction false} EncodeConcat(a: seq<byte>, b: seq<byte>)
    requires |a| % FULL_BLOCK_SIZE == 0
    ensures Encode(a + b) == Encode(a) + Encode(b)
    decreases |a|
  {
    hide EncodeBlock;
    if a == [] {
      assert a + b == b;
    } else {
      var first, rest := a[..FULL_BLOCK_SIZE], a[FULL_BLOCK_SIZE..];
      assert (a + b)[..FULL_BLOCK_SIZE] == first && (a + b)[FULL_BLOCK_SIZE..] == rest + b;
      EncodeConcat(rest, b);
    }
  }

  /** Blocks of one and two bytes, digit by digit. */
  lemma ShortBlocks(x: byte, y: byte)
    ensures Encode([x]) == [Letter(x / 58), Letter(x % 58)]
    ensures var n := 256 * x + y; Encode([x, y]) == [Letter(n / 3364), Letter(n / 58 % 58), Letter(n % 58)]
  {
    hide Letter;
    var n := 256 * x + y;
    var v: seq<nat> := [x];
    assert v[..0] == [] && Value(v, 256) == x;
    var w: seq<nat> := [x, y];
    assert w[..1] == v && Value(w, 256) == n;
    assert Digits(x, 58, 2) == [x / 58, x % 58] by { TwoDigits(x); }
    assert Digits(n, 58, 3) == [n / 3364, n / 58 % 58, n % 58] by { TwoDigits(n / 58); }
  }

  lemma TwoDigits(n: nat)
    requires n < 58 * 58
    ensures Digits(n, 58, 2) == [n / 58, n % 58]
  {
    assert Digits(n / 58, 58, 1) == [n / 58];
  }

  lemma KnownLetters()
    ensures Letter(0) == '1' && Letter(4) == '5' && Letter(19) == 'L' && Letter(23) == 'Q'
    ensures Letter(24) == 'R' && Letter(27) == 'U' && Letter(53) == 'v' && Letter(57) == 'z'
  {
    hide Letter;
  }

  lemma KnownBlocks()
    ensures Encode([0xFF]) == "5Q" && Encode([0x39]) == "1z" && Encode([1, 0]) == "15R" && Encode([0xFF, 0xFF]) == "LUv"
  {
    hide Letter, Encode, Code;
    KnownLetters();
    ShortBlocks(0xFF, 0xFF);
    ShortBlocks(0x39, 0);
    ShortBlocks(1, 0);
  }

  /** Decoding undoes encoding, for every byte string. */
  lemma {:induction false} DecodeEncode(data: seq<byte>)
    ensures Decode(Encode(data)) == Some(data)
    decreases |data|
  {
    hide EncodeBlock, DecodeBlock;
    if data == [] {
    } else if |data| < FULL_BLOCK_SIZE {
      BlockRoundTrip(data);
    } else {
      var first, rest := data[..FULL_BLOCK_SIZE], data[FULL_BLOCK_SIZE..];
      BlockRoundTrip(first);
      DecodeEncode(rest);
      var enc := EncodeBlock(first) + Encode(rest);
      assert enc[..FULL_ENCODED_BLOCK_SIZE] == EncodeBlock(first);
      assert enc[FULL_ENCODED_BLOCK_SIZE..] == Encode(rest);
      assert first + rest == data;
    }
  }

  /** Encoding undoes decoding: a byte string has one accepted encoding only. */
  lemma {:induction false} EncodeDecode(enc: string)
    requires Decode(enc).Some?
    ensures Encode(Decode(enc).value) == enc
    decreases |enc|
  {
    hide EncodeBlock, DecodeBlock;
    if enc == "" {
    } else if |enc| < FULL_ENCODED_BLOCK_SIZE {
      BlockInverse(enc);
    } else {
      var head, tail := enc[..FULL_ENCODED_BLOCK_SIZE], enc[FULL_ENCODED_BLOCK_SIZE..];
      BlockInverse(head);
      EncodeDecode(tail);
      var data := DecodeBlock(head).value + Decode(tail).value;
      assert data[..FULL_BLOCK_SIZE] == DecodeBlock(head).value;
      assert data[FULL_BLOCK_SIZE..] == Decode(tail).value;
      assert head + tail == enc;
    }
  }
}
