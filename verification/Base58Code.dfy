/** The 64-bit code that encodes and decodes, and its lookup tables. */
module Base58Code {
  import opened Bytes
  import opened Base58

  //////////////////////////////////////////////////////////////////////////////
  // The tables
  //////////////////////////////////////////////////////////////////////////////

  const FIRST_CODE := 49
  const LAST_CODE := 122

  /** The digit of every character between the first and the last letter. */
  class ReverseAlphabet {
    const data: array<int>

    ghost predicate Valid()
      reads this, data
    {
      && data.Length == LAST_CODE - FIRST_CODE + 1
      && forall j :: 0 <= j < data.Length ==> data[j] == DigitOf((FIRST_CODE + j) as char)
    }

    constructor ()
      ensures Valid() && fresh(data)
    {
      data := new int[LAST_CODE - FIRST_CODE + 1](_ => -1);
      new;
      for i := 0 to ALPHABET_SIZE
        invariant forall j :: 0 <= j < data.Length ==>
          data[j] == if DigitOf((FIRST_CODE + j) as char) < i then DigitOf((FIRST_CODE + j) as char) else -1
      {
        data[Code(i) - FIRST_CODE] := i;
        DigitOfLetter(i);
      }
    }

    /** Characters outside the table wrap around to indices behind its end. */
    method Lookup(letter: char) returns (digit: int)
      requires Valid()
      ensures digit == DigitOf(letter)
    {
      var idx := Sub64(letter as int, FIRST_CODE);
      digit := if idx < data.Length then data[idx] else -1;
    }
  }

  /** The decoded size of every encoded size. */
  class DecodedBlockSizes {
    const data: array<int>

    ghost predicate Valid()
      reads this, data
    {
      && data.Length == FULL_ENCODED_BLOCK_SIZE + 1
      && forall e :: 0 <= e < data.Length ==> data[e] == DecodedBlockSize(e)
    }

    constructor ()
      ensures Valid() && fresh(data)
    {
      data := new int[FULL_ENCODED_BLOCK_SIZE + 1](_ => -1);
      new;
      for i := 0 to FULL_BLOCK_SIZE + 1
        invariant forall e :: 0 <= e < data.Length ==>
          data[e] == if DecodedBlockSize(e) < i then DecodedBlockSize(e) else -1
      {
        data[EncodedBlockSize(i)] := i;
        DecodedOfEncoded(i);
      }
    }
  }

  //////////////////////////////////////////////////////////////////////////////
  // Blocks
  //////////////////////////////////////////////////////////////////////////////

  /** Reads up to eight bytes, most significant first; no shift loses a bit. */
  method Uint8beTo64(data: seq<byte>) returns (res: nat)
    requires 1 <= |data| <= FULL_BLOCK_SIZE
    ensures res == Value(data, 256) < Pow(256, |data|)
  {
    hide Value, Pow;
    res := 0;
    ValueEmpty(256);
    for i := 0 to |data|
      invariant res == Value(data[..i], 256)
    {
      ValueAppend(data[..i], data[i], 256);
      assert data[..i + 1] == data[..i] + [data[i]];
      ShiftFits(data[..i]);
      res := res * 256 % TWO_TO_THE_64 + data[i];
    }
    assert data[..|data|] == data;
    DigitsOfValue(data, 256);
  }

  lemma ValueEmpty(b: nat)
    ensures Value([], b) == 0
  {
  }

  /** Seven bytes shifted left by eight bits still fit 64 bits. */
  lemma ShiftFits(s: seq<byte>)
    requires |s| < FULL_BLOCK_SIZE
    ensures Value(s, 256) * 256 < TWO_TO_THE_64
  {
    hide Value, Pow;
    DigitsOfValue(s, 256);
    PowMonotone(256, |s|, 7);
    PowSeven();
  }

  lemma PowSeven()
    ensures Pow(256, 7) == 0x100_0000_0000_0000
  {
  }

  lemma {:induction false} PowMonotone(b: nat, j: nat, k: nat)
    requires b >= 1 && j <= k
    ensures Pow(b, j) <= Pow(b, k)
    decreases k
  {
    if j < k {
      PowMonotone(b, j, k - 1);
      MulStep(Pow(b, k - 1), 1, b);
    }
  }

  lemma {:induction false} DigitsOfZero(b: nat, w: nat)
    requires b >= 2
    ensures forall i :: 0 <= i < w ==> Digits(0, b, w)[i] == 0
    decreases w
  {
    if w > 0 {
      DigitsOfZero(b, w - 1);
    }
  }

  /** The digit that is written next, and what the remaining digits are. */
  lemma DigitStep(d: seq<nat>, num: nat, i: nat)
    requires i < |d| && num < Pow(58, i + 1) && d[..i + 1] == Digits(num, 58, i + 1)
    ensures d[i] == num % 58 && d[..i] == Digits(num / 58, 58, i) && num / 58 < Pow(58, i)
  {
    assert d[i] == d[..i + 1][i];
    assert d[..i] == d[..i + 1][..i];
    QuotientBelow(num, 58, Pow(58, i));
  }

  /**
   Writes the numeral of a block from the right; what it leaves untouched is already the
   digit zero.  It never runs past the left edge of its field.
   */
  method EncodeBlockAt(block: seq<byte>, res: array<char>, at: nat)
    requires 1 <= |block| <= FULL_BLOCK_SIZE && at + EncodedBlockSize(|block|) <= res.Length
    requires forall j :: at <= j < at + EncodedBlockSize(|block|) ==> res[j] == Letter(0)
    modifies res
    ensures res[at..at + EncodedBlockSize(|block|)] == EncodeBlock(block)
    ensures forall j :: 0 <= j < res.Length && !(at <= j < at + EncodedBlockSize(|block|)) ==> res[j] == old(res[j])
  {
    hide Value, Pow, Digits, EncodedBlockSize, Letter;
    var size := EncodedBlockSize(|block|);
    var num: nat := Uint8beTo64(block);
    ghost var d := Digits(num, 58, size);
    BlockFits(|block|);
    var i: int := size - 1;
    while 0 < num
      invariant -1 <= i < size && num < Pow(58, i + 1)
      invariant d[..i + 1] == Digits(num, 58, i + 1)
      invariant forall j :: at <= j <= at + i ==> res[j] == Letter(0)
      invariant forall j :: at + i < j < at + size ==> res[j] == Letter(d[j - at])
      invariant forall j :: 0 <= j < res.Length && !(at <= j < at + size) ==> res[j] == old(res[j])
      decreases num
    {
      PowZero(58);
      DigitStep(d, num, i);
      var remainder := num % ALPHABET_SIZE;
      num := num / ALPHABET_SIZE;
      res[at + i] := Letter(remainder);
      i := i - 1;
    }
    DigitsOfZero(58, i + 1);
    forall j | at <= j < at + size ensures res[j] == Letter(d[j - at]) {
      if j <= at + i {
        assert d[j - at] == d[..i + 1][j - at];
      }
    }
    assert res[at..at + size] == Letters(d);
  }

  lemma PowZero(b: nat)
    ensures Pow(b, 0) == 1
  {
  }

  /** The product of two 64-bit numbers, as a low and a high half. */
  function Mul128(a: nat, b: nat): (r: (nat, nat))
    ensures r.0 < TWO_TO_THE_64 && a * b == r.0 + TWO_TO_THE_64 * r.1
  {
    (a * b % TWO_TO_THE_64, a * b / TWO_TO_THE_64)
  }

  /** One round of the decoding loop: `res + order * digit`, or `None` exactly on 64-bit overflow. */
  function AddDigit(res: nat, order: nat, digit: nat): (r: Option<nat>)
    requires res < TWO_TO_THE_64
    ensures r == if res + order * digit < TWO_TO_THE_64 then Some(res + order * digit) else None
  {
    var (low, high) := Mul128(order, digit);
    var tmp := (res + low) % TWO_TO_THE_64;
    if tmp < res || 0 != high then None else Some(tmp)
  }

  /** The numbers of a suffix, one character longer. */
  lemma NumbersPrepend(s: string, i: nat)
    requires i < |s| && DigitOf(s[i]) >= 0 && AreSymbols(s[i + 1..])
    ensures AreSymbols(s[i..])
    ensures Value(Numbers(s[i..]), 58)
         == Value(Numbers(s[i + 1..]), 58) + Pow(58, |s| - i - 1) * DigitOf(s[i])
  {
    hide Value, Pow, DigitOf;
    var t, u := s[i..], s[i + 1..];
    forall j | 0 <= j < |t| ensures DigitOf(t[j]) >= 0 {
      if j > 0 {
        assert t[j] == u[j - 1];
      }
    }
    assert Numbers(t) == [DigitOf(s[i])] + Numbers(u);
    ValuePrepend(DigitOf(s[i]), Numbers(u), 58);
  }

  lemma NumbersSuffix(s: string, i: nat)
    requires AreSymbols(s) && i <= |s|
    ensures AreSymbols(s[i..]) && Value(Numbers(s), 58) >= Value(Numbers(s[i..]), 58)
  {
    hide Value, DigitOf;
    assert Numbers(s[i..]) == Numbers(s)[i..];
    ValueSuffix(Numbers(s), i, 58);
  }

  lemma PowTen()
    ensures Pow(58, 10) == 430_804_206_899_405_824
  {
  }

  /**
   58^10 is below 2^64, so the places of an eleven-character block are exact; `order` wraps
   at the eleventh power only, which is not used any more.
   */
  lemma OrderExact(order: nat, k: nat)
    requires k <= 10 && order == Pow(58, k) % TWO_TO_THE_64
    ensures order == Pow(58, k) && order * 58 % TWO_TO_THE_64 == Pow(58, k + 1) % TWO_TO_THE_64
  {
    PowMonotone(58, k, 10);
    PowTen();
  }

  /** The value of the characters from `i` on. */
  ghost function SuffixValue(block: string, i: nat): nat
    requires i <= |block| && AreSymbols(block[i..])
  {
    Value(Numbers(block[i..]), 58)
  }

  /** One round of the decoding loop, in exact numbers. */
  lemma DecodeStep(block: string, i: nat, order: nat)
    requires i < |block| <= FULL_ENCODED_BLOCK_SIZE && DigitOf(block[i]) >= 0 && AreSymbols(block[i + 1..])
    requires order == Pow(58, |block| - i - 1) % TWO_TO_THE_64
    ensures AreSymbols(block[i..])
    ensures SuffixValue(block, i) == SuffixValue(block, i + 1) + order * DigitOf(block[i])
    ensures order * 58 % TWO_TO_THE_64 == Pow(58, |block| - i) % TWO_TO_THE_64
    ensures AreSymbols(block) ==> Value(Numbers(block), 58) >= SuffixValue(block, i)
  {
    hide Value, Pow, DigitOf, Numbers, AreSymbols;
    NumbersPrepend(block, i);
    OrderExact(order, |block| - i - 1);
    if AreSymbols(block) {
      NumbersSuffix(block, i);
    }
  }

  /**
   The value of a numeral, from its last character to its first, or `None`: exactly when a
   character is no symbol or the value does not fit 64 bits.
   */
  method DecodeNumber(block: string, reverse: ReverseAlphabet) returns (r: Option<nat>)
    requires |block| <= FULL_ENCODED_BLOCK_SIZE && reverse.Valid()
    ensures r == if AreSymbols(block) && Value(Numbers(block), 58) < TWO_TO_THE_64
                 then Some(Value(Numbers(block), 58)) else None
  {
    hide Value, Pow, DigitOf, Numbers, AddDigit, SuffixValue;
    var resNum, order := 0, 1;
    var i := |block|;
    NoNumbers(block, i);
    PowZero(58);
    while i > 0
      invariant 0 <= i <= |block| && AreSymbols(block[i..])
      invariant resNum == SuffixValue(block, i) < TWO_TO_THE_64
      invariant order == Pow(58, |block| - i) % TWO_TO_THE_64
    {
      i := i - 1;
      var digit := reverse.Lookup(block[i]);
      if digit < 0 {
        return None;
      }
      DecodeStep(block, i, order);
      var tmp := AddDigit(resNum, order, digit);
      if tmp == None {
        return None;
      }
      resNum := tmp.value;
      order := order * ALPHABET_SIZE % TWO_TO_THE_64;
    }
    WholeValue(block);
    r := Some(resNum);
  }

  lemma WholeValue(block: string)
    requires AreSymbols(block[0..])
    ensures AreSymbols(block) && SuffixValue(block, 0) == Value(Numbers(block), 58)
  {
    assert block[0..] == block;
  }

  lemma NoNumbers(s: string, i: nat)
    requires i == |s|
    ensures AreSymbols(s[i..]) && SuffixValue(s, i) == 0
  {
    assert Numbers(s[i..]) == [];
  }

  /** The low bytes of a 64-bit number, most significant first. */
  method Uint64To8be(num: nat, size: nat) returns (data: seq<byte>)
    requires 1 <= size <= FULL_BLOCK_SIZE && num < TWO_TO_THE_64
    ensures data == Digits(num, 256, size)
  {
    var numBe := AsBytes(Digits(num, 256, FULL_BLOCK_SIZE));
    data := numBe[FULL_BLOCK_SIZE - size..];
    DigitsSuffix(num, 256, FULL_BLOCK_SIZE, size);
  }

  /** Decodes one block; its two overflow tests are exact. */
  method DecodeBlockCode(block: string, reverse: ReverseAlphabet, sizes: DecodedBlockSizes) returns (r: Option<seq<byte>>)
    requires 1 <= |block| <= FULL_ENCODED_BLOCK_SIZE && reverse.Valid() && sizes.Valid()
    ensures r == DecodeBlock(block)
  {
    hide Value, Pow, Numbers, Digits, AreSymbols;
    var resSize := sizes.data[|block|];
    if resSize <= 0 {
      return None;
    }
    BlockFits(resSize);
    var resNum := DecodeNumber(block, reverse);
    if resNum == None {
      return None;
    }
    if resSize < FULL_BLOCK_SIZE && Pow(256, resSize) <= resNum.value {
      return None;
    }
    var data := Uint64To8be(resNum.value, resSize);
    r := Some(data);
  }

  //////////////////////////////////////////////////////////////////////////////
  // Whole strings
  //////////////////////////////////////////////////////////////////////////////

  /** One more full block of an encoding. */
  lemma EncodeNext(data: seq<byte>, at: nat)
    requires at + FULL_BLOCK_SIZE <= |data|
    ensures Encode(data[at..]) == EncodeBlock(data[at..at + FULL_BLOCK_SIZE]) + Encode(data[at + FULL_BLOCK_SIZE..])
  {
    hide EncodeBlock;
    assert data[at..][..FULL_BLOCK_SIZE] == data[at..at + FULL_BLOCK_SIZE];
    assert data[at..][FULL_BLOCK_SIZE..] == data[at + FULL_BLOCK_SIZE..];
  }

  /** Encodes a block of `data` into the field of `res` behind `done`, which holds zeros so far. */
  method EncodeNextBlock(data: seq<byte>, at: nat, size: nat, res: array<char>, done: nat)
    requires 1 <= size <= FULL_BLOCK_SIZE && at + size <= |data| && done + EncodedBlockSize(size) <= res.Length
    requires forall j :: done <= j < res.Length ==> res[j] == Letter(0)
    modifies res
    ensures res[..done + EncodedBlockSize(size)] == old(res[..done]) + EncodeBlock(data[at..at + size])
    ensures forall j :: done + EncodedBlockSize(size) <= j < res.Length ==> res[j] == Letter(0)
  {
    hide EncodeBlock, EncodedBlockSize, Letter;
    EncodeBlockAt(data[at..at + size], res, done);
    var end := done + EncodedBlockSize(size);
    assert res[..done] == old(res[..done]);
    assert res[..end] == res[..done] + res[done..end];
  }

  /** The last block of an encoding, or none. */
  lemma EncodeLast(data: seq<byte>, at: nat)
    requires at <= |data| < at + FULL_BLOCK_SIZE
    ensures Encode(data[at..]) == if at == |data| then "" else EncodeBlock(data[at..])
  {
  }

  /** The full blocks of `data`, from the front of `res`. */
  method EncodeFullBlocks(data: seq<byte>, res: array<char>, fullBlockCount: nat)
    requires fullBlockCount * FULL_BLOCK_SIZE <= |data| && fullBlockCount * FULL_ENCODED_BLOCK_SIZE <= res.Length
    requires forall j :: 0 <= j < res.Length ==> res[j] == Letter(0)
    modifies res
    ensures res[..11 * fullBlockCount] + Encode(data[8 * fullBlockCount..]) == Encode(data)
    ensures forall j :: 11 * fullBlockCount <= j < res.Length ==> res[j] == Letter(0)
  {
    hide EncodeBlock, EncodedBlockSize, Letter, Encode;
    FullBlock();
    assert data[0..] == data;
    for i := 0 to fullBlockCount
      invariant res[..11 * i] + Encode(data[8 * i..]) == Encode(data)
      invariant forall j :: 11 * i <= j < res.Length ==> res[j] == Letter(0)
    {
      EncodeNext(data, 8 * i);
      ghost var front := res[..11 * i];
      EncodeNextBlock(data, 8 * i, FULL_BLOCK_SIZE, res, 11 * i);
      ghost var block, rest := EncodeBlock(data[8 * i..8 * i + 8]), Encode(data[8 * (i + 1)..]);
      assert front + (block + rest) == (front + block) + rest;
    }
  }

  method EncodeCode(data: seq<byte>) returns (r: string)
    ensures r == Encode(data)
  {
    if data == [] {
      return "";
    }
    hide EncodeBlock, EncodedBlockSize, Letter, Encode;
    var fullBlockCount := |data| / FULL_BLOCK_SIZE;
    var lastBlockSize := |data| % FULL_BLOCK_SIZE;
    FullBlock();
    var resSize := fullBlockCount * FULL_ENCODED_BLOCK_SIZE + EncodedBlockSize(lastBlockSize);
    var res := new char[resSize](_ => Letter(0));
    EncodeFullBlocks(data, res, fullBlockCount);
    var at, done := 8 * fullBlockCount, 11 * fullBlockCount;
    assert data[at..at + lastBlockSize] == data[at..];
    EncodeLast(data, at);
    if 0 < lastBlockSize {
      EncodeNextBlock(data, at, lastBlockSize, res, done);
    }
    r := res[..];
    assert r == res[..resSize];
  }

  lemma FullBlock()
    ensures EncodedBlockSize(FULL_BLOCK_SIZE) == FULL_ENCODED_BLOCK_SIZE && EncodedBlockSize(0) == 0
    ensures DecodedBlockSize(FULL_ENCODED_BLOCK_SIZE) == FULL_BLOCK_SIZE && DecodedBlockSize(0) == 0
  {
  }

  /** A string whose last block has no valid size is rejected as a whole. */
  lemma {:induction false} BadLength(enc: string)
    requires DecodedBlockSize(|enc| % FULL_ENCODED_BLOCK_SIZE) < 0
    ensures Decode(enc) == None
    decreases |enc|
  {
    hide DecodeBlock;
    if |enc| < FULL_ENCODED_BLOCK_SIZE {
      NoBlock(enc);
    } else {
      BadLength(enc[FULL_ENCODED_BLOCK_SIZE..]);
    }
  }

  lemma NoBlock(enc: string)
    requires |enc| <= FULL_ENCODED_BLOCK_SIZE && DecodedBlockSize(|enc|) < 0
    ensures DecodeBlock(enc) == None
  {
  }

  /** What is decoded so far, and what the rest has to give. */
  ghost predicate DecodedTo(enc: string, data: seq<byte>, at: nat)
    requires at <= |enc|
  {
    var rest := Decode(enc[at..]);
    Decode(enc) == if rest.Some? then Some(data + rest.value) else None
  }

  lemma DecodeNext(enc: string, data: seq<byte>, at: nat)
    requires at + FULL_ENCODED_BLOCK_SIZE <= |enc| && DecodedTo(enc, data, at)
    ensures var block := DecodeBlock(enc[at..at + FULL_ENCODED_BLOCK_SIZE]);
            if block.Some? then DecodedTo(enc, data + block.value, at + FULL_ENCODED_BLOCK_SIZE)
            else Decode(enc) == None
  {
    hide DecodeBlock;
    var s := enc[at..];
    assert s[..FULL_ENCODED_BLOCK_SIZE] == enc[at..at + FULL_ENCODED_BLOCK_SIZE];
    assert s[FULL_ENCODED_BLOCK_SIZE..] == enc[at + FULL_ENCODED_BLOCK_SIZE..];
    var block, rest := DecodeBlock(s[..FULL_ENCODED_BLOCK_SIZE]), Decode(s[FULL_ENCODED_BLOCK_SIZE..]);
    if block.Some? && rest.Some? {
      assert data + (block.value + rest.value) == data + block.value + rest.value;
    }
  }

  lemma DecodeStart(enc: string)
    ensures DecodedTo(enc, [], 0)
  {
    assert enc[0..] == enc;
    if Decode(enc).Some? {
      assert [] + Decode(enc).value == Decode(enc).value;
    }
  }

  /** The last block, or none. */
  lemma DecodeLast(enc: string, data: seq<byte>, at: nat)
    requires at <= |enc| < at + FULL_ENCODED_BLOCK_SIZE && DecodedTo(enc, data, at)
    ensures at == |enc| ==> Decode(enc) == Some(data)
    ensures at < |enc| ==>
              var block := DecodeBlock(enc[at..]);
              Decode(enc) == if block.Some? then Some(data + block.value) else None
  {
    hide DecodeBlock;
    if at == |enc| {
      assert data + [] == data;
    }
  }

  method DecodeCode(enc: string, reverse: ReverseAlphabet, sizes: DecodedBlockSizes) returns (r: Option<seq<byte>>)
    requires reverse.Valid() && sizes.Valid()
    ensures r == Decode(enc)
  {
    hide DecodeBlock, DecodedBlockSize;
    if enc == "" {
      return Some([]);
    }
    var fullBlockCount := |enc| / FULL_ENCODED_BLOCK_SIZE;
    var lastBlockSize := |enc| % FULL_ENCODED_BLOCK_SIZE;
    if sizes.data[lastBlockSize] < 0 {
      BadLength(enc);
      return None;
    }
    var data := [];
    DecodeStart(enc);
    for i := 0 to fullBlockCount
      invariant DecodedTo(enc, data, 11 * i)
    {
      DecodeNext(enc, data, 11 * i);
      var block := DecodeBlockCode(enc[11 * i..11 * i + FULL_ENCODED_BLOCK_SIZE], reverse, sizes);
      if block == None {
        return None;
      }
      data := data + block.value;
    }
    DecodeLast(enc, data, 11 * fullBlockCount);
    if 0 < lastBlockSize {
      var block := DecodeBlockCode(enc[11 * fullBlockCount..], reverse, sizes);
      if block == None {
        return None;
      }
      data := data + block.value;
    }
    r := Some(data);
  }
}
