/**
 Where the decoder accepts more than the format allows.

 The format stores a literal's length minus one in up to four bytes.  The decoder adds the one
 back in 32 bits, so that the largest stored length denotes an empty literal to it, while by the
 format it denotes 2^32 bytes, which no stream can hold, as its header cannot announce them.
 */
module StrictFormat {
  import opened Bytes
  import opened SnappyFormat

  /** The tag whose length wraps around. */
  predicate IsWrappingTag(s: seq<byte>) {
    |s| >= 5 && s[0] == 0xFC && s[1] == 0xFF && s[2] == 0xFF && s[3] == 0xFF && s[4] == 0xFF
  }

  /** The tag at the front of `s` by the letter of the format, without wrap-around. */
  function StrictTagOf(s: seq<byte>): Tag
    requires s != [] && 1 + ExtraBytes(s[0]) <= |s|
  {
    var x := LittleEndian(s[1..1 + ExtraBytes(s[0])]);
    if s[0] % 4 == LITERAL && s[0] / 4 >= 60 then LiteralTag(x + 1) else TagFrom(s[0], x)
  }

  function StrictRunTags(s: seq<byte>, out: seq<byte>): (r: Option<seq<byte>>)
    ensures r.Some? ==> |out| <= |r.value|
    decreases |s|
  {
    if s == [] then Some(out)
    else
      var n := 1 + ExtraBytes(s[0]);
      if |s| < n then None
      else
        match RunTag(s, n, StrictTagOf(s), out)
        case None => None
        case Some(e) => StrictRunTags(s[e.taken..], e.out)
  }

  /** The bytes a stream stands for by the letter of the format. */
  function StrictDecode(s: seq<byte>): Option<seq<byte>> {
    if HasHeader(s) then
      var r := StrictRunTags(s[VarintLength(s)..], []);
      if r.Some? && |r.value| == VarintValue(s) then r else None
    else None
  }

  /** Whether an element of the stream has the wrapping tag; an element is skipped by its own length. */
  predicate HasWrappingTag(s: seq<byte>)
    decreases |s|
  {
    && s != []
    && var n := 1 + ExtraBytes(s[0]);
       && n <= |s|
       && (|| IsWrappingTag(s)
           || match TagOf(s)
              case LiteralTag(len) => n + len <= |s| && HasWrappingTag(s[n + len..])
              case CopyTag(_, _) => HasWrappingTag(s[n..]))
  }

  /** The two readings of a tag differ only for that one. */
  lemma TagsAgree(s: seq<byte>)
    requires s != [] && 1 + ExtraBytes(s[0]) <= |s|
    ensures IsWrappingTag(s) ==> StrictTagOf(s) == LiteralTag(TWO_TO_THE_32)
    ensures !IsWrappingTag(s) ==> StrictTagOf(s) == TagOf(s)
  {
    var c := s[0];
    if c % 4 == LITERAL && c / 4 >= 60 {
      var n := 1 + ExtraBytes(c);
      var bytes := s[1..n];
      LargestNumber(bytes);
    }
  }

  /** Four bytes make 2^32 - 1 only if all of them are 0xFF, and fewer never do. */
  lemma LargestNumber(s: seq<byte>)
    requires |s| <= 4
    ensures LittleEndian(s) < TWO_TO_THE_32
    ensures LittleEndian(s) == TWO_TO_THE_32 - 1 <==> s == [0xFF, 0xFF, 0xFF, 0xFF]
  {
  }

  /** Without that tag both readings come to the same; with it the strict one comes to nothing, or too much. */
  lemma {:induction false} StrictRuns(s: seq<byte>, out: seq<byte>)
    ensures !HasWrappingTag(s) ==> StrictRunTags(s, out) == RunTags(s, out)
    ensures HasWrappingTag(s) && StrictRunTags(s, out).Some? ==> |StrictRunTags(s, out).value| >= TWO_TO_THE_32
    decreases |s|
  {
    hide TagOf, StrictTagOf, ExtraBytes, CopyFromSelf, IsWrappingTag;
    if s != [] && 1 + ExtraBytes(s[0]) <= |s| {
      var n := 1 + ExtraBytes(s[0]);
      TagsAgree(s);
      var e := RunTag(s, n, StrictTagOf(s), out);
      if e.Some? && !IsWrappingTag(s) {
        StrictRuns(s[e.value.taken..], e.value.out);
      }
    }
  }

  /**
   Exactly how the decoder and the letter of the format differ: the format rejects the streams that
   have the wrapping tag, and agrees on all others.  So whatever the decoder rejects the format rejects,
   and an accepted stream means the same to both if and only if no element of it has that tag.
   */
  lemma StrictDecodes(s: seq<byte>)
    ensures StrictDecode(s) == if HasHeader(s) && HasWrappingTag(s[VarintLength(s)..]) then None else Decode(s)
    ensures Decode(s).None? ==> StrictDecode(s).None?
    ensures Decode(s).Some? ==> (StrictDecode(s) == Decode(s) <==> !HasWrappingTag(s[VarintLength(s)..]))
  {
    hide RunTags, StrictRunTags, HasWrappingTag, VarintLength, VarintValue;
    if HasHeader(s) {
      StrictRuns(s[VarintLength(s)..], []);
    }
  }

  /** A complete tag is the same whatever follows. */
  lemma TagConcat(a: seq<byte>, b: seq<byte>)
    requires a != [] && 1 + ExtraBytes(a[0]) <= |a|
    ensures TagOf(a + b) == TagOf(a) && IsWrappingTag(a + b) == IsWrappingTag(a)
  {
    hide TagFrom, LittleEndian;
    var n := 1 + ExtraBytes(a[0]);
    assert (a + b)[1..n] == a[1..n];
  }

  /** Stringing runs of tags together adds no wrapping tag. */
  lemma {:induction false} NoWrapConcat(a: seq<byte>, b: seq<byte>, out: seq<byte>)
    requires RunTags(a, out).Some? && !HasWrappingTag(a) && !HasWrappingTag(b)
    ensures !HasWrappingTag(a + b)
    decreases |a|
  {
    hide CopyFromSelf, TagOf, ExtraBytes, IsWrappingTag;
    if a == [] {
      assert a + b == b;
    } else {
      TagConcat(a, b);
      var e := RunOne(a, out).value;
      assert (a + b)[e.taken..] == a[e.taken..] + b;
      NoWrapConcat(a[e.taken..], b, e.out);
    }
  }

  /** A stream the decoder takes for an empty one and the format rejects. */
  lemma WrappingStream(s: seq<byte>)
    requires s == [0, 0xFC, 0xFF, 0xFF, 0xFF, 0xFF]
    ensures Decode(s) == Some([]) && StrictDecode(s) == None
  {
    assert VarintLength(s) == 1 && VarintValue(s) == 0;
    var body := s[1..];
    assert IsWrappingTag(body);
    assert body[1..5] == [0xFF, 0xFF, 0xFF, 0xFF];
    assert TagOf(body) == LiteralTag(0);
    assert RunOne(body, []) == Some(Effect(5, [])) by { assert body[5..5] == []; }
    assert body[5..] == [];
    assert RunTags(body, []) == Some([]);
    assert HasWrappingTag(body);
    StrictDecodes(s);
  }
}
