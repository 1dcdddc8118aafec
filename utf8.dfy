/** Well-formed UTF-8, as the syntax of section 4 of RFC 3629 defines it; this is
    what Go's `utf8.Valid` accepts. The partner definitions encode Unicode scalar
    values (the table of section 3 of RFC 3629), and the lemmas show that the
    well-formed byte sequences are exactly the encodings of scalar sequences. */
module Utf8 {
  import opened Numerics

  /** UTF8-tail = %x80-BF */
  predicate IsTail(b: byte) {
    0x80 <= b <= 0xBF
  }

  /** The length of the UTF8-char that starts `s`, or 0 when no UTF8-char does. */
  function CharLength(s: seq<byte>): (n: nat)
    ensures n <= 4 && n <= |s|
  {
    if |s| == 0 then 0
    else
      var b := s[0];
      if b <= 0x7F then 1
      else if 0xC2 <= b <= 0xDF then
        if |s| >= 2 && IsTail(s[1]) then 2 else 0
      else if b == 0xE0 then
        if |s| >= 3 && 0xA0 <= s[1] <= 0xBF && IsTail(s[2]) then 3 else 0
      else if (0xE1 <= b <= 0xEC) || (0xEE <= b <= 0xEF) then
        if |s| >= 3 && IsTail(s[1]) && IsTail(s[2]) then 3 else 0
      else if b == 0xED then
        if |s| >= 3 && 0x80 <= s[1] <= 0x9F && IsTail(s[2]) then 3 else 0
      else if b == 0xF0 then
        if |s| >= 4 && 0x90 <= s[1] <= 0xBF && IsTail(s[2]) && IsTail(s[3]) then 4 else 0
      else if 0xF1 <= b <= 0xF3 then
        if |s| >= 4 && IsTail(s[1]) && IsTail(s[2]) && IsTail(s[3]) then 4 else 0
      else if b == 0xF4 then
        if |s| >= 4 && 0x80 <= s[1] <= 0x8F && IsTail(s[2]) && IsTail(s[3]) then 4 else 0
      else 0
  }

  /** UTF8-octets = *( UTF8-char ) */
  predicate ValidUtf8(s: seq<byte>)
    decreases |s|
  {
    s == [] || (CharLength(s) > 0 && ValidUtf8(s[CharLength(s)..]))
  }

  /** A Unicode scalar value: a code point that is not a surrogate. */
  predicate IsScalar(c: int) {
    0 <= c <= 0x10FFFF && !(0xD800 <= c <= 0xDFFF)
  }

  predicate AllScalars(cs: seq<int>) {
    forall i :: 0 <= i < |cs| ==> IsScalar(cs[i])
  }

  /** The UTF-8 encoding of one scalar value (section 3 of RFC 3629). */
  function EncodeScalar(c: int): (r: seq<byte>)
    requires IsScalar(c)
    ensures 1 <= |r| <= 4
  {
    if c < 0x80 then [c]
    else if c < 0x800 then [0xC0 + c / 64, 0x80 + c % 64]
    else if c < 0x1_0000 then [0xE0 + c / 4096, 0x80 + (c / 64) % 64, 0x80 + c % 64]
    else [0xF0 + c / 262144, 0x80 + (c / 4096) % 64, 0x80 + (c / 64) % 64, 0x80 + c % 64]
  }

  function EncodeScalars(cs: seq<int>): seq<byte>
    requires AllScalars(cs)
  {
    if cs == [] then [] else EncodeScalar(cs[0]) + EncodeScalars(cs[1..])
  }

  /** The scalar value of the UTF8-char that starts `s`. */
  function DecodeChar(s: seq<byte>): int
    requires CharLength(s) > 0
  {
    var n := CharLength(s);
    if n == 1 then s[0] as int
    else if n == 2 then Group(s[0] as int - 0xC0, s[1] as int - 0x80)
    else if n == 3 then Group(Group(s[0] as int - 0xE0, s[1] as int - 0x80), s[2] as int - 0x80)
    else Group(Group(Group(s[0] as int - 0xF0, s[1] as int - 0x80), s[2] as int - 0x80), s[3] as int - 0x80)
  }

  /** Appends six payload bits `low` to `high`. */
  function Group(high: int, low: int): int {
    high * 64 + low
  }

  lemma GroupSplits(high: int, low: int)
    requires 0 <= low < 64
    ensures Group(high, low) / 64 == high && Group(high, low) % 64 == low
  {
  }

  function DecodeScalars(s: seq<byte>): seq<int>
    requires ValidUtf8(s)
    decreases |s|
  {
    if s == [] then [] else [DecodeChar(s)] + DecodeScalars(s[CharLength(s)..])
  }

  /** An encoded scalar value is one UTF8-char, whatever follows it. */
  lemma EncodedScalarIsChar(c: int, rest: seq<byte>)
    requires IsScalar(c)
    ensures CharLength(EncodeScalar(c) + rest) == |EncodeScalar(c)|
  {
  }

  /** Decoding a UTF8-char yields a scalar value that encodes back to that char. */
  lemma DecodedCharIsScalar(s: seq<byte>)
    requires CharLength(s) > 0
    ensures IsScalar(DecodeChar(s))
    ensures EncodeScalar(DecodeChar(s)) == s[..CharLength(s)]
  {
    var n := CharLength(s);
    if n == 2 {
      DecodedTwoBytes(s);
    } else if n == 3 {
      DecodedThreeBytes(s);
    } else if n == 4 {
      DecodedFourBytes(s);
    }
  }

  lemma DecodedTwoBytes(s: seq<byte>)
    requires CharLength(s) == 2
    ensures IsScalar(DecodeChar(s)) && EncodeScalar(DecodeChar(s)) == s[..2]
  {
    GroupSplits(s[0] as int - 0xC0, s[1] as int - 0x80);
  }

  lemma DecodedThreeBytes(s: seq<byte>)
    requires CharLength(s) == 3
    ensures IsScalar(DecodeChar(s)) && EncodeScalar(DecodeChar(s)) == s[..3]
  {
    var g1 := Group(s[0] as int - 0xE0, s[1] as int - 0x80);
    var c := Group(g1, s[2] as int - 0x80);
    GroupSplits(s[0] as int - 0xE0, s[1] as int - 0x80);
    GroupSplits(g1, s[2] as int - 0x80);
    assert c == DecodeChar(s);
    assert c / 4096 == g1 / 64;
    assert EncodeScalar(c) == [s[0], s[1], s[2]];
  }

  lemma DecodedFourBytes(s: seq<byte>)
    requires CharLength(s) == 4
    ensures IsScalar(DecodeChar(s)) && EncodeScalar(DecodeChar(s)) == s[..4]
  {
    var g1 := Group(s[0] as int - 0xF0, s[1] as int - 0x80);
    var g2 := Group(g1, s[2] as int - 0x80);
    var c := Group(g2, s[3] as int - 0x80);
    GroupSplits(s[0] as int - 0xF0, s[1] as int - 0x80);
    GroupSplits(g1, s[2] as int - 0x80);
    GroupSplits(g2, s[3] as int - 0x80);
    assert c == DecodeChar(s);
    assert c / 4096 == g2 / 64;
    assert c / 262144 == g1 / 64;
    assert EncodeScalar(c) == [s[0], s[1], s[2], s[3]];
  }

  /** Every sequence of scalar values encodes to well-formed UTF-8. */
  lemma {:induction false} EncodingIsValid(cs: seq<int>)
    requires AllScalars(cs)
    ensures ValidUtf8(EncodeScalars(cs))
  {
    if cs != [] {
      var e, rest := EncodeScalar(cs[0]), EncodeScalars(cs[1..]);
      EncodedScalarIsChar(cs[0], rest);
      assert (e + rest)[|e|..] == rest;
      EncodingIsValid(cs[1..]);
    }
  }

  /** Every well-formed UTF-8 sequence is the encoding of the scalar values it decodes to. */
  lemma {:induction false} ValidIsEncoding(s: seq<byte>)
    requires ValidUtf8(s)
    ensures AllScalars(DecodeScalars(s))
    ensures EncodeScalars(DecodeScalars(s)) == s
  {
    if s != [] {
      var rest := s[CharLength(s)..];
      ValidIsEncoding(rest);
      DecodedCharSplits(s);
      ScalarsCons(DecodeChar(s), DecodeScalars(rest));
    }
  }

  /** A sequence that starts with a UTF8-char is that char's scalar value encoded,
      followed by the rest. */
  lemma DecodedCharSplits(s: seq<byte>)
    requires CharLength(s) > 0
    ensures IsScalar(DecodeChar(s))
    ensures s == EncodeScalar(DecodeChar(s)) + s[CharLength(s)..]
  {
    DecodedCharIsScalar(s);
    assert s == s[..CharLength(s)] + s[CharLength(s)..];
  }

  /** Encoding a scalar value in front of a sequence encodes it in front. */
  lemma ScalarsCons(c: int, cs: seq<int>)
    requires IsScalar(c) && AllScalars(cs)
    ensures AllScalars([c] + cs) && EncodeScalars([c] + cs) == EncodeScalar(c) + EncodeScalars(cs)
  {
    assert ([c] + cs)[1..] == cs;
  }

  /** Well-formedness in one sentence: a byte sequence is well-formed UTF-8 exactly
      when it is the encoding of some sequence of Unicode scalar values. */
  lemma ValidUtf8Characterised(s: seq<byte>)
    ensures ValidUtf8(s) <==> exists cs :: AllScalars(cs) && EncodeScalars(cs) == s
  {
    if ValidUtf8(s) {
      ValidIsEncoding(s);
    }
    if exists cs :: AllScalars(cs) && EncodeScalars(cs) == s {
      var cs :| AllScalars(cs) && EncodeScalars(cs) == s;
      EncodingIsValid(cs);
    }
  }
}
