/** The array vector of protobuf_test.go: `[1, "hello", [1, 2, 3]]` and the 17 bytes
    `0801120568656c6c6f1a06080110021803` it encodes to. */
module Vectors {
  import opened Numerics
  import opened Wrappers
  import opened Structs
  import opened Utils
  import opened Wire
  import opened Inference

  function Hello(): seq<byte> {
    [0x68, 0x65, 0x6c, 0x6c, 0x6f]
  }

  function InnerItems(): seq<Item> {
    [IntItem(GoInt, 1), IntItem(GoInt, 2), IntItem(GoInt, 3)]
  }

  function VectorItems(): seq<Item> {
    [IntItem(GoInt, 1), StringItem(Hello()), ArrayItem(InnerItems())]
  }

  function VectorBytes(): seq<byte> {
    [0x08, 0x01, 0x12, 0x05] + Hello() + [0x1a, 0x06, 0x08, 0x01, 0x10, 0x02, 0x18, 0x03]
  }

  /** A VARINT part holding the Go `int` `v` in field `f`, both below 16. */
  lemma SmallIntPart(f: int, v: int)
    requires 1 <= f < 16 && 0 < v < 128
    ensures EncodePart(Part(None, VARINT, f, IntValue(GoInt, v))) == [f * 8 as byte, v as byte]
  {
    OneByteVarint(f * 8);
    OneByteVarint(v);
  }

  lemma OneByteVarint(v: nat)
    requires 0 < v < 128
    ensures VarintBytes(v) == [v as byte]
  {
    assert VarintBytes(v / 128) == [];
  }

  /** The encoding of a three-item array is the three parts' encodings in order. */
  lemma ThreeItems(a: Item, b: Item, c: Item)
    ensures EncodeParts(ArrayToProtoParts([a, b, c])) ==
      EncodePart(ItemPart(a, 1)) + EncodePart(ItemPart(b, 2)) + EncodePart(ItemPart(c, 3))
  {
    var ps := ArrayToProtoParts([a, b, c]);
    assert ps == [ItemPart(a, 1), ItemPart(b, 2), ItemPart(c, 3)];
    ThreeParts(ps);
  }

  lemma ThreeParts(ps: seq<Part>)
    requires |ps| == 3 && Encodable(ps)
    ensures EncodeParts(ps) == EncodePart(ps[0]) + EncodePart(ps[1]) + EncodePart(ps[2])
  {
    assert ps[2..] == [ps[2]];
    assert EncodeParts(ps[2..]) == EncodePart(ps[2]) + EncodeParts(ps[2..][1..]);
    assert ps[1..][1..] == ps[2..];
    assert EncodeParts(ps[1..]) == EncodePart(ps[1]) + EncodeParts(ps[2..]);
  }

  lemma InnerEncoding()
    ensures EncodeParts(ItemsParts(InnerItems(), 1)) == [0x08, 0x01, 0x10, 0x02, 0x18, 0x03]
  {
    SmallIntPart(1, 1);
    SmallIntPart(2, 2);
    SmallIntPart(3, 3);
    ThreeItems(IntItem(GoInt, 1), IntItem(GoInt, 2), IntItem(GoInt, 3));
  }

  /** A LENDELIM part with a payload of fewer than 128 bytes in a field below 16. */
  lemma ShortLengthDelimited(f: int, v: Value, b: seq<byte>)
    requires 1 <= f < 16 && 0 < |b| < 128
    requires v == BytesValue(b) || (v.PartsValue? && Encodable(v.parts) && EncodeParts(v.parts) == b)
    requires PartEncodable(Part(None, LENDELIM, f, v))
    ensures EncodePart(Part(None, LENDELIM, f, v)) == [f * 8 + 2 as byte, |b| as byte] + b
  {
    OneByteVarint(f * 8 + 2);
    OneByteVarint(|b|);
  }

  lemma HelloPart()
    ensures EncodePart(ItemPart(StringItem(Hello()), 2)) == [0x12, 0x05] + Hello()
  {
    ShortLengthDelimited(2, BytesValue(Hello()), Hello());
  }

  lemma InnerPart()
    ensures EncodePart(ItemPart(ArrayItem(InnerItems()), 3)) ==
      [0x1a, 0x06, 0x08, 0x01, 0x10, 0x02, 0x18, 0x03]
  {
    var inner := ItemsParts(InnerItems(), 1);
    InnerEncoding();
    ShortLengthDelimited(3, PartsValue(inner), EncodeParts(inner));
  }

  /** `TestEncoding`: `EncodeProto(ArrayToProtoParts([1, "hello", [1, 2, 3]]))` is
      the hex string `0801120568656c6c6f1a06080110021803`. */
  lemma EncodingVector()
    ensures EncodeParts(ArrayToProtoParts(VectorItems())) == VectorBytes()
  {
    SmallIntPart(1, 1);
    HelloPart();
    InnerPart();
    ThreeItems(IntItem(GoInt, 1), StringItem(Hello()), ArrayItem(InnerItems()));
    VectorPieces(EncodePart(ItemPart(IntItem(GoInt, 1), 1)), EncodePart(ItemPart(StringItem(Hello()), 2)),
                 EncodePart(ItemPart(ArrayItem(InnerItems()), 3)));
  }

  /** The three parts' bytes make up the vector. */
  lemma VectorPieces(e0: seq<byte>, e1: seq<byte>, e2: seq<byte>)
    requires e0 == [0x08, 0x01] && e1 == [0x12, 0x05] + Hello()
    requires e2 == [0x1a, 0x06, 0x08, 0x01, 0x10, 0x02, 0x18, 0x03]
    ensures e0 + e1 + e2 == VectorBytes()
  {
  }

  /** A varint whose first byte is below 0x80 is that byte. */
  lemma OneByteRead(s: seq<byte>)
    requires |s| > 0 && s[0] < 0x80
    ensures ReadVarint(s) == Some((s[0] as nat, 1))
  {
    assert TerminatorIndex(s) == 0;
    assert s[..1][..0] == [];
    assert Groups(s[..1]) == Groups(s[..1][..0]) + (s[0] % 128) * Pow(128, 0);
  }

  /** Decoding "hello" first reads `h`, the tag of a VARINT in field 13, and `e`, its
      value. */
  lemma HelloFirstStep()
    ensures DecodeStep(Hello(), 0).Emit? && DecodeStep(Hello(), 0).next == 2
  {
    var h := Hello();
    OneByteRead(h[0..]);
    OneByteRead(h[1..]);
    assert WireTypeOf(0x68) == VARINT;
    StepAt(h, 0, 0x68, 1, IntValue(BigInt, 0x65), 1);
  }

  /** Then `l` is a tag of wire type 4, and decoding stops with "lo" over. */
  lemma HelloSecondStep()
    ensures DecodeStep(Hello(), 2) == Stop([0x6c, 0x6f])
  {
    var h := Hello();
    OneByteRead(h[2..]);
    assert WireTypeOf(0x6c) == 4;
    StepStops(h, 2);
    assert h[3..] == [0x6c, 0x6f];
  }

  /** "hello" does not decode as a message with nothing over. */
  lemma HelloIsNotNested()
    ensures DecodeParts(Hello()).leftOver == [0x6c, 0x6f]
  {
    var h := Hello();
    HelloFirstStep();
    HelloSecondStep();
    DecodeFromEmit(h, 0, DecodeStep(h, 0).part, 2);
    DecodeFromStop(h, 2, [0x6c, 0x6f]);
  }

  /** ASCII bytes are well-formed UTF-8. */
  lemma {:induction false} AsciiIsUtf8(s: seq<byte>)
    requires forall i :: 0 <= i < |s| ==> s[i] < 0x80
    ensures Utf8.ValidUtf8(s)
    decreases |s|
  {
    if s != [] {
      assert Utf8.CharLength(s) == 1;
      AsciiIsUtf8(s[1..]);
    }
  }

  lemma InnerTransparent()
    ensures AllTransparent(InnerItems())
  {
    var xs := InnerItems();
    forall i | 0 <= i < |xs|
      ensures Transparent(xs[i])
    {
      assert xs[i] == IntItem(GoInt, i + 1);
    }
  }

  lemma AllThreeTransparent(items: seq<Item>)
    requires |items| == 3
    requires Transparent(items[0]) && Transparent(items[1]) && Transparent(items[2])
    ensures AllTransparent(items)
  {
  }

  lemma HelloTransparent()
    ensures Transparent(StringItem(Hello()))
  {
    HelloIsNotNested();
  }

  lemma InnerArrayTransparent()
    ensures Transparent(ArrayItem(InnerItems()))
  {
    InnerTransparent();
    InnerEncoding();
  }

  lemma VectorTransparent()
    ensures AllTransparent(VectorItems())
  {
    HelloTransparent();
    InnerArrayTransparent();
    assert Transparent(IntItem(GoInt, 1));
    AllThreeTransparent(VectorItems());
  }

  lemma VectorExpected()
    ensures ExpectedAll(VectorItems()) ==
      [IntItem(BigInt, 1), StringItem(Hello()), ArrayItem([IntItem(BigInt, 1), IntItem(BigInt, 2), IntItem(BigInt, 3)])]
  {
    AsciiIsUtf8(Hello());
    var inner := ExpectedAll(InnerItems());
    assert inner == [IntItem(BigInt, 1), IntItem(BigInt, 2), IntItem(BigInt, 3)];
  }

  /** `TestDecoding`: the 17 bytes decode to three parts with no leftover, and
      `ProtoPartsToArray` gives back `[1, "hello", [1, 2, 3]]`, with every integer as
      a `*big.Int`. */
  lemma DecodingVector()
    ensures DecodeParts(VectorBytes()).leftOver == []
    ensures |DecodeParts(VectorBytes()).parts| == 3
    ensures Ready(DecodeParts(VectorBytes()).parts)
    ensures ProtoPartsToArray(DecodeParts(VectorBytes()).parts) ==
      [IntItem(BigInt, 1), StringItem(Hello()), ArrayItem([IntItem(BigInt, 1), IntItem(BigInt, 2), IntItem(BigInt, 3)])]
  {
    EncodingVector();
    VectorTransparent();
    VectorExpected();
    DecodeEncode(VectorItems());
  }
}
