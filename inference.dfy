/** The schema-less layer of protobuf.go: `ProtoPartsToArray` turns decoded parts
    into a dynamic array, guessing for every length-delimited payload whether it is
    a nested message, a string or raw bytes; `ArrayToProtoParts` goes the other way
    and numbers the fields by position; `Encode` and `Decode` chain them with the
    wire codec. */
module Inference {
  import opened Numerics
  import opened Wrappers
  import opened Structs
  import opened Utils
  import opened Wire

  // ------------------------------------------------------- ProtoPartsToArray

  /** A part's `Value` appended to the result as it is, as an `interface{}`. */
  function ValueItem(v: Value): Item {
    match v
    case NoValue => NilItem
    case IntValue(kind, n) => IntItem(kind, n)
    case BytesValue(b) => BytesItem(b)
    case PartsValue(ps) => PartsItem(ps)
  }

  /** Whether a LENDELIM payload is taken for a nested message: it is non-empty and
      decoding it leaves nothing over. */
  predicate IsNested(b: seq<byte>) {
    |b| > 0 && DecodeParts(b).leftOver == []
  }

  /** `ProtoPartsToArray` asserts `part.Value.([]byte)` on every LENDELIM part, also
      on the parts of the payloads it decodes as nested messages, and panics when
      that fails. A part is ready when no such assertion fails. */
  predicate PartReady(p: Part)
    decreases PartWeight(p), 1
  {
    p.wireType == LENDELIM ==>
      p.value.BytesValue? &&
      (IsNested(p.value.bytes) ==>
        (DecodeWeight(p.value.bytes, 0);
         Ready(DecodeParts(p.value.bytes).parts)))
  }

  predicate Ready(parts: seq<Part>)
    decreases Weight(parts), 2
  {
    parts == [] || (PartReady(parts[0]) && Ready(parts[1..]))
  }

  /** The element `ProtoPartsToArray` appends for one part. A LENDELIM payload becomes
      a nested array exactly when it is non-empty and decodes with no leftover;
      only then is it classified by `stringOrBytes`. Every other part's value
      passes through unchanged. */
  function PartItem(p: Part): (r: Item)
    requires PartReady(p)
    decreases PartWeight(p), 1
    ensures p.wireType != LENDELIM ==> r == ValueItem(p.value)
    ensures p.wireType == LENDELIM ==> (r.ArrayItem? <==> IsNested(p.value.bytes))
    ensures p.wireType == LENDELIM && !IsNested(p.value.bytes) ==> r == StringOrBytes(p.value.bytes)
    ensures p.wireType == LENDELIM && IsNested(p.value.bytes) ==>
      |r.items| == |DecodeParts(p.value.bytes).parts|
  {
    if p.wireType == LENDELIM then
      var b := p.value.bytes;
      if IsNested(b) then
        DecodeWeight(b, 0);
        ArrayItem(ProtoPartsToArray(DecodeParts(b).parts))
      else
        StringOrBytes(b)
    else
      ValueItem(p.value)
  }

  /** `ProtoPartsToArray`: exactly one element per part, in order. */
  function ProtoPartsToArray(parts: seq<Part>): (r: seq<Item>)
    requires Ready(parts)
    decreases Weight(parts), 2
    ensures |r| == |parts|
  {
    if parts == [] then [] else [PartItem(parts[0])] + ProtoPartsToArray(parts[1..])
  }

  /** `Ready` holds of a sequence exactly when it holds of each part. */
  lemma {:induction false} ReadyEach(parts: seq<Part>)
    ensures Ready(parts) <==> forall i :: 0 <= i < |parts| ==> PartReady(parts[i])
    decreases |parts|
  {
    if parts != [] {
      ReadyEach(parts[1..]);
      assert forall i :: 0 < i < |parts| ==> parts[i] == parts[1..][i - 1];
    }
  }

  /** The `i`-th element of the array is what the `i`-th part becomes. */
  lemma {:induction false} ProtoPartsToArrayEach(parts: seq<Part>)
    requires Ready(parts)
    ensures forall i :: 0 <= i < |parts| ==>
      PartReady(parts[i]) && ProtoPartsToArray(parts)[i] == PartItem(parts[i])
    decreases |parts|
  {
    if parts != [] {
      ProtoPartsToArrayEach(parts[1..]);
      assert forall i :: 0 < i < |parts| ==> parts[i] == parts[1..][i - 1];
    }
  }

  // ------------------------------------------------------- ArrayToProtoParts

  /** The part `ArrayToProtoParts` builds for `item` at field number `field`. Integers
      become VARINT parts holding the item itself, strings and byte slices LENDELIM
      bytes, bools the Go `int` 1 or 0, floats FIXED32 or FIXED64 bytes, nested
      arrays LENDELIM parts of their own parts; any other item still yields a part,
      of type 0 with no value. */
  function ItemPart(item: Item, field: int): (r: Part)
    decreases item, 1
    ensures r.byteRange.None? && r.field == field
    ensures PartEncodable(r)
  {
    match item
    case IntItem(kind, n) => Part(None, VARINT, field, IntValue(kind, n))
    case StringItem(s) => Part(None, LENDELIM, field, BytesValue(s))
    case BytesItem(b) => Part(None, LENDELIM, field, BytesValue(b))
    case ArrayItem(xs) => Part(None, LENDELIM, field, PartsValue(ItemsParts(xs, 1)))
    case BoolItem(flag) => Part(None, VARINT, field, IntValue(GoInt, if flag then 1 else 0))
    case FloatItem(wide, bits) => Part(None, if wide then FIXED64 else FIXED32, field, BytesValue(bits))
    case _ => Part(None, VARINT, field, NoValue)
  }

  /** The parts for `items`, numbered from `first` on. */
  function ItemsParts(items: seq<Item>, first: int): (r: seq<Part>)
    decreases items, 2
    ensures |r| == |items| && Encodable(r)
    ensures forall i :: 0 <= i < |items| ==> r[i] == ItemPart(items[i], first + i)
  {
    if items == [] then [] else [ItemPart(items[0], first)] + ItemsParts(items[1..], first + 1)
  }

  /** `ArrayToProtoParts`: one part per item, the `i`-th with field number `i + 1`,
      and the result can always be encoded. */
  function ArrayToProtoParts(items: seq<Item>): (r: seq<Part>)
    ensures |r| == |items| && Encodable(r)
    ensures forall i :: 0 <= i < |items| ==> r[i].field == i + 1 && r[i] == ItemPart(items[i], i + 1)
  {
    ItemsParts(items, 1)
  }

  // ---------------------------------------------------------- Encode / Decode

  /** `Encode`: `EncodeProto(ArrayToProtoParts(data))`. */
  method Encode(items: seq<Item>) returns (out: seq<byte>)
    ensures out == EncodeParts(ArrayToProtoParts(items))
  {
    var parts := ArrayToProtoParts(items);
    out := EncodeProto(parts);
  }

  /** `Decode`: `ProtoPartsToArray(DecodeProto(data).Parts)`; the leftover is dropped. */
  method Decode(data: seq<byte>) returns (items: seq<Item>)
    requires Ready(DecodeParts(data).parts)
    ensures items == ProtoPartsToArray(DecodeParts(data).parts)
  {
    var decoded := DecodeProto(data);
    items := ProtoPartsToArray(decoded.parts);
  }

  // --------------------------------------------------------------- round trip

  /** Items that come back from `Decode(Encode(...))` in a predictable form. Integers
      must encode to a positive varint unless they are a Go `int` zero; strings and
      byte slices must be non-empty and must not themselves decode as a message with
      no leftover; floats must hold as many bytes as their width; nested arrays must
      be non-empty with such items, and every length must fit a `uint64`. Nils, `[]ProtoPart` values and unrecognised items
      are not. */
  predicate Transparent(item: Item)
    decreases item, 1
  {
    match item
    case IntItem(kind, n) => VarintImage(kind, n) > 0 || (kind == GoInt && n == 0)
    case StringItem(s) => 0 < |s| < TWO_64 && !IsNested(s)
    case BytesItem(b) => 0 < |b| < TWO_64 && !IsNested(b)
    case BoolItem(_) => true
    case FloatItem(wide, bits) => |bits| == if wide then 8 else 4
    case ArrayItem(xs) => xs != [] && AllTransparent(xs) && |EncodeParts(ItemsParts(xs, 1))| < TWO_64
    case _ => false
  }

  predicate AllTransparent(items: seq<Item>)
    decreases items, 2
  {
    |items| < FIELD_LIMIT && forall i :: 0 <= i < |items| ==> Transparent(items[i])
  }

  /** What `Decode(Encode(...))` gives back for a transparent item: integers and bools
      as a `*big.Int` holding the 64-bit image that was written, strings and byte
      slices as `stringOrBytes` classifies their bytes, floats as their bytes, arrays
      element by element. */
  function Expected(item: Item): Item
    decreases item, 1
  {
    match item
    case IntItem(kind, n) => IntItem(BigInt, VarintImage(kind, n))
    case StringItem(s) => StringOrBytes(s)
    case BytesItem(b) => StringOrBytes(b)
    case BoolItem(flag) => IntItem(BigInt, if flag then 1 else 0)
    case FloatItem(_, bits) => BytesItem(bits)
    case ArrayItem(xs) => ArrayItem(ExpectedAll(xs))
    case _ => item
  }

  function ExpectedAll(items: seq<Item>): (r: seq<Item>)
    decreases items, 2
    ensures |r| == |items|
    ensures forall i :: 0 <= i < |items| ==> r[i] == Expected(items[i])
  {
    if items == [] then [] else [Expected(items[0])] + ExpectedAll(items[1..])
  }

  /** A non-empty sequence of parts encodes to a non-empty byte string, because
      every tag is positive and so writes at least one byte. */
  lemma EncodeNonEmpty(ps: seq<Part>)
    requires Encodable(ps) && ps != [] && 1 <= ps[0].field < FIELD_LIMIT
    ensures |EncodeParts(ps)| > 0
  {
    TagRoundTrip(ps[0].field, ps[0].wireType);
    VarintContinuation(Tag(ps[0].field, ps[0].wireType));
  }

  /** The part built for a transparent item satisfies the wire codec's round-trip
      conditions. */
  lemma ItemRoundTrips(item: Item, field: int)
    requires Transparent(item) && 1 <= field < FIELD_LIMIT
    ensures RoundTrips(ItemPart(item, field))
  {
    if item.ArrayItem? {
      EncodeNonEmpty(ItemsParts(item.items, 1));
    }
  }

  lemma AllItemsRoundTrip(items: seq<Item>)
    requires AllTransparent(items)
    ensures AllRoundTrip(ArrayToProtoParts(items))
  {
    var ps := ArrayToProtoParts(items);
    forall i | 0 <= i < |ps|
      ensures RoundTrips(ps[i])
    {
      ItemRoundTrips(items[i], i + 1);
    }
  }

  /** A part decoded from the encoding of a transparent item is ready and becomes
      the item's expected form. */
  lemma {:induction false} DecodedItem(item: Item, field: int, p: Part)
    requires Transparent(item) && 1 <= field < FIELD_LIMIT
    requires RoundTrips(ItemPart(item, field))
    requires p.wireType == ItemPart(item, field).wireType
    requires p.value == DecodedValue(ItemPart(item, field))
    ensures PartReady(p) && PartItem(p) == Expected(item)
    decreases item, 1
  {
    if item.ArrayItem? {
      var qs := ItemsParts(item.items, 1);
      DecodeEncode(item.items);
      assert p.value == BytesValue(EncodeParts(qs));
      EncodeNonEmpty(qs);
    }
  }

  /** `Decode(Encode(items))` for transparent items: decoding leaves nothing over,
      does not panic, and yields every item in its expected form. */
  lemma {:induction false} DecodeEncode(items: seq<Item>)
    requires AllTransparent(items)
    ensures var d := DecodeParts(EncodeParts(ArrayToProtoParts(items)));
      d.leftOver == [] && Ready(d.parts) && ProtoPartsToArray(d.parts) == ExpectedAll(items)
    decreases items, 2
  {
    var ps := ArrayToProtoParts(items);
    AllItemsRoundTrip(items);
    EncodeDecodeRoundTrip(ps);
    var decoded := DecodeParts(EncodeParts(ps)).parts;
    forall i | 0 <= i < |items|
      ensures PartReady(decoded[i]) && PartItem(decoded[i]) == Expected(items[i])
    {
      DecodedItem(items[i], i + 1, decoded[i]);
    }
    ReadyEach(decoded);
    ProtoPartsToArrayEach(decoded);
    assert ProtoPartsToArray(decoded) == ExpectedAll(items);
  }
}
