/** The data model: `ProtoPart` and `ProtoDecoded` (structs.go), the wire-type
    constants (protobuf.go), and the dynamic values that the schema-less layer
    passes around as `interface{}`. */
module Structs {
  import opened Numerics
  import opened Wrappers

  const VARINT: int := 0x00
  const FIXED64: int := 0x01
  const LENDELIM: int := 0x02
  const FIXED32: int := 0x05

  /** The three low bits of a tag. */
  type WireType = t: int | 0 <= t < 8

  /** The dynamic Go type of an integer held in an `interface{}`. */
  datatype IntKind = GoInt | Int64 | Uint64 | BigInt

  /** `ByteRange`: the half-open range `[start, end)` a decoded part occupied. */
  datatype ByteRange = ByteRange(start: nat, end: nat)

  /** `ProtoPart.Value`: nil, an integer, a byte slice or a nested `[]ProtoPart`. */
  datatype Value =
    | NoValue
    | IntValue(kind: IntKind, n: int)
    | BytesValue(bytes: seq<byte>)
    | PartsValue(parts: seq<Part>)

  /** `ProtoPart`; `byteRange` is `None` for parts built for encoding. */
  datatype Part = Part(byteRange: Option<ByteRange>, wireType: WireType, field: int, value: Value)

  /** `ProtoDecoded`. */
  datatype ProtoDecoded = ProtoDecoded(parts: seq<Part>, leftOver: seq<byte>)

  /** An element of the `[]interface{}` arrays of the schema-less layer. Strings are
      Go strings, that is, byte sequences. `FloatItem` is a `float32` (`wide` false)
      or `float64` item, held as the little-endian bytes `ArrayToProtoParts` writes
      for it. `OtherItem` stands for any dynamic type the layer does not recognise
      (a map, a struct, ...). */
  datatype Item =
    | IntItem(kind: IntKind, n: int)
    | StringItem(s: seq<byte>)
    | BytesItem(bytes: seq<byte>)
    | ArrayItem(items: seq<Item>)
    | BoolItem(flag: bool)
    | FloatItem(wide: bool, bits: seq<byte>)
    | PartsItem(parts: seq<Part>)
    | NilItem
    | OtherItem
}
