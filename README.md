# go-raw-protobuf, modelled in Dafny

go-raw-protobuf is a schema-less codec for the Protocol Buffers binary wire format.
It has four layers. This project models each layer and proves what it does.

- **Primitives** (utils.go): base-128 varints (`encodeVarint`, `decodeVarint`), the
  32-bit ZigZag transform, and `stringOrBytes`, which tells a UTF-8 string from raw
  bytes. Well-formed UTF-8 is the syntax of section 4 of RFC 3629, in `utf8.dfy`.
- **Wire-part codec** (`EncodeProto`, `DecodeProto` in protobuf.go).
  - `EncodeProto` flattens a list of `ProtoPart`s into bytes.
  - `DecodeProto` drains a `bytes.Buffer` into parts, each with its byte range, plus
    the bytes it could not parse (`LeftOver`).
  - A part's tag is `field << 3 | wire type`; wire types 0, 1, 2 and 5 are read, any
    other stops decoding.
- **Schema-less inference.**
  - `ProtoPartsToArray` turns parts into a dynamic `[]interface{}`. It decides for
    every length-delimited payload whether it is a nested message, a string or bytes.
  - `ArrayToProtoParts` goes the other way and numbers the fields by position.
  - `Encode` and `Decode` chain them with the wire codec.
- **Typed-record mapper.**
  - `EncodeProtoStruct` and `DecodeToProtoStruct` map between parts and the fields of a
    Go struct tagged `protoField:"<n>"`; `EncodeStruct` and `DecodeStruct` chain them
    with the wire codec.
  - Reflection is replaced by an explicit field table. A record is the sequence of its
    fields in declaration order; each field has its parsed tag, whether it is exported,
    and its typed value.

## How the model is built

- **Imperative code stays imperative.** `encodeVarint`, `decodeVarint`, `EncodeProto`,
  `DecodeProto` and `DecodeToProtoStruct` are methods with loops.
  - Each is proved equal to a specification function: `VarintBytes`, `ReadVarint`,
    `EncodeParts`, `DecodeParts`, `DecodeSlots`.
  - The properties are then proved as lemmas about those functions.
- **Classes for the mutable objects.** The read side of `bytes.Buffer` is the class
  `ByteBuffer.Buffer`. The target of `DecodeToProtoStruct` is `Records.Target`, whose
  field sequence the method rewrites in place.
- **Recursive functions for the append loops.** `ProtoPartsToArray`, `ArrayToProtoParts`
  and `EncodeProtoStruct` amount to per-element maps with recursion.
- **Go integers are explicit.** Integers are unbounded `int`/`nat`, and every implicit
  Go conversion is written out in `numerics.dfy`:
  - `uint64(x)` keeps the low 64 bits;
  - math/big's `Int64()` is the low 64 bits read as two's complement;
  - math/big's `Uint64()` is the low 64 bits of the magnitude.
- **Dynamic values.** A `ProtoPart.Value` is `NoValue`, an integer tagged with its Go
  dynamic type (`int`, `int64`, `uint64` or `*big.Int`), bytes, or nested parts. The
  type matters: only a Go `int` zero gets the explicit 0x00 byte, and the decoder's type
  switches treat the integer types differently.
- **Panics.** A panic in `EncodeProto`, `ProtoPartsToArray` or `EncodeProtoStruct`
  becomes a precondition: `Encodable`, `Ready` and `EncodeReady`, each a recursive
  predicate. In `DecodeToProtoStruct` an early error return can mask a later panic, so
  there a panic is an outcome (`Status.Panicked`) of the specification function, and
  the method requires that the outcome is not a panic.

## Model

| member | source | states |
|---|---|---|
| Numerics.Uint64Of | protobuf.go:392 | `uint64(x)` leaves values in `[0, 2^64)` unchanged and adds 2^64 to a negative `int64` |
| Numerics.Int64Of | protobuf.go:70 | `Int64()` is always an `int64`, is exact on the `int64` range, and has the same low 64 bits as its argument |
| Numerics.BigUint64 | protobuf.go:411 | `Uint64()` is exact on `[0, 2^64)` |
| Utils.EncodeInt32Values | utils.go:17-19 | on the `int32` range, ZigZag encoding maps `n >= 0` to `2n` and `n < 0` to `-2n - 1` |
| Utils.DecodeSint32Values | utils.go:22-24 | ZigZag decoding halves even values and maps odd `2k + 1` to `-k - 1` |
| Utils.ZigZagRoundTrip | utils.go:17-24 | `DecodeSint32(EncodeInt32(n)) == n` for every `int32` `n` |
| Utils.StringOrBytes | utils.go:26-36 | the result is a string with the same bytes exactly when the input is empty or well-formed UTF-8, and otherwise the input bytes unchanged |
| Utf8.ValidUtf8Characterised | utils.go:31 | a byte sequence is well-formed UTF-8 exactly when it is the encoding of a sequence of Unicode scalar values |
| Utf8.EncodingIsValid | utils.go:31 | every encoding of scalar values is well-formed |
| Utf8.ValidIsEncoding | utils.go:31 | every well-formed sequence is the encoding of the scalar values it decodes to |
| Utf8.DecodedCharIsScalar | utils.go:31 | a UTF8-char decodes to a scalar value that encodes back to that char |
| Utf8.EncodedScalarIsChar | utils.go:31 | an encoded scalar value is exactly one UTF8-char, whatever follows it |
| Utils.EncodeVarint | utils.go:38-53 | the loop writes `VarintBytes(value)`, and writes nothing exactly when `value == 0` |
| Utils.VarintContinuation | utils.go:41-50 | for `v > 0` every byte but the last has bit 0x80 set and the last is below 0x80 |
| Utils.VarintAtMostTenBytes | utils.go:38-53 | a `uint64` encodes to at most 10 bytes |
| Utils.ReadVarint | utils.go:55-79 | on success `bytesRead` is at least 1 and at most the buffer length |
| Utils.ReadVarintMeaning | utils.go:56-78 | reading fails exactly when no byte is below 0x80; otherwise it stops at the first such byte and returns the sum of `(b & 0x7f) * 128^i` up to there, with no 64-bit clamp |
| Utils.VarintRoundTrip | utils.go:38-79 | for `v > 0`, decoding `encodeVarint(v) + rest` returns `v`, reads exactly the encoding, and leaves `rest` |
| Utils.DecodeVarint | utils.go:55-79 | the loop returns `ReadVarint` of the buffer's bytes and consumes exactly `bytesRead` bytes; on failure it has drained the buffer |
| ByteBuffer.Buffer.ReadByte | utils.go:61-64 | `ReadByte` returns the next byte and advances, or reports EOF on an empty buffer |
| ByteBuffer.Buffer.Next | protobuf.go:490 | `Next(n)` returns and consumes the next `min(n, Len())` bytes |
| Wire.EncodePartsConcat | protobuf.go:387-451 | `EncodeProto(a + b) == EncodeProto(a) + EncodeProto(b)` |
| Wire.EncodeProto | protobuf.go:387-451 | the loop writes every part's tag varint followed by its payload, in order (`EncodeParts`) |
| Wire.WritePayload | protobuf.go:394-447 | the switch writes the payload: VARINT as the varint of the value's 64-bit image, with a 0x00 byte only for a Go `int` zero; FIXED64/FIXED32 payloads verbatim; LENDELIM as length varint and bytes, nested parts encoded first; nothing for a nil or unrecognised value |
| Wire.TagRoundTrip | protobuf.go:472-473 | for `1 <= field < 2^60`, the tag is positive and decodes to the same field and wire type |
| Wire.ReadPayload | protobuf.go:480-505 | a payload never consumes more than remains, nor holds more bytes than it consumes |
| Wire.PayloadMeaning | protobuf.go:480-505 | a value is nil exactly when its varint (the value itself, or a LENDELIM length) is truncated, and then the rest of the input is consumed; FIXED64, FIXED32 and LENDELIM take the next `min(8, remaining)`, `min(4, remaining)` and `min(len mod 2^64, remaining)` bytes |
| Wire.ReadValue | protobuf.go:480-505 | the switch on the wire type reads the value and length `ReadPayload` describes, and leaves the rest in the buffer |
| Wire.ReadLengthDelimited | protobuf.go:492-499 | a LENDELIM payload is a length varint and then as many bytes as the length's low 64 bits say, or as many as remain |
| Wire.DecodeStep | protobuf.go:461-510 | a step that emits a part consumes at least one byte, within the input |
| Wire.StepStops | protobuf.go:467-478 | the loop stops without a part exactly on an undecodable tag (leaving nothing over) or on wire type 3, 4, 6 or 7 (leaving the bytes after the tag over) |
| Wire.StepEmits | protobuf.go:508 | an emitted part records the range it was read from, and its value holds fewer bytes than that range |
| Wire.ReadPart | protobuf.go:461-510 | one loop iteration is exactly the step `DecodeStep` specifies, leaving the bytes from `next` on in the buffer |
| Wire.ReadKnownPart | protobuf.go:480-509 | after a tag with a known wire type, the iteration emits the part with byte range `[start, end)` |
| Wire.DecodeProto | protobuf.go:453-516 | the loop returns `DecodeParts(data)` |
| Wire.DecodedPartsAreSteps | protobuf.go:461-510 | every decoded part is what one step reads at the start of its non-empty byte range, and the range lies within the input |
| Wire.DecodedRangesTile | protobuf.go:459-465 | the byte ranges tile a prefix of the input: the first starts at 0 and each starts where the previous one ended |
| Wire.DecodeStopsAt | protobuf.go:461-513 | after the last part, decoding stopped either at the end of the input with nothing over, or on a step that stops, whose leftover is the result's |
| Wire.LeftOverIsSuffix | protobuf.go:513 | `LeftOver` is a suffix of the input, after every decoded part |
| Wire.DecodeWeight | protobuf.go:461-510 | decoding `n` bytes yields parts whose values hold at most `n` bytes together |
| Wire.PayloadRoundTrip | protobuf.go:394-505 | a written payload reads back as the written value (integers as `*big.Int` of their image, nested parts as their bytes), consuming exactly the payload |
| Wire.PartBytesRoundTrip | protobuf.go:390-505 | an encoded part reads back as its tag (same field and wire type) and then its payload |
| Wire.DecodeEncodedFrom | protobuf.go:387-516 | decoding the encoding of round-trippable parts from any offset recovers each part's field, wire type and value, with nothing over |
| Wire.EncodeDecodeRoundTrip | protobuf.go:387-516 | `DecodeProto(EncodeProto(ps))` recovers every part's field, type and value in order, with nothing over, when every field is at least 1, every type is 0, 1, 2 or 5, every VARINT is positive or a Go `int` 0, fixed payloads have 8 or 4 bytes, and LENDELIM payloads are non-empty |
| Inference.PartItem | protobuf.go:308-323 | a non-LENDELIM value passes through unchanged; a LENDELIM payload becomes a nested array exactly when it is non-empty and decodes with no leftover, and with one element per decoded part; otherwise `stringOrBytes` classifies it |
| Inference.ProtoPartsToArray | protobuf.go:305-327 | one element per part |
| Inference.ProtoPartsToArrayEach | protobuf.go:305-327 | the `i`-th element is what the `i`-th part becomes |
| Inference.ItemPart | protobuf.go:335-381 | the part for an item has the given field number and can always be encoded |
| Inference.ItemsParts | protobuf.go:331-385 | one part per item, numbered from `first` on |
| Inference.ArrayToProtoParts | protobuf.go:331-385 | one part per item, the `i`-th with field `i + 1`: integers as VARINT, strings and bytes as LENDELIM bytes, bools as the `int` 1/0, floats as FIXED32/FIXED64 bytes, nested arrays as LENDELIM of their own parts, any other item a type-0 part with no value |
| Inference.Encode | protobuf.go:519-522 | `Encode` is `EncodeProto(ArrayToProtoParts(data))` |
| Inference.Decode | protobuf.go:525-528 | `Decode` is `ProtoPartsToArray(DecodeProto(data).Parts)`, dropping the leftover |
| Inference.ItemRoundTrips | protobuf.go:331-385 | the part of a transparent item meets the wire codec's round-trip conditions |
| Inference.AllItemsRoundTrip | protobuf.go:331-385 | all parts of transparent items round-trip |
| Inference.DecodedItem | protobuf.go:305-327 | a part decoded from a transparent item's encoding becomes the item's expected form |
| Inference.DecodeEncode | protobuf.go:519-528 | `Decode(Encode(items))` for transparent items leaves nothing over, does not panic, and gives back every item, with integers and bools as `*big.Int` and strings and bytes as `stringOrBytes` classifies them |
| Vectors.EncodingVector | protobuf_test.go:86 | `[1, "hello", [1, 2, 3]]` encodes to `0801120568656c6c6f1a06080110021803` |
| Vectors.HelloIsNotNested | protobuf.go:312 | the bytes of "hello" do not decode as a message with no leftover, so they are not taken for a nested array |
| Vectors.DecodingVector | protobuf_test.go:97-103 | those 17 bytes decode to three parts with no leftover, and to `[1, "hello", [1, 2, 3]]` with every integer a `*big.Int` |
| Records.ZeroSlots | protobuf.go:192 | the zero value of a struct type has the same fields, each holding its zero |
| Records.ValuePart | protobuf.go:238-297 | a field yields no part exactly when it is an empty string, a `uint` or an unsupported kind; otherwise the part has the tag as field, the kind's wire type, and can be encoded |
| Records.SlotPart | protobuf.go:221-299 | a field yields no part exactly when its tag is missing or unparsable or the field is skipped |
| Records.PointeeParts | protobuf.go:291-293 | a pointer's parts can be encoded |
| Records.EncodeProtoStruct | protobuf.go:210-303 | the result can always be encoded |
| Records.FieldEncodings | protobuf.go:238-297 | bools become VARINT `int` 1/0, non-empty strings LENDELIM of their bytes, `[]byte` becomes LENDELIM verbatim, nested structs and pointers LENDELIM of their own encoded parts, `int`, `int64` and `uint64` VARINT of themselves, `float32` and `float64` FIXED32 and FIXED64 of their bit pattern, `[]interface{}` LENDELIM of `ArrayToProtoParts`; a `uint` and an unsupported kind give no part |
| Records.EncodeAround | protobuf.go:221-300 | field `j`'s parts sit between those of the fields before it and after it |
| Records.PartIndexSteps | protobuf.go:221-300 | each field moves the next part's position on by the number of parts it yields, and after the last field the position is the number of parts |
| Records.EncodeProtoStructOrder | protobuf.go:221-300 | parts come in field-declaration order: field `i`'s part is at `PartIndex(i)`, and positions grow with the field index |
| Records.NoTagNoPart | protobuf.go:236 | every part's field number is some field's tag |
| Records.EncodeStruct | protobuf.go:530-533 | `EncodeStruct` is `EncodeProto(EncodeProtoStruct(data))` |
| Records.FindPart | protobuf.go:25-32 | no part is found exactly when no part has the field number; a part that is found is in the list and has that number |
| Records.GetPartByFieldNum | protobuf.go:25-32 | the loop returns `FindPart` |
| Records.FirstMatchWins | protobuf.go:25-32 | for duplicate field numbers the first matching part is found |
| Records.FindPartInsert | protobuf.go:25-32 | inserting a part changes what is found for a number only if it carries that number and no earlier part does |
| Records.ConvertedItems | protobuf.go:145-161 | the conversion of a `[]byte` payload into a `[]interface{}` panics exactly when some decoded part has no value, and otherwise yields one element per part |
| Records.Int64ZeroReadsTrue | protobuf.go:113-131 | as written, a VARINT part holding an `int64` or `uint64` zero sets a bool field to true |
| Records.ApplyPart | protobuf.go:64-204 | a part with the wrong wire type or value shape leaves the field unchanged, and only an unsupported kind, a struct or a pointer can fail with "unsupported field type" |
| Records.DecodeToProtoStruct | protobuf.go:24-208 | a non-struct target gets the "target must be a pointer to a struct" error and is left unchanged; a struct target ends up, with the returned status, as `DecodeSlots` specifies |
| Records.DecodeStruct | protobuf.go:535-538 | `DecodeStruct` is `DecodeToProtoStruct(DecodeProto(data).Parts, target)` |
| Records.DecodeSlotsFromSteps | protobuf.go:41-205 | the loop from field `i` on updates every field up to the first one whose turn fails, leaves the others as they were, and ends with that field's status |
| Records.DecodeSlotsSteps | protobuf.go:41-207 | fields before the first failing one are decoded, that one keeps what its own decoding left in it, later ones are untouched, and the error is that field's (success when none fails) |
| Records.DecodeSlotsAllOk | protobuf.go:41-207 | when no field's turn fails, every field is decoded and the result is success |
| Records.SameMatchesFrom | protobuf.go:53 | decoding depends on the parts only through the part found for each tag |
| Records.UnmatchedPartIgnored | protobuf.go:53-56 | a part whose number no field carries as its tag does not change the outcome |
| Records.LaterDuplicateIgnored | protobuf.go:25-32 | a part whose number an earlier part already has does not change the outcome |
| Records.UnsupportedWhenMatched | protobuf.go:202-203 | an unsupported kind errors exactly when its tag parses, a part matches, and the field is settable; the field keeps its value |
| Records.BoolIsNonZero | protobuf.go:113-131 | a bool field set from a VARINT part holding an `int` or a `*big.Int` becomes whether that integer is non-zero |
| Records.BoolReadingIsNonZero | protobuf.go:117-118 | the corrected reading gives every integer's non-zero-ness, and it differs from the reading as written exactly on an `int64` or `uint64` zero |
| Records.ApplyPartKeepsKind | protobuf.go:64-204 | decoding a part into a field never changes the field's type |
| Records.SlotUpdateKeepsKind | protobuf.go:41-205 | one turn of the loop keeps the field's tag, export and type |
| Records.DecodeKeepsShape | protobuf.go:41-205 | decoding never changes the type of the record or of any field, nested ones included |
| Records.ValueRoundTrips | protobuf.go:238-297 | the part of a transparent field meets the wire codec's round-trip conditions |
| Records.EncodedRoundTrip | protobuf.go:210-303 | every part of a record of transparent fields round-trips |
| Records.ValueComesBack | protobuf.go:64-204 | decoding a transparent field's wire form into the zero of its type gives back the field's value |
| Records.PointeeComesBack | protobuf.go:189-201 | a pointer's wire form decodes into a fresh zero struct as the struct pointed to |
| Records.SlotComesBack | protobuf.go:41-201 | for one field of a transparent record, given the part found for its tag, decoding gives back the field |
| Records.FoundForField | protobuf.go:25-32 | in the decoded wire form of a transparent record, the part found for a field's tag is the decoded form of that field's own part |
| Records.RecordRoundTrip | protobuf.go:530-538 | `DecodeStruct(EncodeStruct(r))` into a zero record of `r`'s type leaves nothing over, succeeds, and gives back `r` field for field, nested structs and pointers included, when its tags are distinct and its fields transparent |

## Left out

- Floating point: float fields, float items and FIXED32/FIXED64 payloads are modelled as
  opaque 4- or 8-byte patterns. `math.Float32bits`/`Float64frombits`, and the fixed-point
  `scale` conversion in `ArrayToProtoParts`' `float32` case, are not modelled; a float
  item carries the bytes that case writes.
- Reflection and tag parsing: a record is an explicit field table, with the tag as
  `strconv.Atoi` would parse it and the exported flag standing for `CanSet`.
- The integer kinds `int8`, `int16`, `int32`, `uint8`, `uint16` and `uint32`, as values
  and as struct fields. `EncodeProto`'s `part.Value.(int)` assertion panics on them as
  values.
- `*big.Int` struct fields, and pointers to anything but a struct.
- Typed slices: `[]int`, `[]string` and the other typed slice fields, and the
  `reflect.Convert` rules of the slice branch for typed elements. Only `[]byte` and
  `[]interface{}` fields are modelled; `ArrayToProtoParts` panics on `[]int` and
  `[]string` items, so only `[]interface{}` items are modelled there.
- A target of `DecodeToProtoStruct` that is not a pointer (reflection panics on it).
- Panics as preconditions: `Inference.Ready` for `ProtoPartsToArray`, `Wire.Encodable`
  for `EncodeProto`, `Records.EncodeReady` for `EncodeProtoStruct` (unexported fields,
  nil pointers), and a non-`Panicked` outcome for `DecodeToProtoStruct`.
- A LENDELIM length is reduced to its low 64 bits, as `length.Uint64()` gives them. When
  those bits lie in `[2^63, 2^64)`, `int(...)` makes the length negative and Go's `Next`
  panics; the model takes `min(low bits, remaining)` for those lengths too.
- `big.Int`'s `Int64()` and `Uint64()` beyond 64 bits, which Go leaves undefined: they are
  modelled as math/big computes them, the low 64 bits of the magnitude.
- Encoded lengths and field numbers beyond 64 bits are reduced modulo 2^64 by `Uint64Of`,
  as Go's `uint64(...)` does; the round-trip lemmas require them in range.
- A part's wire type (`Part.Type`, a Go `int`) is limited to 0..7 (`Structs.WireType`).
  Go admits any `int`, and in `EncodeProto` `Field<<3 | Type` then merges the higher bits
  into the field number.
- Integer values are unbounded: `IntValue`, the signed and unsigned struct fields and the
  integer items admit values outside their Go type's range. The lemmas about them hold for
  every value, those Go cannot hold included.
- Logging and the test harness. Of the tests, only the array vector that `TestEncoding`
  and `TestDecoding` share (protobuf_test.go:86, 93) is modelled, in `Vectors`. The struct
  vector of `TestDecodeProtoStruct` (protobuf_test.go:58) is not modelled, because its
  target type `ProtoStruct` has `[]int` and `[]string` fields, typed slices the model leaves
  out, and float fields the model keeps only as opaque bits.
- Records.RecordRoundTrip: a `[]interface{}` field does not round-trip, because its
  payload comes back with every integer as an `int64`, so the lemma excludes it.
- Inference.DecodeEncode: covers only items that come back in a predictable form
  (`Transparent`). A string item that parses as a message is not covered.

## Findings

| source | as written | input that shows it | evidently intended | confidence | as-written member | corrected member |
|---|---|---|---|---|---|---|
| protobuf.go:117-118 | in the multi-type case, `v` is still an `interface{}`, so `v != 0` compares it with the `int` 0, and an `int64` or `uint64` value always compares unequal | a VARINT part whose value is the `int64` 0, decoded into a `bool` field, sets it to true | every integer sets the field to whether it is non-zero | not executed | Records.Int64ZeroReadsTrue | Records.BoolReadingIsNonZero |

`Records.ApplyPart`, and so the decoder, follows the code as written (`BoolReadingAsWritten`).
`Records.BoolReading` is the corrected reading, and `Records.BoolReadingIsNonZero` proves
its intended behaviour and shows where the two differ. The round-trip lemmas do not meet
the difference, because `DecodeProto` yields only `*big.Int` integers.
