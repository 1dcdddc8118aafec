/** The wire-part codec of protobuf.go: `EncodeProto` flattens parts into bytes and
    `DecodeProto` drains a buffer into parts plus the unparsed `LeftOver`. Each
    method is proved equal to a specification function (`EncodeParts`,
    `DecodeParts`), and the lemmas state what the source promises about those. */
module Wire {
  import opened Numerics
  import opened Wrappers
  import opened Structs
  import opened ByteBuffer
  import opened Utils

  // ================================================================ encoding

  /** The tag `uint64(part.Field<<3 | part.Type)`; the three low bits of
      `Field<<3` are zero, so the `|` is an addition. */
  function Tag(field: int, wireType: WireType): uint64 {
    Uint64Of(field * 8 + wireType)
  }

  /** The `uint64` handed to `encodeVarint` for an integer value: `uint64(v)` for
      Go integers, `Uint64()` for a `*big.Int`. */
  function VarintImage(kind: IntKind, n: int): uint64 {
    if kind == BigInt then BigUint64(n) else Uint64Of(n)
  }

  /** What `EncodeProto` writes after the tag of a VARINT part: a Go `int` zero
      gets an explicit 0x00 (because `encodeVarint(0)` is empty); values that are
      not integers write nothing. */
  function VarintPayload(v: Value): seq<byte> {
    match v
    case IntValue(kind, n) =>
      (if kind == GoInt && n == 0 then [0] else []) + VarintBytes(VarintImage(kind, n))
    case _ => []
  }

  /** `EncodeProto` asserts `part.Value.([]byte)` for FIXED64 and FIXED32 parts and
      panics on anything else; nested parts must satisfy the same. */
  predicate PartEncodable(p: Part)
    decreases p, 1
  {
    (p.wireType == FIXED64 || p.wireType == FIXED32 ==> p.value.BytesValue?) &&
    (p.wireType == LENDELIM && p.value.PartsValue? ==> Encodable(p.value.parts))
  }

  predicate Encodable(parts: seq<Part>)
    decreases parts, 2
  {
    forall i :: 0 <= i < |parts| ==> PartEncodable(parts[i])
  }

  /** What `EncodeProto` writes after a part's tag, selected by its wire type. */
  function Payload(p: Part): seq<byte>
    requires PartEncodable(p)
    decreases p, 0
  {
    if p.wireType == VARINT then VarintPayload(p.value)
    else if p.wireType == FIXED64 || p.wireType == FIXED32 then p.value.bytes
    else if p.wireType == LENDELIM then
      match p.value
      case BytesValue(b) => VarintBytes(Uint64Of(|b|)) + b
      case PartsValue(ps) =>
        var e := EncodeParts(ps);
        VarintBytes(Uint64Of(|e|)) + e
      case _ => []
    else []
  }

  /** The bytes of one part: its tag, then its payload. */
  function EncodePart(p: Part): seq<byte>
    requires PartEncodable(p)
    decreases p, 1
  {
    VarintBytes(Tag(p.field, p.wireType)) + Payload(p)
  }

  /** The specification of `EncodeProto`: the parts' encodings one after another. */
  function EncodeParts(parts: seq<Part>): seq<byte>
    requires Encodable(parts)
    decreases parts, 2
  {
    if parts == [] then [] else EncodePart(parts[0]) + EncodeParts(parts[1..])
  }

  /** Encoding distributes over concatenation. */
  lemma {:induction false} EncodePartsConcat(a: seq<Part>, b: seq<Part>)
    requires Encodable(a) && Encodable(b)
    ensures Encodable(a + b)
    ensures EncodeParts(a + b) == EncodeParts(a) + EncodeParts(b)
  {
    assert forall i :: 0 <= i < |a + b| ==> (a + b)[i] == if i < |a| then a[i] else b[i - |a|];
    if a != [] {
      assert (a + b)[1..] == a[1..] + b;
      EncodePartsConcat(a[1..], b);
    } else {
      assert a + b == b;
    }
  }

  /** `EncodeProto(parts)`. */
  method EncodeProto(parts: seq<Part>) returns (out: seq<byte>)
    requires Encodable(parts)
    ensures out == EncodeParts(parts)
    decreases PartsValue(parts), 1
  {
    var buffer: seq<byte> := [];
    for i := 0 to |parts|
      invariant buffer == EncodeParts(parts[..i])
    {
      var part := parts[i];
      assert part in parts;
      var tag := EncodeVarint(Tag(part.field, part.wireType));
      var payload := WritePayload(part);
      EncodePartsConcat(parts[..i], [part]);
      assert parts[..i + 1] == parts[..i] + [part];
      buffer := buffer + tag + payload;
    }
    assert parts[..|parts|] == parts;
    out := buffer;
  }

  /** The body of `EncodeProto`'s switch on `part.Type`. */
  method WritePayload(part: Part) returns (out: seq<byte>)
    requires PartEncodable(part)
    ensures out == Payload(part)
    decreases part, 0
  {
    out := [];
    if part.wireType == VARINT {
      match part.value {
        case IntValue(kind, n) =>
          if kind == GoInt && n == 0 {
            out := [0];
          }
          var digits := EncodeVarint(VarintImage(kind, n));
          out := out + digits;
        case _ =>
      }
    } else if part.wireType == FIXED64 {
      out := part.value.bytes;
    } else if part.wireType == LENDELIM {
      match part.value {
        case BytesValue(b) =>
          var length := EncodeVarint(Uint64Of(|b|));
          out := length + b;
        case PartsValue(ps) =>
          var encoded := EncodeProto(ps);
          var length := EncodeVarint(Uint64Of(|encoded|));
          out := length + encoded;
        case _ =>
      }
    } else if part.wireType == FIXED32 {
      out := part.value.bytes;
    }
  }

  // ================================================================ decoding

  /** `int(fieldTypeRaw.Int64() & 0x07)`. */
  function WireTypeOf(tag: nat): WireType {
    Int64Of(tag) % 8
  }

  /** `int(fieldTypeRaw.Int64() >> 3)`: an arithmetic shift, a floor division. */
  function FieldOf(tag: nat): int {
    Int64Of(tag) / 8
  }

  /** The wire types `DecodeProto` accepts: the negation of
      `fieldType > LENDELIM && fieldType != FIXED32`. */
  predicate KnownWireType(wt: WireType) {
    wt <= LENDELIM || wt == FIXED32
  }

  /** Bytes a part's value holds. */
  function PartWeight(p: Part): nat {
    1 + if p.value.BytesValue? then |p.value.bytes| else 0
  }

  /** A measure of parts that decoding `n` bytes can produce: at most `n`. */
  function Weight(parts: seq<Part>): nat {
    if parts == [] then 0 else PartWeight(parts[0]) + Weight(parts[1..])
  }

  /** The payload of a part whose tag has been read, taken from the bytes `rest`
      that follow the tag, and the number of bytes it consumes. A truncated VARINT
      or length varint drains the buffer and leaves the value nil; FIXED64, FIXED32
      and LENDELIM take `min(8 | 4 | length, remaining)` bytes, where a length is
      first reduced to its low 64 bits as `Uint64()` gives them. */
  function ReadPayload(rest: seq<byte>, wt: WireType): (r: (Value, nat))
    requires KnownWireType(wt)
    ensures r.1 <= |rest|
    ensures r.0.BytesValue? ==> |r.0.bytes| <= r.1
  {
    var r := ReadVarint(rest);
    if wt == VARINT then
      if r.None? then (NoValue, |rest|) else (IntValue(BigInt, r.value.0), r.value.1)
    else if wt == FIXED64 then
      var m := Min(8, |rest|);
      (BytesValue(rest[..m]), m)
    else if wt == LENDELIM then
      if r.None? then (NoValue, |rest|)
      else
        var k := r.value.1;
        var m := Min(BigUint64(r.value.0), |rest| - k);
        (BytesValue(rest[k..k + m]), k + m)
    else
      var m := Min(4, |rest|);
      (BytesValue(rest[..m]), m)
  }

  /** A payload value is nil exactly when its varint (the value itself, or a
      LENDELIM length) is truncated, and then the rest of the input is consumed;
      FIXED64 and FIXED32 take the next `min(8 | 4, remaining)` bytes, and a LENDELIM
      payload is the `min(length mod 2^64, remaining)` bytes after its length. */
  lemma PayloadMeaning(rest: seq<byte>, wt: WireType)
    requires KnownWireType(wt)
    ensures var r := ReadPayload(rest, wt);
      (r.0 == NoValue <==> (wt == VARINT || wt == LENDELIM) && ReadVarint(rest).None?) &&
      (r.0 == NoValue ==> r.1 == |rest|) &&
      (wt == VARINT ==> r.0 == NoValue || r.0 == IntValue(BigInt, ReadVarint(rest).value.0)) &&
      (wt == FIXED64 ==> r.0 == BytesValue(rest[..r.1]) && r.1 == Min(8, |rest|)) &&
      (wt == FIXED32 ==> r.0 == BytesValue(rest[..r.1]) && r.1 == Min(4, |rest|)) &&
      (wt == LENDELIM && r.0 != NoValue ==>
         var k := ReadVarint(rest).value.1;
         r.0 == BytesValue(rest[k..r.1]) && r.1 - k == Min(BigUint64(ReadVarint(rest).value.0), |rest| - k))
  {
  }

  /** The body of `DecodeProto`'s switch on `fieldType`, reading from the buffer. */
  method ReadValue(buffer: Buffer, fieldType: WireType) returns (value: Value)
    requires buffer.Valid() && KnownWireType(fieldType)
    modifies buffer
    ensures buffer.Valid()
    ensures (value, old(buffer.Len()) - buffer.Len()) == ReadPayload(old(buffer.Bytes()), fieldType)
    ensures buffer.Bytes() == old(buffer.Bytes())[old(buffer.Len()) - buffer.Len()..]
  {
    ghost var input := buffer.Bytes();
    value := NoValue;
    if fieldType == VARINT {
      var v := DecodeVarint(buffer);
      if v.Some? {
        value := IntValue(BigInt, v.value.0);
      }
      assert (value, |input| - buffer.Len()) == ReadPayload(input, VARINT);
    } else if fieldType == FIXED64 {
      var b := buffer.Next(8);
      value := BytesValue(b);
      assert (value, |input| - buffer.Len()) == ReadPayload(input, FIXED64);
    } else if fieldType == LENDELIM {
      value := ReadLengthDelimited(buffer);
    } else {
      var b := buffer.Next(4);
      value := BytesValue(b);
      assert (value, |input| - buffer.Len()) == ReadPayload(input, FIXED32);
    }
  }

  /** The LENDELIM case of `ReadValue`: a length varint, then as many bytes as its
      low 64 bits say, or as many as remain. */
  method ReadLengthDelimited(buffer: Buffer) returns (value: Value)
    requires buffer.Valid()
    modifies buffer
    ensures buffer.Valid()
    ensures (value, old(buffer.Len()) - buffer.Len()) == ReadPayload(old(buffer.Bytes()), LENDELIM)
    ensures buffer.Bytes() == old(buffer.Bytes())[old(buffer.Len()) - buffer.Len()..]
  {
    ghost var input := buffer.Bytes();
    var length := DecodeVarint(buffer);
    if length.None? {
      return NoValue;
    }
    ghost var mid := buffer.Bytes();
    var b := buffer.Next(BigUint64(length.value.0));
    value := BytesValue(b);
    assert mid == input[length.value.1..];
    assert b == input[length.value.1..length.value.1 + |b|];
  }

  /** One iteration of the `DecodeProto` loop at offset `off`: either it stops,
      leaving `leftOver` unparsed, or it emits a part and continues at `next`. */
  datatype Step = Stop(leftOver: seq<byte>) | Emit(part: Part, next: nat)

  function DecodeStep(data: seq<byte>, off: nat): (st: Step)
    requires off < |data|
    ensures st.Emit? ==> off < st.next <= |data|
  {
    var tag := ReadVarint(data[off..]);
    if tag.None? then Stop([])
    else
      var n := tag.value.1;
      var wt := WireTypeOf(tag.value.0);
      if !KnownWireType(wt) then Stop(data[off + n..])
      else
        var payload := ReadPayload(data[off + n..], wt);
        var q := off + n + payload.1;
        Emit(Part(Some(ByteRange(off, q)), wt, FieldOf(tag.value.0), payload.0), q)
  }

  /** The specification of the `DecodeProto` loop from offset `off` on. */
  function DecodeFrom(data: seq<byte>, off: nat): ProtoDecoded
    requires off <= |data|
    decreases |data| - off
  {
    if off == |data| then ProtoDecoded([], [])
    else
      match DecodeStep(data, off)
      case Stop(leftOver) => ProtoDecoded([], leftOver)
      case Emit(part, q) =>
        var rest := DecodeFrom(data, q);
        ProtoDecoded([part] + rest.parts, rest.leftOver)
  }

  /** `DecodeFrom` after a step that emits a part. */
  lemma DecodeFromEmit(data: seq<byte>, off: nat, part: Part, next: nat)
    requires off < |data| && DecodeStep(data, off) == Emit(part, next)
    ensures next <= |data|
    ensures DecodeFrom(data, off) ==
      ProtoDecoded([part] + DecodeFrom(data, next).parts, DecodeFrom(data, next).leftOver)
  {
  }

  /** `DecodeFrom` after a step that stops. */
  lemma DecodeFromStop(data: seq<byte>, off: nat, leftOver: seq<byte>)
    requires off < |data| && DecodeStep(data, off) == Stop(leftOver)
    ensures DecodeFrom(data, off) == ProtoDecoded([], leftOver)
  {
  }

  /** The specification of `DecodeProto`. */
  function DecodeParts(data: seq<byte>): ProtoDecoded {
    DecodeFrom(data, 0)
  }

  /** The `DecodeProto` loop's invariant: the parts found so far, followed by what
      decoding from `pos` yields, make up the whole decoding. */
  ghost predicate LoopState(data: seq<byte>, parts: seq<Part>, pos: nat) {
    pos <= |data| &&
    var rest := DecodeFrom(data, pos);
    DecodeParts(data) == ProtoDecoded(parts + rest.parts, rest.leftOver)
  }

  lemma LoopEmit(data: seq<byte>, parts: seq<Part>, pos: nat, part: Part, next: nat)
    requires LoopState(data, parts, pos)
    requires pos < |data| && DecodeStep(data, pos) == Emit(part, next)
    ensures LoopState(data, parts + [part], next)
  {
    DecodeFromEmit(data, pos, part, next);
    var rest := DecodeFrom(data, next);
    assert (parts + [part]) + rest.parts == parts + ([part] + rest.parts);
  }

  lemma LoopStop(data: seq<byte>, parts: seq<Part>, pos: nat, leftOver: seq<byte>)
    requires LoopState(data, parts, pos)
    requires pos < |data| && DecodeStep(data, pos) == Stop(leftOver)
    ensures DecodeParts(data) == ProtoDecoded(parts, leftOver)
  {
    DecodeFromStop(data, pos, leftOver);
    assert parts + [] == parts;
  }

  lemma LoopEnd(data: seq<byte>, parts: seq<Part>)
    requires LoopState(data, parts, |data|)
    ensures DecodeParts(data) == ProtoDecoded(parts, [])
  {
    assert parts + [] == parts;
  }

  /** The step at `off` once its tag and payload have been read. */
  lemma StepAt(data: seq<byte>, off: nat, tag: nat, n: nat, value: Value, k: nat)
    requires off < |data| && ReadVarint(data[off..]) == Some((tag, n))
    requires KnownWireType(WireTypeOf(tag)) && off + n <= |data|
    requires ReadPayload(data[off + n..], WireTypeOf(tag)) == (value, k)
    ensures DecodeStep(data, off) ==
      Emit(Part(Some(ByteRange(off, off + n + k)), WireTypeOf(tag), FieldOf(tag), value), off + n + k)
  {
  }

  /** A part the loop emits records the range it was read from, and its value holds
      fewer bytes than that range. */
  lemma StepEmits(data: seq<byte>, off: nat)
    requires off < |data| && DecodeStep(data, off).Emit?
    ensures var st := DecodeStep(data, off);
      st.part.byteRange == Some(ByteRange(off, st.next)) && PartWeight(st.part) <= st.next - off
  {
  }

  /** The loop stops without adding a part exactly on an undecodable tag, leaving
      nothing over, or on a wire type other than 0, 1, 2 and 5, leaving the bytes
      after the tag over. */
  lemma StepStops(data: seq<byte>, off: nat)
    requires off < |data|
    ensures var st := DecodeStep(data, off);
      var tag := ReadVarint(data[off..]);
      (st.Stop? <==> tag.None? || !KnownWireType(WireTypeOf(tag.value.0))) &&
      (st.Stop? && tag.None? ==> st.leftOver == []) &&
      (st.Stop? && tag.Some? ==> st.leftOver == data[off + tag.value.1..])
  {
  }

  /** Where the range of a decoded part starts and ends. */
  function Start(p: Part): nat {
    if p.byteRange.Some? then p.byteRange.value.start else 0
  }

  function End(p: Part): nat {
    if p.byteRange.Some? then p.byteRange.value.end else 0
  }

  /** The offset at which decoding from `off` stopped: the end of the last part. */
  function StopOffset(parts: seq<Part>, off: nat): nat {
    if parts == [] then off else End(parts[|parts| - 1])
  }

  /** Every decoded part is exactly what one step of the loop reads at the start
      of its byte range, and that range is non-empty and within the input. */
  lemma {:induction false} DecodedPartsAreSteps(data: seq<byte>, off: nat)
    requires off <= |data|
    ensures var ps := DecodeFrom(data, off).parts;
      forall i :: 0 <= i < |ps| ==>
        ps[i].byteRange.Some? && off <= Start(ps[i]) < End(ps[i]) <= |data| &&
        DecodeStep(data, Start(ps[i])) == Emit(ps[i], End(ps[i]))
    decreases |data| - off
  {
    if off < |data| {
      var st := DecodeStep(data, off);
      if st.Emit? {
        StepEmits(data, off);
        DecodeFromEmit(data, off, st.part, st.next);
        DecodedPartsAreSteps(data, st.next);
        var rest := DecodeFrom(data, st.next).parts;
        var ps := [st.part] + rest;
        assert forall i :: 0 < i < |ps| ==> ps[i] == rest[i - 1];
      } else {
        DecodeFromStop(data, off, st.leftOver);
      }
    }
  }

  /** The byte ranges of the decoded parts tile `data[off..StopOffset]`: the first
      starts at `off` and each starts where the previous one ended. */
  lemma {:induction false} DecodedRangesTile(data: seq<byte>, off: nat)
    requires off <= |data|
    ensures var ps := DecodeFrom(data, off).parts;
      (ps != [] ==> Start(ps[0]) == off) &&
      (forall i :: 0 < i < |ps| ==> Start(ps[i]) == End(ps[i - 1])) &&
      off <= StopOffset(ps, off) <= |data|
    decreases |data| - off
  {
    if off < |data| {
      var st := DecodeStep(data, off);
      if st.Emit? {
        StepEmits(data, off);
        DecodeFromEmit(data, off, st.part, st.next);
        DecodedRangesTile(data, st.next);
        var rest := DecodeFrom(data, st.next).parts;
        var ps := [st.part] + rest;
        assert forall i :: 0 < i < |ps| ==> ps[i] == rest[i - 1];
        assert StopOffset(ps, off) == StopOffset(rest, st.next);
      } else {
        DecodeFromStop(data, off, st.leftOver);
      }
    }
  }

  /** After the last part, decoding stopped because the input was used up, with
      nothing left over, or because the loop's step there stops; its leftover is
      the result's. */
  lemma {:induction false} DecodeStopsAt(data: seq<byte>, off: nat)
    requires off <= |data|
    ensures var d := DecodeFrom(data, off);
      var e := StopOffset(d.parts, off);
      off <= e <= |data| &&
      ((e == |data| && d.leftOver == []) || (e < |data| && DecodeStep(data, e) == Stop(d.leftOver)))
    decreases |data| - off
  {
    if off < |data| {
      var st := DecodeStep(data, off);
      if st.Emit? {
        StepEmits(data, off);
        DecodeFromEmit(data, off, st.part, st.next);
        DecodeStopsAt(data, st.next);
        var rest := DecodeFrom(data, st.next).parts;
        assert StopOffset([st.part] + rest, off) == StopOffset(rest, st.next);
      } else {
        DecodeFromStop(data, off, st.leftOver);
      }
    }
  }

  /** `LeftOver` is a suffix of the input, after every decoded part. */
  lemma LeftOverIsSuffix(data: seq<byte>)
    ensures var d := DecodeParts(data);
      |d.leftOver| <= |data| - StopOffset(d.parts, 0) &&
      d.leftOver == data[|data| - |d.leftOver|..]
  {
    DecodeStopsAt(data, 0);
    var d := DecodeParts(data);
    var e := StopOffset(d.parts, 0);
    if e < |data| {
      StepStops(data, e);
      var tag := ReadVarint(data[e..]);
      if tag.Some? {
        assert d.leftOver == data[e + tag.value.1..];
      }
    }
  }

  /** Decoding `n` bytes yields parts of weight at most `n`: each part consumes its
      tag and at least its payload's bytes. */
  lemma {:induction false} DecodeWeight(data: seq<byte>, off: nat)
    requires off <= |data|
    ensures Weight(DecodeFrom(data, off).parts) <= |data| - off
    decreases |data| - off
  {
    if off < |data| {
      var st := DecodeStep(data, off);
      if st.Emit? {
        StepEmits(data, off);
        DecodeFromEmit(data, off, st.part, st.next);
        DecodeWeight(data, st.next);
        var ps := [st.part] + DecodeFrom(data, st.next).parts;
        assert ps[1..] == DecodeFrom(data, st.next).parts;
      } else {
        DecodeFromStop(data, off, st.leftOver);
      }
    }
  }

  // ================================================================ round trip

  /** Field numbers below 2^60 keep the tag below 2^63, where `Int64()` is exact. */
  const FIELD_LIMIT: int := 0x1000_0000_0000_0000

  lemma TagRoundTrip(field: int, wt: WireType)
    requires 1 <= field < FIELD_LIMIT
    ensures Tag(field, wt) > 0
    ensures WireTypeOf(Tag(field, wt)) == wt && FieldOf(Tag(field, wt)) == field
  {
    assert 0 < field * 8 + wt < TWO_63;
  }

  /** What `DecodeProto` returns as the value of a part `EncodeProto` wrote: every
      integer comes back as a `*big.Int` holding the 64-bit image that was written,
      and nested parts come back as their encoded bytes. */
  function DecodedValue(p: Part): Value
    requires RoundTrips(p)
  {
    match p.value
    case IntValue(kind, n) => IntValue(BigInt, VarintImage(kind, n))
    case PartsValue(qs) => BytesValue(EncodeParts(qs))
    case v => v
  }

  /** The parts whose encoding decodes back to them: a field number the tag can
      carry (at least 1), a wire type the decoder accepts, a VARINT value whose
      image is positive or a Go `int` zero (which gets its explicit 0x00), FIXED
      payloads of exactly 8 or 4 bytes, and a non-empty LENDELIM payload. */
  predicate RoundTrips(p: Part) {
    && 1 <= p.field < FIELD_LIMIT
    && KnownWireType(p.wireType)
    && PartEncodable(p)
    && (p.wireType == VARINT ==>
          p.value.IntValue? &&
          (VarintImage(p.value.kind, p.value.n) > 0 || (p.value.kind == GoInt && p.value.n == 0)))
    && (p.wireType == FIXED64 ==> |p.value.bytes| == 8)
    && (p.wireType == FIXED32 ==> |p.value.bytes| == 4)
    && (p.wireType == LENDELIM ==>
          match p.value
          case BytesValue(b) => 0 < |b| < TWO_64
          case PartsValue(qs) => 0 < |EncodeParts(qs)| < TWO_64
          case _ => false)
  }

  /** Every part of `ps` round-trips; then `ps` can be encoded. */
  predicate AllRoundTrip(ps: seq<Part>)
    ensures AllRoundTrip(ps) ==> Encodable(ps)
  {
    forall i :: 0 <= i < |ps| ==> RoundTrips(ps[i])
  }

  /** The explicit zero byte of a Go `int` zero reads back as the varint 0. */
  lemma ReadZeroByte(rest: seq<byte>)
    ensures ReadVarint([0] + rest) == Some((0, 1))
  {
    assert ([0] + rest)[..1] == [0];
    GroupsCons(0, []);
    assert [0] + [] == [0];
  }

  /** A length prefix followed by that many bytes reads back as those bytes. */
  lemma LengthDelimitedRoundTrip(b: seq<byte>, tail: seq<byte>)
    requires 0 < |b| < TWO_64
    ensures ReadPayload(VarintBytes(Uint64Of(|b|)) + b + tail, LENDELIM) ==
            (BytesValue(b), |VarintBytes(Uint64Of(|b|))| + |b|)
  {
    var prefix := VarintBytes(|b|);
    assert prefix + b + tail == prefix + (b + tail);
    VarintRoundTrip(|b|, b + tail);
    assert (prefix + (b + tail))[|prefix|..|prefix| + |b|] == b;
  }

  lemma PayloadRoundTrip(p: Part, tail: seq<byte>)
    requires RoundTrips(p)
    ensures ReadPayload(Payload(p) + tail, p.wireType) == (DecodedValue(p), |Payload(p)|)
  {
    if p.wireType == VARINT {
      var image := VarintImage(p.value.kind, p.value.n);
      if p.value.kind == GoInt && p.value.n == 0 {
        assert Payload(p) == [0];
        ReadZeroByte(tail);
      } else {
        assert Payload(p) == VarintBytes(image);
        VarintRoundTrip(image, tail);
      }
    } else if p.wireType == FIXED64 || p.wireType == FIXED32 {
      assert (Payload(p) + tail)[..|Payload(p)|] == Payload(p);
    } else {
      match p.value
      case BytesValue(b) =>
        LengthDelimitedRoundTrip(b, tail);
      case PartsValue(qs) =>
        LengthDelimitedRoundTrip(EncodeParts(qs), tail);
    }
  }

  /** Bytes that start with an encoded part read back as its tag, then its
      payload. */
  lemma PartBytesRoundTrip(p: Part, s: seq<byte>)
    requires RoundTrips(p)
    requires |EncodePart(p)| <= |s| && s[..|EncodePart(p)|] == EncodePart(p)
    ensures var tag := Tag(p.field, p.wireType);
      var n := |VarintBytes(tag)|;
      WireTypeOf(tag) == p.wireType && FieldOf(tag) == p.field &&
      ReadVarint(s) == Some((tag, n)) &&
      n + |Payload(p)| == |EncodePart(p)| &&
      ReadPayload(s[n..], p.wireType) == (DecodedValue(p), |Payload(p)|)
  {
    var tag := Tag(p.field, p.wireType);
    var n := |VarintBytes(tag)|;
    var tail := s[|EncodePart(p)|..];
    TagRoundTrip(p.field, p.wireType);
    assert s == VarintBytes(tag) + (Payload(p) + tail);
    VarintRoundTrip(tag, Payload(p) + tail);
    assert s[n..] == Payload(p) + tail;
    PayloadRoundTrip(p, tail);
  }

  /** `decoded` holds, in order, the field, wire type and value `DecodeProto`
      returns for each part of `ps`. */
  predicate Recovers(decoded: seq<Part>, ps: seq<Part>)
    requires AllRoundTrip(ps)
  {
    |decoded| == |ps| &&
    forall i :: 0 <= i < |ps| ==>
      decoded[i].field == ps[i].field && decoded[i].wireType == ps[i].wireType &&
      decoded[i].value == DecodedValue(ps[i])
  }

  lemma RecoversCons(part: Part, decoded: seq<Part>, ps: seq<Part>)
    requires ps != [] && AllRoundTrip(ps) && AllRoundTrip(ps[1..])
    requires part.field == ps[0].field && part.wireType == ps[0].wireType
    requires part.value == DecodedValue(ps[0])
    requires Recovers(decoded, ps[1..])
    ensures Recovers([part] + decoded, ps)
  {
    assert forall i :: 1 <= i < |ps| ==> ([part] + decoded)[i] == decoded[i - 1] && ps[i] == ps[1..][i - 1];
  }

  lemma {:induction false} DecodeEncodedFrom(data: seq<byte>, off: nat, ps: seq<Part>)
    requires AllRoundTrip(ps)
    requires off <= |data| && data[off..] == EncodeParts(ps)
    ensures DecodeFrom(data, off).leftOver == []
    ensures Recovers(DecodeFrom(data, off).parts, ps)
    decreases ps
  {
    if ps != [] {
      var e := EncodePart(ps[0]);
      var q := off + |e|;
      var s := data[off..];
      assert s == e + EncodeParts(ps[1..]);
      assert s[..|e|] == e;
      PartBytesRoundTrip(ps[0], s);
      var tag := Tag(ps[0].field, ps[0].wireType);
      var n := |VarintBytes(tag)|;
      assert s[n..] == data[off + n..];
      StepAt(data, off, tag, n, DecodedValue(ps[0]), |Payload(ps[0])|);
      assert data[q..] == EncodeParts(ps[1..]);
      assert AllRoundTrip(ps[1..]) by {
        assert forall i :: 0 <= i < |ps| - 1 ==> ps[1..][i] == ps[i + 1];
      }
      DecodeEncodedFrom(data, q, ps[1..]);
      var st := DecodeStep(data, off);
      var part := st.part;
      assert st.next == q;
      DecodeFromEmit(data, off, part, q);
      RecoversCons(part, DecodeFrom(data, q).parts, ps);
    }
  }

  /** `DecodeProto(EncodeProto(ps))` returns every part's field, wire type and value
      (as `DecodedValue` says it comes back) in order, and leaves nothing over. */
  lemma EncodeDecodeRoundTrip(ps: seq<Part>)
    requires AllRoundTrip(ps)
    ensures DecodeParts(EncodeParts(ps)).leftOver == []
    ensures Recovers(DecodeParts(EncodeParts(ps)).parts, ps)
  {
    var data := EncodeParts(ps);
    assert data[0..] == data;
    DecodeEncodedFrom(data, 0, ps);
  }

  /** `DecodeProto(data)`. */
  method DecodeProto(data: seq<byte>) returns (response: ProtoDecoded)
    ensures response == DecodeParts(data)
  {
    var buffer := new Buffer(data);
    var parts: seq<Part> := [];
    var totalBytes := buffer.Len();
    ghost var pos: nat := 0;
    assert parts + DecodeFrom(data, 0).parts == DecodeFrom(data, 0).parts;
    while buffer.Len() > 0
      invariant pos <= |data| && buffer.Valid() && buffer.Bytes() == data[pos..]
      invariant LoopState(data, parts, pos)
      decreases |data| - pos
    {
      var part;
      ghost var next;
      part, next := ReadPart(buffer, totalBytes, data, pos);
      if part.None? {
        LoopStop(data, parts, pos, data[next..]);
        response := ProtoDecoded(parts, buffer.Bytes());
        return;
      }
      LoopEmit(data, parts, pos, part.value, next);
      parts := parts + [part.value];
      pos := next;
    }
    LoopEnd(data, parts);
    response := ProtoDecoded(parts, buffer.Bytes());
  }

  /** One iteration of the `DecodeProto` loop on a non-empty buffer holding
      `data[pos..]`, with `totalBytes == |data|`: `None` where the loop breaks, leaving
      the buffer's remaining bytes, from `next` on, as the leftover. */
  method ReadPart(buffer: Buffer, totalBytes: nat, ghost data: seq<byte>, ghost pos: nat)
    returns (part: Option<Part>, ghost next: nat)
    requires totalBytes == |data| && pos < |data|
    requires buffer.Valid() && buffer.Bytes() == data[pos..]
    modifies buffer
    ensures pos < next <= |data|
    ensures buffer.Valid() && buffer.Bytes() == data[next..]
    ensures DecodeStep(data, pos) == if part.Some? then Emit(part.value, next) else Stop(data[next..])
  {
    var start := totalBytes - buffer.Len();
    var fieldTypeRaw := DecodeVarint(buffer);
    StepStops(data, pos);
    if fieldTypeRaw.None? {
      assert data[|data|..] == [];
      return None, |data|;
    }
    var tag := fieldTypeRaw.value.0;
    ghost var afterTag := start + fieldTypeRaw.value.1;
    assert data[start..][fieldTypeRaw.value.1..] == data[afterTag..];
    if WireTypeOf(tag) > LENDELIM && WireTypeOf(tag) != FIXED32 {
      return None, afterTag;
    }
    var p;
    p, next := ReadKnownPart(buffer, totalBytes, data, pos, tag, fieldTypeRaw.value.1);
    part := Some(p);
  }

  /** The rest of a `DecodeProto` iteration once a tag with a wire type of 0, 1, 2 or
      5 has been read from `data[pos..]`, taking `n` bytes: the payload read into a part
      that records its byte range. */
  method ReadKnownPart(buffer: Buffer, totalBytes: nat, ghost data: seq<byte>, ghost pos: nat,
                       tag: nat, n: nat)
    returns (part: Part, ghost next: nat)
    requires totalBytes == |data| && pos < |data| && ReadVarint(data[pos..]) == Some((tag, n))
    requires KnownWireType(WireTypeOf(tag))
    requires buffer.Valid() && buffer.Bytes() == data[pos + n..]
    modifies buffer
    ensures pos < next <= |data|
    ensures buffer.Valid() && buffer.Bytes() == data[next..]
    ensures DecodeStep(data, pos) == Emit(part, next)
  {
    var start := totalBytes - buffer.Len() - n;
    var value := ReadValue(buffer, WireTypeOf(tag));
    var end := totalBytes - buffer.Len();
    ghost var afterTag := pos + n;
    assert data[afterTag..][end - afterTag..] == data[end..];
    StepAt(data, pos, tag, n, value, end - afterTag);
    part, next := Part(Some(ByteRange(start, end)), WireTypeOf(tag), FieldOf(tag), value), end;
  }
}
