/** The struct layer of protobuf.go: `EncodeProtoStruct` and `DecodeToProtoStruct`
    map between parts and the fields of a Go struct whose fields carry a
    `protoField:"<n>"` tag, and `EncodeStruct` / `DecodeStruct` chain them with the
    wire codec. Reflection is replaced by an explicit field table: a record is the
    sequence of its fields in declaration order, each with its parsed tag, whether
    it is exported, and its typed value. */
module Records {
  import opened Numerics
  import opened Wrappers
  import opened Structs
  import opened Utils
  import opened Wire
  import opened Inference

  // ============================================================== field table

  /** The two signed kinds whose values the mapping reads and writes: `int` and
      `int64` (64 bits wide on the platforms the core targets). */
  datatype SignedType = GoIntType | Int64Type

  /** The unsigned kinds: `uint` and `uint64`. */
  datatype UnsignedType = GoUintType | Uint64Type

  /** A field's Go type together with its current value. `FloatField` holds the
      little-endian bit pattern of a `float32` (`wide` false, 4 bytes) or `float64`
      (8 bytes) as an opaque byte string. `ListField` is a `[]interface{}`.
      `PointerField` is a pointer to a struct: `zero` is the zero value of the
      struct type it points to (what `reflect.New` allocates), `target` what it
      points to now; the datatype does not force `zero` to be a zero value, and
      the round-trip lemmas require it to be `ZeroSlots` of the struct pointed to
      through `PointeeTransparent`. `OtherField` is a field of any kind the
      mapping supports neither way (a map, a channel, a func, ...). */
  datatype FieldValue =
    | SignedField(signed: SignedType, n: int)
    | UnsignedField(unsigned: UnsignedType, u: nat)
    | StringField(s: seq<byte>)
    | BoolField(flag: bool)
    | BytesField(bytes: seq<byte>)
    | ListField(items: seq<Item>)
    | FloatField(wide: bool, bits: seq<byte>)
    | StructField(fields: seq<Slot>)
    | PointerField(zero: seq<Slot>, target: Pointee)
    | OtherField

  /** What a pointer field points to: nothing (nil) or a struct's fields. */
  datatype Pointee = Nil | Points(fields: seq<Slot>)

  /** One struct field: its `protoField` tag as `strconv.Atoi` parses it (`None`
      when the tag is missing, empty or not a number), whether it is exported
      (settable through reflection), and its value. */
  datatype Slot = Slot(tag: Option<int>, exported: bool, value: FieldValue)

  /** The zero value of a field's type. */
  function ZeroValue(v: FieldValue): FieldValue
    decreases v
  {
    match v
    case SignedField(t, _) => SignedField(t, 0)
    case UnsignedField(t, _) => UnsignedField(t, 0)
    case StringField(_) => StringField([])
    case BoolField(_) => BoolField(false)
    case BytesField(_) => BytesField([])
    case ListField(_) => ListField([])
    case FloatField(wide, _) => FloatField(wide, if wide then [0, 0, 0, 0, 0, 0, 0, 0] else [0, 0, 0, 0])
    case StructField(fields) => StructField(ZeroSlots(fields))
    case PointerField(zero, _) => PointerField(zero, Nil)
    case OtherField => OtherField
  }

  function ZeroSlot(s: Slot): Slot
    decreases s
  {
    s.(value := ZeroValue(s.value))
  }

  /** The zero value of a struct type: the same fields, each holding its zero. */
  function ZeroSlots(slots: seq<Slot>): (r: seq<Slot>)
    decreases slots
    ensures |r| == |slots|
    ensures forall i :: 0 <= i < |slots| ==> r[i] == ZeroSlot(slots[i])
  {
    if slots == [] then [] else [ZeroSlot(slots[0])] + ZeroSlots(slots[1..])
  }

  // ======================================================== EncodeProtoStruct

  /** `EncodeProtoStruct` reads every field with `Interface()`, which panics on an
      unexported field, and encodes a tagged pointer through `Elem()`, which
      panics on a nil pointer to a struct that has fields. */
  predicate SlotEncodeReady(s: Slot)
    decreases s
  {
    s.exported && (s.tag.Some? ==> ValueEncodeReady(s.value))
  }

  predicate ValueEncodeReady(v: FieldValue)
    decreases v
  {
    match v
    case StructField(fields) => EncodeReady(fields)
    case PointerField(zero, target) => PointeeEncodeReady(target, zero)
    case _ => true
  }

  predicate PointeeEncodeReady(t: Pointee, zero: seq<Slot>)
    decreases t
  {
    if t.Points? then EncodeReady(t.fields) else zero == []
  }

  predicate EncodeReady(slots: seq<Slot>)
    decreases slots
  {
    forall i :: 0 <= i < |slots| ==> SlotEncodeReady(slots[i])
  }

  /** Whether `EncodeProtoStruct` skips a field with a parsed tag: an empty string,
      a `uint` (absent from its type switch) and an unsupported kind. */
  predicate Skipped(v: FieldValue) {
    v == StringField([]) || v.OtherField? || (v.UnsignedField? && v.unsigned == GoUintType)
  }

  /** The wire type `EncodeProtoStruct` gives each kind of field. */
  function WireTypeFor(v: FieldValue): WireType {
    match v
    case SignedField(_, _) => VARINT
    case UnsignedField(_, _) => VARINT
    case BoolField(_) => VARINT
    case FloatField(wide, _) => if wide then FIXED64 else FIXED32
    case _ => LENDELIM
  }

  /** The part `EncodeProtoStruct` appends for one field, if any. */
  function SlotPart(s: Slot): (r: Option<Part>)
    requires SlotEncodeReady(s)
    decreases s, 0
    ensures r.None? <==> s.tag.None? || Skipped(s.value)
    ensures r.Some? ==>
      r.value.byteRange.None? && r.value.field == s.tag.value &&
      r.value.wireType == WireTypeFor(s.value) && PartEncodable(r.value)
  {
    if s.tag.None? then None else ValuePart(s.tag.value, s.value)
  }

  /** The part for a field with tag `f` holding `v`. */
  function ValuePart(f: int, v: FieldValue): (r: Option<Part>)
    requires ValueEncodeReady(v)
    decreases v
    ensures r.None? <==> Skipped(v)
    ensures r.Some? ==>
      r.value.byteRange.None? && r.value.field == f &&
      r.value.wireType == WireTypeFor(v) && PartEncodable(r.value)
  {
      match v
      case SignedField(t, n) =>
        Some(Part(None, VARINT, f, IntValue(if t == GoIntType then GoInt else Int64, n)))
      case UnsignedField(t, n) =>
        if t == Uint64Type then Some(Part(None, VARINT, f, IntValue(Uint64, n))) else None
      case StringField(str) =>
        if str == [] then None else Some(Part(None, LENDELIM, f, BytesValue(str)))
      case BoolField(flag) => Some(Part(None, VARINT, f, IntValue(GoInt, if flag then 1 else 0)))
      case BytesField(b) => Some(Part(None, LENDELIM, f, BytesValue(b)))
      case ListField(items) => Some(Part(None, LENDELIM, f, PartsValue(ArrayToProtoParts(items))))
      case FloatField(wide, bits) => Some(Part(None, if wide then FIXED64 else FIXED32, f, BytesValue(bits)))
      case StructField(fields) => Some(Part(None, LENDELIM, f, PartsValue(EncodeProtoStruct(fields))))
      case PointerField(zero, target) => Some(Part(None, LENDELIM, f, PartsValue(PointeeParts(target, zero))))
      case OtherField => None
  }

  /** What `EncodeProtoStruct` gives for a pointer: the parts of the struct it
      points to; nil only reaches here for a struct type with no fields. */
  function PointeeParts(t: Pointee, zero: seq<Slot>): (r: seq<Part>)
    requires PointeeEncodeReady(t, zero)
    decreases t
    ensures Encodable(r)
  {
    if t.Points? then EncodeProtoStruct(t.fields) else []
  }

  /** The parts of one field: none or one. */
  function SlotParts(s: Slot): (r: seq<Part>)
    requires SlotEncodeReady(s)
    decreases s, 1
  {
    if SlotPart(s).Some? then [SlotPart(s).value] else []
  }

  /** `EncodeProtoStruct`: the fields' parts in declaration order. */
  function EncodeProtoStruct(slots: seq<Slot>): (r: seq<Part>)
    requires EncodeReady(slots)
    decreases slots
    ensures Encodable(r)
  {
    if slots == [] then []
    else SlotParts(slots[0]) + EncodeProtoStruct(slots[1..])
  }

  /** `EncodeStruct`: `EncodeProto(EncodeProtoStruct(data))`. */
  method EncodeStruct(slots: seq<Slot>) returns (out: seq<byte>)
    requires EncodeReady(slots)
    ensures out == EncodeParts(EncodeProtoStruct(slots))
  {
    var parts := EncodeProtoStruct(slots);
    out := EncodeProto(parts);
  }

  // ====================================================== DecodeToProtoStruct

  /** The errors `DecodeToProtoStruct` returns. `VarintEOF` is the error of
      `decodeVarint` on a `[]byte` value with no terminating byte. */
  datatype DecodeError = NotAStruct | VarintEOF | UnsupportedFieldType

  /** How decoding ends: normally, with an error, or in a panic of the Go code
      (which callers must rule out). */
  datatype Status = Ok | Failed(err: DecodeError) | Panicked

  /** A field's new value and what it does to the decoding loop. */
  datatype Update = Update(value: FieldValue, status: Status)

  /** The record after decoding, and how decoding ended. */
  datatype Outcome = Outcome(slots: seq<Slot>, status: Status)

  /** `getPartByFieldNum`: the first part with field number `num`. */
  function FindPart(parts: seq<Part>, num: int): (r: Option<Part>)
    ensures r.None? <==> forall i :: 0 <= i < |parts| ==> parts[i].field != num
    ensures r.Some? ==> r.value in parts && r.value.field == num
  {
    if parts == [] then None
    else if parts[0].field == num then Some(parts[0])
    else FindPart(parts[1..], num)
  }

  /** `getPartByFieldNum`, as the loop of the closure. */
  method GetPartByFieldNum(parts: seq<Part>, num: int) returns (r: Option<Part>)
    ensures r == FindPart(parts, num)
  {
    var i := 0;
    while i < |parts|
      invariant i <= |parts|
      invariant FindPart(parts[i..], num) == FindPart(parts, num)
    {
      if parts[i].field == num {
        return Some(parts[i]);
      }
      assert parts[i..][1..] == parts[i + 1..];
      i := i + 1;
    }
    assert parts[i..] == [];
    r := None;
  }

  /** What a type switch on a part's value yields: `Skip` for the `default: continue`
      branch, `Fails` where `decodeVarint` returns an error. */
  datatype Reading<T> = Skip | Fails | Read(value: T)

  /** The `int64` an `int`/`int64` field takes: `Int64()` of a `*big.Int`,
      `int64(v)` of an `int` or `int64`, `Int64()` of the varint a `[]byte` holds;
      a `uint64` value or anything else leaves the field alone. */
  function SignedReading(v: Value): Reading<int> {
    match v
    case IntValue(kind, n) => if kind == Uint64 then Skip else Read(Int64Of(n))
    case BytesValue(b) =>
      (match ReadVarint(b)
       case None => Fails
       case Some((x, _)) => Read(Int64Of(x)))
    case _ => Skip
  }

  /** The `uint64` a `uint`/`uint64` field takes: `Uint64()` of a `*big.Int`,
      `uint64(v)` of an `int` or `int64`, `Uint64()` of the varint a `[]byte` holds;
      again a `uint64` value leaves the field alone. */
  function UnsignedReading(v: Value): Reading<nat> {
    match v
    case IntValue(kind, n) =>
      if kind == BigInt then Read(BigUint64(n)) else if kind == Uint64 then Skip else Read(Uint64Of(n))
    case BytesValue(b) =>
      (match ReadVarint(b)
       case None => Fails
       case Some((x, _)) => Read(BigUint64(x)))
    case _ => Skip
  }

  /** The bool a `bool` field takes, as protobuf.go computes it. In the case for
      Go integers `v` is still an `interface{}`, so `v != 0` compares it with the
      `int` 0: an `int` gives `n != 0`, but an `int64` or `uint64` never equals an
      `int` and always gives true. A `*big.Int` gives `Sign() != 0`, a `[]byte`
      whether its varint is non-zero, and anything else false. */
  function BoolReadingAsWritten(v: Value): Reading<bool> {
    match v
    case IntValue(kind, n) => Read(if kind == Int64 || kind == Uint64 then true else n != 0)
    case BytesValue(b) =>
      (match ReadVarint(b)
       case None => Fails
       case Some((x, _)) => Read(x != 0))
    case _ => Read(false)
  }

  /** As written, an `int64` or `uint64` zero in a VARINT part sets a bool field to
      true. */
  lemma Int64ZeroReadsTrue(flag: bool, field: int, kind: IntKind)
    requires kind == Int64 || kind == Uint64
    ensures BoolReadingAsWritten(IntValue(kind, 0)) == Read(true)
    ensures ApplyPart(BoolField(flag), Part(None, VARINT, field, IntValue(kind, 0))) == Update(BoolField(true), Ok)
  {
  }

  /** The bool a `bool` field takes, with every integer compared with zero as the
      case evidently intends; otherwise as `BoolReadingAsWritten`. The decoder as
      modelled keeps the reading as written. */
  function BoolReading(v: Value): Reading<bool> {
    match v
    case IntValue(_, n) => Read(n != 0)
    case BytesValue(b) =>
      (match ReadVarint(b)
       case None => Fails
       case Some((x, _)) => Read(x != 0))
    case _ => Read(false)
  }

  /** The elements of a `[]interface{}` field set from a `[]byte` payload: the
      payload's parts' values, each `*big.Int` turned into its `Int64()`. A nil
      value makes `reflect.ValueOf(nil).Type()` panic, and the result is `None`. */
  function ConvertedItems(parts: seq<Part>): (r: Option<seq<Item>>)
    ensures r.None? <==> exists i :: 0 <= i < |parts| && parts[i].value.NoValue?
    ensures r.Some? ==> |r.value| == |parts|
  {
    if parts == [] then Some([])
    else
      var rest := ConvertedItems(parts[1..]);
      var item := match parts[0].value
        case NoValue => None
        case IntValue(kind, n) => Some(if kind == BigInt then IntItem(Int64, Int64Of(n)) else IntItem(kind, n))
        case BytesValue(b) => Some(BytesItem(b))
        case PartsValue(ps) => Some(PartsItem(ps));
      assert forall i :: 0 < i < |parts| ==> parts[i] == parts[1..][i - 1];
      if item.Some? && rest.Some? then Some([item.value] + rest.value) else None
  }

  /** Whether a part has the wire type and value shape a field's kind takes; a
      part that does not leaves the field unchanged. Every part reaches an
      unsupported kind. */
  predicate Accepts(v: FieldValue, p: Part) {
    match v
    case SignedField(_, _) =>
      (p.wireType == VARINT || p.wireType == FIXED64) &&
      ((p.value.IntValue? && p.value.kind != Uint64) || p.value.BytesValue?)
    case UnsignedField(_, _) =>
      (p.wireType == VARINT || p.wireType == FIXED64) &&
      ((p.value.IntValue? && p.value.kind != Uint64) || p.value.BytesValue?)
    case StringField(_) => p.wireType == LENDELIM && p.value.BytesValue?
    case BoolField(_) => p.wireType == VARINT
    case BytesField(_) => p.wireType == LENDELIM && (p.value.BytesValue? || p.value.PartsValue?)
    case ListField(_) => p.wireType == LENDELIM && (p.value.BytesValue? || p.value.PartsValue?)
    case FloatField(wide, _) =>
      p.wireType == (if wide then FIXED64 else FIXED32) &&
      p.value.BytesValue? && |p.value.bytes| == (if wide then 8 else 4)
    case StructField(_) => p.wireType == LENDELIM
    case PointerField(_, _) => p.wireType == LENDELIM
    case OtherField => true
  }

  /** Two field values of the same Go type (a struct's fields of the same types,
      a pointer to the same struct type). */
  predicate SameKind(a: FieldValue, b: FieldValue)
    decreases a
  {
    match a
    case SignedField(t, _) => b.SignedField? && b.signed == t
    case UnsignedField(t, _) => b.UnsignedField? && b.unsigned == t
    case StringField(_) => b.StringField?
    case BoolField(_) => b.BoolField?
    case BytesField(_) => b.BytesField?
    case ListField(_) => b.ListField?
    case FloatField(wide, _) => b.FloatField? && b.wide == wide
    case StructField(fs) => b.StructField? && SameShape(fs, b.fields)
    case PointerField(zero, _) => b.PointerField? && b.zero == zero
    case OtherField => b.OtherField?
  }

  /** Two records of the same struct type: the same tags, the same exported
      fields, the same field types. */
  predicate SameShape(xs: seq<Slot>, ys: seq<Slot>)
    decreases xs
  {
    |xs| == |ys| && forall i :: 0 <= i < |xs| ==> SameSlot(xs[i], ys[i])
  }

  predicate SameSlot(x: Slot, y: Slot)
    decreases x
  {
    x.tag == y.tag && x.exported == y.exported && SameKind(x.value, y.value)
  }

  /** The `switch field.Type.Kind()` of `DecodeToProtoStruct` for a field whose part
      has been found: the field's new value and how the loop goes on. A nested
      struct is decoded in place (an error leaves it partly decoded); a pointer
      gets a freshly decoded struct only when that decoding succeeds. */
  function ApplyPart(v: FieldValue, p: Part): (u: Update)
    decreases v
    ensures !Accepts(v, p) ==> u == Update(v, Ok)
    ensures u.status == Failed(UnsupportedFieldType) ==>
      v.OtherField? || v.StructField? || v.PointerField?
  {
    match v
    case SignedField(t, _) =>
      if p.wireType == VARINT || p.wireType == FIXED64 then
        (match SignedReading(p.value)
         case Skip => Update(v, Ok)
         case Fails => Update(v, Failed(VarintEOF))
         case Read(n) => Update(SignedField(t, n), Ok))
      else Update(v, Ok)
    case UnsignedField(t, _) =>
      if p.wireType == VARINT || p.wireType == FIXED64 then
        (match UnsignedReading(p.value)
         case Skip => Update(v, Ok)
         case Fails => Update(v, Failed(VarintEOF))
         case Read(n) => Update(UnsignedField(t, n), Ok))
      else Update(v, Ok)
    case StringField(_) =>
      if p.wireType == LENDELIM && p.value.BytesValue? then Update(StringField(p.value.bytes), Ok)
      else Update(v, Ok)
    case BoolField(_) =>
      if p.wireType == VARINT then
        (match BoolReadingAsWritten(p.value)
         case Skip => Update(v, Ok)
         case Fails => Update(v, Failed(VarintEOF))
         case Read(b) => Update(BoolField(b), Ok))
      else Update(v, Ok)
    case BytesField(_) =>
      if p.wireType == LENDELIM then
        (match p.value
         case BytesValue(b) => Update(BytesField(b), Ok)
         case PartsValue(_) => Update(v, Panicked)
         case _ => Update(v, Ok))
      else Update(v, Ok)
    case ListField(_) =>
      if p.wireType == LENDELIM then
        (match p.value
         case PartsValue(ps) =>
           if Ready(ps) then Update(ListField(ProtoPartsToArray(ps)), Ok) else Update(v, Panicked)
         case BytesValue(b) =>
           (match ConvertedItems(DecodeParts(b).parts)
            case Some(items) => Update(ListField(items), Ok)
            case None => Update(v, Panicked))
         case _ => Update(v, Ok))
      else Update(v, Ok)
    case FloatField(wide, _) =>
      if p.wireType == (if wide then FIXED64 else FIXED32) && p.value.BytesValue? &&
         |p.value.bytes| == (if wide then 8 else 4)
      then Update(FloatField(wide, p.value.bytes), Ok)
      else Update(v, Ok)
    case StructField(fields) =>
      if p.wireType != LENDELIM then Update(v, Ok)
      else if !p.value.BytesValue? then Update(v, Panicked)
      else
        var out := DecodeSlots(DecodeParts(p.value.bytes).parts, fields);
        Update(StructField(out.slots), out.status)
    case PointerField(zero, _) =>
      if p.wireType != LENDELIM then Update(v, Ok)
      else if !p.value.BytesValue? then Update(v, Panicked)
      else
        var out := DecodeSlots(DecodeParts(p.value.bytes).parts, zero);
        if out.status == Ok then Update(PointerField(zero, Points(out.slots)), Ok) else Update(v, out.status)
    case OtherField => Update(v, Failed(UnsupportedFieldType))
  }

  /** One turn of the loop over the fields: a field without a parsed tag, without a
      matching part, or that cannot be set keeps its value. */
  function SlotUpdate(parts: seq<Part>, s: Slot): (u: Update)
    decreases s
  {
    if s.tag.None? then Update(s.value, Ok)
    else
      match FindPart(parts, s.tag.value)
      case None => Update(s.value, Ok)
      case Some(p) => if s.exported then ApplyPart(s.value, p) else Update(s.value, Ok)
  }

  /** The loop from field `i` on; `cur` holds the fields as they are now, `orig`
      as they were when decoding started. */
  function DecodeSlotsFrom(parts: seq<Part>, orig: seq<Slot>, cur: seq<Slot>, i: nat): (r: Outcome)
    requires |cur| == |orig| && i <= |orig|
    decreases orig, |orig| - i
  {
    if i == |orig| then Outcome(cur, Ok)
    else
      var u := SlotUpdate(parts, orig[i]);
      var next := cur[i := orig[i].(value := u.value)];
      if u.status != Ok then Outcome(next, u.status)
      else DecodeSlotsFrom(parts, orig, next, i + 1)
  }

  /** The specification of `DecodeToProtoStruct` on a struct target. */
  function DecodeSlots(parts: seq<Part>, slots: seq<Slot>): Outcome
    decreases slots, |slots| + 1
  {
    DecodeSlotsFrom(parts, slots, slots, 0)
  }

  /** What `target` points to: a struct, whose fields the decoder sets in place, or
      a value of some other type. */
  class Target {
    const isStruct: bool
    var slots: seq<Slot>

    constructor (isStruct: bool, slots: seq<Slot>)
      ensures this.isStruct == isStruct && this.slots == slots
    {
      this.isStruct := isStruct;
      this.slots := slots;
    }
  }

  /** `DecodeToProtoStruct(data, target)`: sets the target's fields one by one and
      returns at the first error, leaving the fields set before it set. */
  method DecodeToProtoStruct(parts: seq<Part>, target: Target) returns (status: Status)
    requires target.isStruct ==> DecodeSlots(parts, target.slots).status != Panicked
    modifies target
    ensures !target.isStruct ==> status == Failed(NotAStruct) && target.slots == old(target.slots)
    ensures target.isStruct ==> Outcome(target.slots, status) == DecodeSlots(parts, old(target.slots))
  {
    if !target.isStruct {
      return Failed(NotAStruct);
    }
    ghost var orig := target.slots;
    var i := 0;
    while i < |target.slots|
      invariant i <= |orig| == |target.slots|
      invariant target.slots[i..] == orig[i..]
      invariant DecodeSlotsFrom(parts, orig, target.slots, i) == DecodeSlots(parts, orig)
      decreases |orig| - i
    {
      ghost var before := target.slots;
      var slot := target.slots[i];
      assert slot == orig[i] by { assert target.slots[i..][0] == orig[i..][0]; }
      if slot.tag.Some? {
        var part := GetPartByFieldNum(parts, slot.tag.value);
        if part.Some? && slot.exported {
          var u := ApplyPart(slot.value, part.value);
          target.slots := target.slots[i := slot.(value := u.value)];
          if u.status != Ok {
            return u.status;
          }
        } else {
          assert target.slots[i := slot] == target.slots;
        }
      } else {
        assert target.slots[i := slot] == target.slots;
      }
      assert target.slots[i + 1..] == before[i + 1..];
      i := i + 1;
    }
    status := Ok;
  }

  /** `DecodeStruct(data, target)`: `DecodeToProtoStruct(DecodeProto(data).Parts, target)`. */
  method DecodeStruct(data: seq<byte>, target: Target) returns (status: Status)
    requires target.isStruct ==> DecodeSlots(DecodeParts(data).parts, target.slots).status != Panicked
    modifies target
    ensures !target.isStruct ==> status == Failed(NotAStruct) && target.slots == old(target.slots)
    ensures target.isStruct ==>
      Outcome(target.slots, status) == DecodeSlots(DecodeParts(data).parts, old(target.slots))
  {
    var decoded := DecodeProto(data);
    status := DecodeToProtoStruct(decoded.parts, target);
  }

  // ================================================= DecodeToProtoStruct lemmas

  /** For duplicate field numbers the first matching part is the one found. */
  lemma {:induction false} FirstMatchWins(parts: seq<Part>, num: int, k: nat)
    requires k < |parts| && parts[k].field == num
    requires forall j :: 0 <= j < k ==> parts[j].field != num
    ensures FindPart(parts, num) == Some(parts[k])
    decreases k
  {
    if k > 0 {
      assert forall j :: 0 <= j < k - 1 ==> parts[1..][j] == parts[j + 1];
      FirstMatchWins(parts[1..], num, k - 1);
    }
  }

  /** Inserting a part changes what is found for `num` neither when its field
      number is another one nor when an earlier part already has `num`. */
  lemma {:induction false} FindPartInsert(parts: seq<Part>, k: nat, p: Part, num: int)
    requires k <= |parts|
    requires p.field != num || FindPart(parts[..k], num).Some?
    ensures FindPart(parts[..k] + [p] + parts[k..], num) == FindPart(parts, num)
    decreases k
  {
    var longer := parts[..k] + [p] + parts[k..];
    if k == 0 {
      assert longer == [p] + parts;
      assert longer[1..] == parts;
    } else {
      assert longer[0] == parts[0];
      assert longer[1..] == parts[1..][..k - 1] + [p] + parts[1..][k - 1..];
      assert parts[..k][1..] == parts[1..][..k - 1];
      if parts[0].field != num {
        FindPartInsert(parts[1..], k - 1, p, num);
      }
    }
  }

  /** A field keeps its value after decoding unless its tag is parsed, a part
      matches it and it can be set. */
  function Updated(parts: seq<Part>, s: Slot): Slot {
    s.(value := SlotUpdate(parts, s).value)
  }

  /** The first field from `i` on whose turn does not end normally, or `|slots|`. */
  function FirstFailure(parts: seq<Part>, slots: seq<Slot>, i: nat): (k: nat)
    requires i <= |slots|
    decreases |slots| - i
    ensures i <= k <= |slots|
    ensures forall j :: i <= j < k ==> SlotUpdate(parts, slots[j]).status == Ok
    ensures k < |slots| ==> SlotUpdate(parts, slots[k]).status != Ok
  {
    if i == |slots| || SlotUpdate(parts, slots[i]).status != Ok then i
    else FirstFailure(parts, slots, i + 1)
  }

  lemma {:induction false} DecodeSlotsFromSteps(parts: seq<Part>, orig: seq<Slot>, cur: seq<Slot>, i: nat)
    requires |cur| == |orig| && i <= |orig|
    requires forall j :: i <= j < |orig| ==> cur[j] == orig[j]
    ensures var r := DecodeSlotsFrom(parts, orig, cur, i);
      var k := FirstFailure(parts, orig, i);
      |r.slots| == |orig| &&
      (forall j :: 0 <= j < i ==> r.slots[j] == cur[j]) &&
      (forall j :: i <= j < |orig| ==>
        r.slots[j] == if j <= k then Updated(parts, orig[j]) else orig[j]) &&
      r.status == if k < |orig| then SlotUpdate(parts, orig[k]).status else Ok
    decreases |orig| - i
  {
    if i < |orig| {
      var u := SlotUpdate(parts, orig[i]);
      var next := cur[i := orig[i].(value := u.value)];
      if u.status == Ok {
        DecodeSlotsFromSteps(parts, orig, next, i + 1);
      }
    }
  }

  /** `DecodeToProtoStruct` on a struct: the fields before the first one whose turn
      fails are decoded, that one holds what its decoding left in it (a nested
      struct may be partly decoded), the fields after it are untouched, and the
      result is that field's error (or success when no turn fails). */
  lemma DecodeSlotsSteps(parts: seq<Part>, slots: seq<Slot>)
    ensures var r := DecodeSlots(parts, slots);
      var k := FirstFailure(parts, slots, 0);
      |r.slots| == |slots| &&
      (forall j :: 0 <= j < |slots| ==>
        r.slots[j] == if j <= k then Updated(parts, slots[j]) else slots[j]) &&
      r.status == if k < |slots| then SlotUpdate(parts, slots[k]).status else Ok
  {
    DecodeSlotsFromSteps(parts, slots, slots, 0);
  }

  /** When every field's turn ends normally, every field is decoded. */
  lemma DecodeSlotsAllOk(parts: seq<Part>, slots: seq<Slot>)
    requires forall j :: 0 <= j < |slots| ==> SlotUpdate(parts, slots[j]).status == Ok
    ensures var r := DecodeSlots(parts, slots);
      r.status == Ok && |r.slots| == |slots| &&
      forall j :: 0 <= j < |slots| ==> r.slots[j] == Updated(parts, slots[j])
  {
    DecodeSlotsSteps(parts, slots);
  }

  /** Decoding depends on the parts only through the part found for each tag. */
  lemma {:induction false} SameMatchesFrom(parts1: seq<Part>, parts2: seq<Part>, orig: seq<Slot>, cur: seq<Slot>, i: nat)
    requires |cur| == |orig| && i <= |orig|
    requires forall j :: 0 <= j < |orig| && orig[j].tag.Some? ==>
      FindPart(parts1, orig[j].tag.value) == FindPart(parts2, orig[j].tag.value)
    ensures DecodeSlotsFrom(parts1, orig, cur, i) == DecodeSlotsFrom(parts2, orig, cur, i)
    decreases |orig| - i
  {
    if i < |orig| {
      assert SlotUpdate(parts1, orig[i]) == SlotUpdate(parts2, orig[i]);
      var u := SlotUpdate(parts1, orig[i]);
      SameMatchesFrom(parts1, parts2, orig, cur[i := orig[i].(value := u.value)], i + 1);
    }
  }

  /** A part is ignored when no field has its field number as tag. */
  lemma UnmatchedPartIgnored(parts: seq<Part>, slots: seq<Slot>, p: Part, k: nat)
    requires k <= |parts|
    requires forall j :: 0 <= j < |slots| ==> slots[j].tag != Some(p.field)
    ensures DecodeSlots(parts[..k] + [p] + parts[k..], slots) == DecodeSlots(parts, slots)
  {
    forall j | 0 <= j < |slots| && slots[j].tag.Some?
      ensures FindPart(parts[..k] + [p] + parts[k..], slots[j].tag.value) == FindPart(parts, slots[j].tag.value)
    {
      FindPartInsert(parts, k, p, slots[j].tag.value);
    }
    SameMatchesFrom(parts[..k] + [p] + parts[k..], parts, slots, slots, 0);
  }

  /** A part is ignored when an earlier part has the same field number: the first
      matching part wins. */
  lemma LaterDuplicateIgnored(parts: seq<Part>, slots: seq<Slot>, p: Part, k: nat)
    requires k <= |parts|
    requires FindPart(parts[..k], p.field).Some?
    ensures DecodeSlots(parts[..k] + [p] + parts[k..], slots) == DecodeSlots(parts, slots)
  {
    forall j | 0 <= j < |slots| && slots[j].tag.Some?
      ensures FindPart(parts[..k] + [p] + parts[k..], slots[j].tag.value) == FindPart(parts, slots[j].tag.value)
    {
      FindPartInsert(parts, k, p, slots[j].tag.value);
    }
    SameMatchesFrom(parts[..k] + [p] + parts[k..], parts, slots, slots, 0);
  }

  /** An unsupported kind makes the field's turn fail exactly when its tag is
      parsed, a part matches it and it can be set. */
  lemma UnsupportedWhenMatched(parts: seq<Part>, s: Slot)
    requires s.value.OtherField?
    ensures SlotUpdate(parts, s).status == Failed(UnsupportedFieldType) <==>
      s.tag.Some? && s.exported && FindPart(parts, s.tag.value).Some?
    ensures SlotUpdate(parts, s).value == s.value
  {
  }

  /** As written, a bool field set from a VARINT part holding a Go `int` or a
      `*big.Int` (the only integers `DecodeProto` produces) becomes whether that
      integer is non-zero. */
  lemma BoolIsNonZero(flag: bool, p: Part)
    requires p.wireType == VARINT && p.value.IntValue? && (p.value.kind == GoInt || p.value.kind == BigInt)
    ensures ApplyPart(BoolField(flag), p) == Update(BoolField(p.value.n != 0), Ok)
  {
  }

  /** The corrected reading gives every integer's non-zero-ness, whatever its type,
      and differs from the reading as written exactly on an `int64` or `uint64` zero. */
  lemma BoolReadingIsNonZero(v: Value)
    ensures v.IntValue? ==> BoolReading(v) == Read(v.n != 0)
    ensures BoolReading(v) != BoolReadingAsWritten(v) <==>
      v.IntValue? && (v.kind == Int64 || v.kind == Uint64) && v.n == 0
  {
  }

  lemma {:induction false} SameKindReflexive(v: FieldValue)
    ensures SameKind(v, v)
    decreases v
  {
    if v.StructField? {
      SameShapeReflexive(v.fields);
    }
  }

  lemma {:induction false} SameShapeReflexive(xs: seq<Slot>)
    ensures SameShape(xs, xs)
    decreases xs
  {
    forall i | 0 <= i < |xs|
      ensures SameSlot(xs[i], xs[i])
    {
      SameSlotReflexive(xs[i]);
    }
  }

  lemma SameSlotReflexive(s: Slot)
    ensures SameSlot(s, s)
    decreases s
  {
    SameKindReflexive(s.value);
  }

  /** Decoding a part into a field never changes the field's type. */
  lemma {:induction false} ApplyPartKeepsKind(v: FieldValue, p: Part)
    ensures SameKind(v, ApplyPart(v, p).value)
    decreases v
  {
    var u := ApplyPart(v, p);
    if u.value == v {
      SameKindReflexive(v);
    } else if v.StructField? {
      DecodeKeepsShape(DecodeParts(p.value.bytes).parts, v.fields);
    }
  }

  lemma {:induction false} SlotUpdateKeepsKind(parts: seq<Part>, s: Slot)
    ensures SameSlot(s, Updated(parts, s))
    decreases s
  {
    if s.tag.Some? && s.exported && FindPart(parts, s.tag.value).Some? {
      ApplyPartKeepsKind(s.value, FindPart(parts, s.tag.value).value);
    } else {
      SameKindReflexive(s.value);
    }
  }

  /** `DecodeToProtoStruct` never changes the type of the record or of any of its
      fields, nested ones included. */
  lemma {:induction false} DecodeKeepsShape(parts: seq<Part>, slots: seq<Slot>)
    ensures SameShape(slots, DecodeSlots(parts, slots).slots)
    decreases slots
  {
    var r := DecodeSlots(parts, slots);
    DecodeSlotsSteps(parts, slots);
    forall j | 0 <= j < |slots|
      ensures SameSlot(slots[j], r.slots[j])
    {
      SlotUpdateKeepsKind(parts, slots[j]);
      SameKindReflexive(slots[j].value);
    }
  }

  // =================================================== EncodeProtoStruct lemmas

  /** The number of parts the fields before field `j` produce: the position of
      field `j`'s part. */
  function PartIndex(slots: seq<Slot>, j: nat): nat
    requires j <= |slots| && EncodeReady(slots)
  {
    |EncodeProtoStruct(slots[..j])|
  }

  /** Field `j`'s parts sit at `PartIndex(slots, j)`, between those of the fields
      before it and those of the fields after it. */
  lemma {:induction false} EncodeAround(slots: seq<Slot>, j: nat)
    requires j < |slots| && EncodeReady(slots)
    ensures EncodeReady(slots[..j]) && EncodeReady(slots[j + 1..])
    ensures EncodeProtoStruct(slots) ==
      EncodeProtoStruct(slots[..j]) + SlotParts(slots[j]) + EncodeProtoStruct(slots[j + 1..])
    decreases j
  {
    if j == 0 {
      assert slots[..0] == [];
    } else {
      var tail := slots[1..];
      EncodeAround(tail, j - 1);
      assert tail[j - 1] == slots[j] && tail[j..] == slots[j + 1..];
      assert slots[..j][0] == slots[0] && slots[..j][1..] == tail[..j - 1];
    }
  }

  /** Each field moves the position of the next part on by the number of parts it
      produces, and after the last field the position is the number of parts: no
      part comes from anywhere but a field. */
  lemma PartIndexSteps(slots: seq<Slot>, j: nat)
    requires j < |slots| && EncodeReady(slots)
    ensures PartIndex(slots, j + 1) == PartIndex(slots, j) + (if SlotPart(slots[j]).Some? then 1 else 0)
    ensures PartIndex(slots, |slots|) == |EncodeProtoStruct(slots)|
  {
    var pre := slots[..j + 1];
    assert pre[..j] == slots[..j] && pre[j] == slots[j] && pre[j + 1..] == [];
    EncodeAround(pre, j);
    assert slots[..|slots|] == slots;
  }

  /** `EncodeProtoStruct` emits the parts in field-declaration order, exactly one
      for each field that is not skipped: the part of field `j` is at position
      `PartIndex(slots, j)`, positions grow with `j`, and there are as many parts
      as fields that are not skipped. */
  lemma EncodeProtoStructOrder(slots: seq<Slot>, i: nat, j: nat)
    requires EncodeReady(slots) && i < j < |slots|
    requires SlotPart(slots[i]).Some?
    ensures PartIndex(slots, i) < PartIndex(slots, j) <= |EncodeProtoStruct(slots)|
    ensures EncodeProtoStruct(slots)[PartIndex(slots, i)] == SlotPart(slots[i]).value
    ensures SlotPart(slots[j]).Some? ==>
      PartIndex(slots, j) < |EncodeProtoStruct(slots)| &&
      EncodeProtoStruct(slots)[PartIndex(slots, j)] == SlotPart(slots[j]).value
  {
    EncodeAround(slots, i);
    EncodeAround(slots, j);
    var pre := slots[..j];
    assert pre[..i] == slots[..i];
    assert pre[i] == slots[i];
    EncodeAround(pre, i);
  }

  /** What `EncodeProtoStruct` writes for the kinds it converts: a bool as the
      `int` 1 or 0, a non-empty string as its bytes, a `[]byte` verbatim, a nested
      struct or a pointer to one as LENDELIM holding its own encoded parts, an
      `int`, `int64` or `uint64` as VARINT of itself, a float as FIXED32 or FIXED64
      of its bit pattern; a `uint` and an unsupported kind give no part. */
  lemma FieldEncodings(f: int, v: FieldValue)
    requires ValueEncodeReady(v)
    ensures v.BoolField? ==>
      ValuePart(f, v) == Some(Part(None, VARINT, f, IntValue(GoInt, if v.flag then 1 else 0)))
    ensures v.StringField? && v.s != [] ==>
      ValuePart(f, v) == Some(Part(None, LENDELIM, f, BytesValue(v.s)))
    ensures v.BytesField? ==> ValuePart(f, v) == Some(Part(None, LENDELIM, f, BytesValue(v.bytes)))
    ensures v.StructField? ==>
      ValuePart(f, v) == Some(Part(None, LENDELIM, f, PartsValue(EncodeProtoStruct(v.fields))))
    ensures v.PointerField? ==>
      ValuePart(f, v) == Some(Part(None, LENDELIM, f, PartsValue(PointeeParts(v.target, v.zero))))
    ensures v.SignedField? ==>
      ValuePart(f, v) == Some(Part(None, VARINT, f, IntValue(if v.signed == GoIntType then GoInt else Int64, v.n)))
    ensures v.UnsignedField? && v.unsigned == Uint64Type ==>
      ValuePart(f, v) == Some(Part(None, VARINT, f, IntValue(Uint64, v.u)))
    ensures v.UnsignedField? && v.unsigned == GoUintType ==> ValuePart(f, v).None?
    ensures v.FloatField? && !v.wide ==> ValuePart(f, v) == Some(Part(None, FIXED32, f, BytesValue(v.bits)))
    ensures v.FloatField? && v.wide ==> ValuePart(f, v) == Some(Part(None, FIXED64, f, BytesValue(v.bits)))
    ensures v.OtherField? ==> ValuePart(f, v).None?
    ensures v.ListField? ==>
      ValuePart(f, v) == Some(Part(None, LENDELIM, f, PartsValue(ArrayToProtoParts(v.items))))
  {
  }

  /** Every part has the tag of some field as its field number; there is none for
      a number no field carries as tag. */
  lemma {:induction false} NoTagNoPart(slots: seq<Slot>, t: int)
    requires EncodeReady(slots)
    requires forall i :: 0 <= i < |slots| ==> slots[i].tag != Some(t)
    ensures forall k :: 0 <= k < |EncodeProtoStruct(slots)| ==> EncodeProtoStruct(slots)[k].field != t
    decreases slots
  {
    if slots != [] {
      assert forall i :: 0 <= i < |slots| - 1 ==> slots[1..][i] == slots[i + 1];
      NoTagNoPart(slots[1..], t);
    }
  }

  // ============================================================== round trip

  /** The tags that are parsed are pairwise distinct. */
  predicate TagsDistinct(slots: seq<Slot>) {
    forall i, j :: 0 <= i < j < |slots| && slots[i].tag.Some? ==> slots[i].tag != slots[j].tag
  }

  /** Records that come back unchanged from `DecodeStruct(EncodeStruct(r))` into a
      zero record of their type: distinct tags in the range the wire codec carries,
      every field exported, fields without a parsed tag already zero, and every
      tagged value one that survives the wire: integers within 64 bits and not an
      `int64` zero (which writes no payload), a `uint` zero (never written), a
      non-zero `uint64`, non-empty byte slices, floats of their width, nested
      structs, and non-nil pointers, whose encodings are non-empty. A
      `[]interface{}` field does not come back, since its payload is decoded with
      every integer as an `int64`. */
  predicate RecordTransparent(slots: seq<Slot>)
    decreases slots
  {
    TagsDistinct(slots) && forall i :: 0 <= i < |slots| ==> SlotTransparent(slots[i])
  }

  predicate SlotTransparent(s: Slot)
    decreases s
  {
    s.exported &&
    (s.tag.None? ==> s.value == ZeroValue(s.value)) &&
    (s.tag.Some? ==> 1 <= s.tag.value < FIELD_LIMIT && ValueTransparent(s.value))
  }

  predicate ValueTransparent(v: FieldValue)
    decreases v
  {
    match v
    case SignedField(t, n) => IsInt64(n) && (n != 0 || t == GoIntType)
    case UnsignedField(t, n) => if t == Uint64Type then 0 < n < TWO_64 else n == 0
    case StringField(str) => |str| < TWO_64
    case BoolField(_) => true
    case BytesField(b) => 0 < |b| < TWO_64
    case ListField(_) => false
    case FloatField(wide, bits) => |bits| == (if wide then 8 else 4)
    case StructField(fields) =>
      RecordTransparent(fields) && EncodeReady(fields) && 0 < |EncodeParts(EncodeProtoStruct(fields))| < TWO_64
    case PointerField(zero, target) => PointeeTransparent(target, zero)
    case OtherField => true
  }

  predicate PointeeTransparent(t: Pointee, zero: seq<Slot>)
    decreases t
  {
    t.Points? && RecordTransparent(t.fields) && EncodeReady(t.fields) && ZeroSlots(t.fields) == zero &&
    0 < |EncodeParts(EncodeProtoStruct(t.fields))| < TWO_64
  }

  /** The part of a transparent field meets the wire codec's round-trip conditions. */
  lemma ValueRoundTrips(f: int, v: FieldValue)
    requires ValueEncodeReady(v) && ValueTransparent(v) && 1 <= f < FIELD_LIMIT
    requires ValuePart(f, v).Some?
    ensures RoundTrips(ValuePart(f, v).value)
  {
  }

  lemma {:induction false} EncodedRoundTrip(slots: seq<Slot>)
    requires EncodeReady(slots)
    requires forall i :: 0 <= i < |slots| ==> SlotTransparent(slots[i])
    ensures AllRoundTrip(EncodeProtoStruct(slots))
    decreases slots
  {
    if slots != [] {
      var s := slots[0];
      if SlotPart(s).Some? {
        ValueRoundTrips(s.tag.value, s.value);
      }
      assert forall i :: 0 <= i < |slots| - 1 ==> slots[1..][i] == slots[i + 1];
      EncodedRoundTrip(slots[1..]);
      var head, rest := SlotParts(s), EncodeProtoStruct(slots[1..]);
      assert forall k :: |head| <= k < |head| + |rest| ==> (head + rest)[k] == rest[k - |head|];
    }
  }

  /** Decoding the wire form of a transparent field's part into the zero value of
      its type gives back the field's value. */
  lemma {:induction false} ValueComesBack(f: int, v: FieldValue, p: Part)
    requires ValueEncodeReady(v) && ValueTransparent(v) && 1 <= f < FIELD_LIMIT
    requires ValuePart(f, v).Some? && RoundTrips(ValuePart(f, v).value)
    requires p.wireType == ValuePart(f, v).value.wireType
    requires p.value == DecodedValue(ValuePart(f, v).value)
    ensures ApplyPart(ZeroValue(v), p) == Update(v, Ok)
    decreases v
  {
    match v
    case StructField(fields) =>
      RecordRoundTrip(fields);
    case PointerField(zero, target) =>
      PointeeComesBack(target, zero, p);
    case _ =>
  }

  lemma {:induction false} PointeeComesBack(t: Pointee, zero: seq<Slot>, p: Part)
    requires PointeeTransparent(t, zero)
    requires p.value == BytesValue(EncodeParts(EncodeProtoStruct(t.fields)))
    ensures DecodeSlots(DecodeParts(p.value.bytes).parts, zero) == Outcome(t.fields, Ok)
    decreases t
  {
    RecordRoundTrip(t.fields);
  }

  /** What decoding the wire form gives for one field of a transparent record,
      given the part found for its tag. */
  lemma {:induction false} SlotComesBack(s: Slot, found: Option<Part>)
    requires SlotEncodeReady(s) && SlotTransparent(s)
    requires s.tag.Some? && SlotPart(s).None? ==> found.None?
    requires s.tag.Some? && SlotPart(s).Some? ==>
      RoundTrips(SlotPart(s).value) && found.Some? &&
      found.value.wireType == SlotPart(s).value.wireType &&
      found.value.value == DecodedValue(SlotPart(s).value)
    ensures s.tag.None? || found.None? ==> ZeroValue(s.value) == s.value
    ensures s.tag.Some? && found.Some? ==> ApplyPart(ZeroValue(s.value), found.value) == Update(s.value, Ok)
    decreases s
  {
    if s.tag.Some? && found.Some? {
      ValueComesBack(s.tag.value, s.value, found.value);
    }
  }

  /** `DecodeStruct(EncodeStruct(r))` into a zero record of `r`'s type: the encoding
      is decoded with nothing over, decoding ends normally, and the record comes
      back field for field, nested structs and pointers included. */
  lemma {:induction false} RecordRoundTrip(slots: seq<Slot>)
    requires RecordTransparent(slots) && EncodeReady(slots)
    ensures AllRoundTrip(EncodeProtoStruct(slots))
    ensures var d := DecodeParts(EncodeParts(EncodeProtoStruct(slots)));
      d.leftOver == [] && DecodeSlots(d.parts, ZeroSlots(slots)) == Outcome(slots, Ok)
    decreases slots
  {
    var ps := EncodeProtoStruct(slots);
    EncodedRoundTrip(slots);
    EncodeDecodeRoundTrip(ps);
    var decoded := DecodeParts(EncodeParts(ps)).parts;
    var z := ZeroSlots(slots);
    forall j | 0 <= j < |slots|
      ensures SlotUpdate(decoded, z[j]) == Update(slots[j].value, Ok)
    {
      FoundForField(slots, j, decoded);
      var found := if slots[j].tag.Some? then FindPart(decoded, slots[j].tag.value) else None;
      SlotComesBack(slots[j], found);
    }
    DecodeSlotsAllOk(decoded, z);
    var r := DecodeSlots(decoded, z);
    assert forall j :: 0 <= j < |slots| ==> r.slots[j] == slots[j];
    assert r.slots == slots;
  }

  /** In the decoded wire form of a transparent record, the part found for a
      field's tag is the decoded form of that field's own part, if it has one. */
  lemma FoundForField(slots: seq<Slot>, j: nat, decoded: seq<Part>)
    requires RecordTransparent(slots) && EncodeReady(slots) && j < |slots|
    requires AllRoundTrip(EncodeProtoStruct(slots))
    requires Recovers(decoded, EncodeProtoStruct(slots))
    ensures SlotEncodeReady(slots[j]) && SlotTransparent(slots[j])
    ensures var s := slots[j];
      (s.tag.Some? && SlotPart(s).None? ==> FindPart(decoded, s.tag.value).None?) &&
      (s.tag.Some? && SlotPart(s).Some? ==>
        RoundTrips(SlotPart(s).value) && FindPart(decoded, s.tag.value).Some? &&
        FindPart(decoded, s.tag.value).value.wireType == SlotPart(s).value.wireType &&
        FindPart(decoded, s.tag.value).value.value == DecodedValue(SlotPart(s).value))
  {
    var s := slots[j];
    if s.tag.Some? {
      var t := s.tag.value;
      var ps := EncodeProtoStruct(slots);
      EncodeAround(slots, j);
      var before, after := EncodeProtoStruct(slots[..j]), EncodeProtoStruct(slots[j + 1..]);
      NoTagNoPart(slots[..j], t);
      NoTagNoPart(slots[j + 1..], t);
      assert forall k :: 0 <= k < |before| ==> ps[k] == before[k];
      if SlotPart(s).Some? {
        var k := |before|;
        assert ps[k] == SlotPart(s).value;
        FirstMatchWins(decoded, t, k);
      } else {
        assert forall k :: |before| <= k < |ps| ==> ps[k] == after[k - |before|];
      }
    }
  }
}
