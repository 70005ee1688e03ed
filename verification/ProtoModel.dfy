/**
 Descriptors, messages and the wire format: what protobuf-c.c reads and writes.

 A schema is the set of message descriptors; a field of message type names its descriptor by index, so
 recursive message types are covered. A message is a tree of values.
 */
module ProtoModel {
  import opened Bytes
  import opened Base128

  datatype FieldType =
    | Int32 | SInt32 | SFixed32 | Int64 | SInt64 | SFixed64 | UInt32 | Fixed32 | UInt64 | Fixed64
    | Float | Double | Bool | Enum | Str | Binary | Msg

  datatype Label = Required | Optional | Repeated

  /** `sub` matters for `Msg` only; `dflt` is the descriptor's default value, if it has one. */
  datatype Field = Field(id: nat, rule: Label, ty: FieldType, packed: bool, sub: nat, dflt: Option<Value>)

  /** One run of consecutive field numbers; the last entry of a table is a sentinel. */
  datatype IntRange = IntRange(start: int, orig: nat)

  datatype Desc = Desc(fields: seq<Field>, ranges: seq<IntRange>)

  type Schema = seq<Desc>

  /** `Num` holds every scalar (floats and doubles as their bit pattern); `Null` is a NULL pointer. */
  datatype Value = Num(n: int) | Data(d: seq<byte>) | Sub(m: Message) | Null

  /**
   `One` is a required or optional member: `None` means that it still is what message_init made it
   (`has` flag clear, pointer NULL or the default). `Many` is a repeated member.
   */
  datatype Slot = One(v: Option<Value>) | Many(vs: seq<Value>)

  datatype Unknown = Unknown(tag: nat, wire: nat, data: seq<byte>)

  datatype Message = Message(desc: nat, slots: seq<Slot>, unknown: seq<Unknown>)

  const VARINT: nat := 0
  const BITS64: nat := 1
  const LENGTH_PREFIXED: nat := 2
  const BITS32: nat := 5

  function DescOf(s: Schema, i: nat): Desc
  {
    if i < |s| then s[i] else Desc([], [])
  }

  predicate IsScalar(t: FieldType) { t != Str && t != Binary && t != Msg }

  function WireOf(t: FieldType): (w: nat)
    ensures w < 8
  {
    match t
    case Int32 | SInt32 | UInt32 | Int64 | SInt64 | UInt64 | Bool | Enum => VARINT
    case SFixed64 | Fixed64 | Double => BITS64
    case SFixed32 | Fixed32 | Float => BITS32
    case Str | Binary | Msg => LENGTH_PREFIXED
  }

  /** The values that the C type of the member can hold. */
  predicate InRange(t: FieldType, n: int)
  {
    match t
    case Int32 | SInt32 | SFixed32 | Enum | Bool => IsI32(n)
    case Int64 | SInt64 | SFixed64 => IsI64(n)
    case UInt32 | Fixed32 | Float => IsU32(n)
    case UInt64 | Fixed64 | Double => IsU64(n)
    case Str | Binary | Msg => false
  }

  /** What message_init stores in the member. */
  function Initial(f: Field): Value
  {
    if f.dflt.Some? then f.dflt.value
    else match f.ty
      case Str | Msg => Null
      case Binary => Data([])
      case _ => Num(0)
  }

  // ---------- well-formedness ----------

  predicate ValueShaped(s: Schema, f: Field, v: Value)
    decreases v
  {
    match v
    case Num(n) => InRange(f.ty, n)
    case Data(_) => f.ty == Str || f.ty == Binary
    case Sub(m) => f.ty == Msg && m.desc == f.sub && Shaped(s, m)
    case Null => false
  }

  predicate SlotShaped(s: Schema, f: Field, slot: Slot)
    decreases slot
  {
    match slot
    case One(v) => f.rule != Repeated && (v.Some? ==> ValueShaped(s, f, v.value))
    case Many(vs) => f.rule == Repeated && forall i | 0 <= i < |vs| :: ValueShaped(s, f, vs[i])
  }

  /** The C struct of the message holds what its descriptor says it holds. */
  predicate Shaped(s: Schema, m: Message)
    decreases m
  {
    && m.desc < |s|
    && |m.slots| == |s[m.desc].fields|
    && (forall i | 0 <= i < |m.slots| :: SlotShaped(s, s[m.desc].fields[i], m.slots[i]))
    && (forall i | 0 <= i < |m.unknown| :: IsU32(m.unknown[i].tag) && m.unknown[i].wire < 8)
  }

  predicate FieldOk(s: Schema, f: Field)
  {
    && 1 <= f.id < 0x2000_0000
    && (f.packed ==> f.rule == Repeated && IsScalar(f.ty))
    && (f.ty == Msg ==> f.sub < |s|)
    && (f.dflt.Some? ==> f.ty != Msg && ValueShaped(s, f, f.dflt.value))
  }

  predicate DescOk(s: Schema, d: Desc)
  {
    && (forall i | 0 <= i < |d.fields| :: FieldOk(s, d.fields[i]))
    && (forall i, j | 0 <= i < j < |d.fields| :: d.fields[i].id < d.fields[j].id)
  }

  predicate SchemaOk(s: Schema)
  {
    forall i | 0 <= i < |s| :: DescOk(s, s[i])
  }

  // ---------- the wire format ----------

  function Tag(id: nat, wire: nat): (r: seq<byte>)
    ensures |r| >= 1
  {
    Varint(id * 8 + wire)
  }

  /** What strlen sees: the bytes before the first NUL. */
  function CString(d: seq<byte>): (r: seq<byte>)
    ensures |r| <= |d|
  {
    if d == [] || d[0] == 0 then [] else [d[0]] + CString(d[1..])
  }

  /** The unsigned word that a scalar puts on the wire. */
  function Word(t: FieldType, n: int): (r: nat)
    requires InRange(t, n)
    ensures IsU64(r)
    ensures WireOf(t) == BITS32 ==> IsU32(r)
    ensures t == Bool ==> r <= 1
    ensures t == UInt32 || t == SInt32 ==> IsU32(r)
  {
    match t
    case Int32 | Enum | Int64 => Extend64(n)
    case SInt32 => ZigZag32(n)
    case SInt64 => ZigZag64(n)
    case Bool => if n != 0 then 1 else 0
    case SFixed32 => if n < 0 then TWO32 + n else n
    case SFixed64 => if n < 0 then TWO64 + n else n
    case _ => n
  }

  function EncodeNum(t: FieldType, n: int): (r: seq<byte>)
    requires InRange(t, n)
    ensures |r| >= 1
  {
    var w := Word(t, n);
    if WireOf(t) == BITS32 then LittleEndian(w, 4)
    else if WireOf(t) == BITS64 then LittleEndian(w, 8)
    else Varint(w)
  }

  function Prefixed(d: seq<byte>): (r: seq<byte>)
    ensures |r| == |Varint(|d|)| + |d|
  {
    Varint(|d|) + d
  }

  /** What follows the tag. A NULL string or message is written as an empty one. */
  function EncodeBody(s: Schema, t: FieldType, v: Value): seq<byte>
    decreases v, 0
  {
    match v
    case Num(n) => if InRange(t, n) then EncodeNum(t, n) else []
    case Data(d) => if t == Str then Prefixed(CString(d)) else Prefixed(d)
    case Sub(m) => Prefixed(EncodeMessage(s, m))
    case Null => [0]
  }

  function EncodeRequired(s: Schema, f: Field, v: Value): seq<byte>
    decreases v, 1
  {
    Tag(f.id, WireOf(f.ty)) + EncodeBody(s, f.ty, v)
  }

  function EncodeAll(s: Schema, f: Field, vs: seq<Value>): seq<byte>
    decreases vs, 1
  {
    if vs == [] then [] else EncodeRequired(s, f, vs[0]) + EncodeAll(s, f, vs[1..])
  }

  /** The concatenated element encodings of a packed field. */
  function EncodePayload(t: FieldType, vs: seq<Value>): seq<byte>
  {
    if vs == [] then []
    else (if vs[0].Num? && InRange(t, vs[0].n) then EncodeNum(t, vs[0].n) else []) + EncodePayload(t, vs[1..])
  }

  function EncodePacked(f: Field, vs: seq<Value>): seq<byte>
  {
    if vs == [] then [] else Tag(f.id, LENGTH_PREFIXED) + Prefixed(EncodePayload(f.ty, vs))
  }

  function EncodeSlot(s: Schema, f: Field, slot: Slot): seq<byte>
    decreases slot, 2
  {
    match slot
    case One(v) =>
      if v.Some? then EncodeRequired(s, f, v.value)
      else if f.rule == Required then Tag(f.id, WireOf(f.ty)) + EncodeInitial(f)
      else []
    case Many(vs) => if f.packed then EncodePacked(f, vs) else EncodeAll(s, f, vs)
  }

  /** A required member that was never set goes out as its initial value. */
  function EncodeInitial(f: Field): seq<byte>
  {
    match Initial(f)
    case Num(n) => if InRange(f.ty, n) then EncodeNum(f.ty, n) else []
    case Data(d) => if f.ty == Str then Prefixed(CString(d)) else Prefixed(d)
    case _ => [0]
  }

  function EncodeSlots(s: Schema, fs: seq<Field>, slots: seq<Slot>): seq<byte>
    decreases slots, 3
  {
    if fs == [] || slots == [] then []
    else EncodeSlot(s, fs[0], slots[0]) + EncodeSlots(s, fs[1..], slots[1..])
  }

  function EncodeUnknown(u: Unknown): seq<byte>
  {
    Tag(u.tag, u.wire) + u.data
  }

  function EncodeUnknowns(us: seq<Unknown>): seq<byte>
  {
    if us == [] then [] else EncodeUnknown(us[0]) + EncodeUnknowns(us[1..])
  }

  function EncodeMessage(s: Schema, m: Message): seq<byte>
    decreases m, 4
  {
    EncodeSlots(s, DescOf(s, m.desc).fields, m.slots) + EncodeUnknowns(m.unknown)
  }
}
