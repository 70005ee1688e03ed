/** protobuf_c_message_get_packed_size: the size pass, proved to be the length of the encoding. */
module ProtoSize {
  import opened Bytes
  import opened Base128
  import opened ProtoModel
  import opened ProtoPack

  /** The scalar cases of the switch in required_field_get_packed_size. */
  function NumSize(t: FieldType, n: int): (r: nat)
    requires InRange(t, n)
  {
    match t
    case SInt32 => UInt32Size(ZigZag32(n))
    case Enum | Int32 => Int32Size(n)
    case UInt32 => UInt32Size(n)
    case SInt64 => UInt64Size(ZigZag64(n))
    case Int64 => UInt64Size(Extend64(n))
    case UInt64 => UInt64Size(n)
    case SFixed32 | Fixed32 | Float => 4
    case SFixed64 | Fixed64 | Double => 8
    case Bool => 1
  }

  lemma NumSizeIsLength(t: FieldType, n: int)
    requires InRange(t, n)
    ensures NumSize(t, n) == |EncodeNum(t, n)|
  {
    if t == Int32 || t == Enum { Int32SizeIsLength(n); }
    UInt64SizeIsLength(Word(t, n));
  }

  /** `uint32_size(len) + len`, the shape of every length-prefixed body. */
  lemma PrefixedSize(d: seq<byte>)
    requires IsU32(|d|)
    ensures UInt32Size(|d|) + |d| == |Prefixed(d)|
  {
    UInt32SizeIsLength(|d|);
  }

  method BodySize(s: Schema, t: FieldType, v: Value, ghost parent: Message) returns (rv: nat)
    requires BodyOk(s, t, v) && (v.Sub? ==> v.m < parent)
    requires SchemaOk(s) && IsU32(|EncodeBody(s, t, v)|)
    ensures rv == |EncodeBody(s, t, v)|
    decreases parent, 0
  {
    match v
    case Num(n) =>
      NumSizeIsLength(t, n);
      rv := NumSize(t, n);
    case Data(d) =>
      var len := if t == Str then |CString(d)| else |d|;
      PrefixedSize(if t == Str then CString(d) else d);
      rv := UInt32Size(len) + len;
    case Sub(m) =>
      var len := MessageSize(s, m);
      PrefixedSize(EncodeMessage(s, m));
      rv := UInt32Size(len) + len;
    case Null =>
      rv := UInt32Size(0) + 0;
  }

  method RequiredFieldSize(s: Schema, f: Field, v: Value, ghost parent: Message) returns (rv: nat)
    requires SchemaOk(s) && IsU32(f.id) && BodyOk(s, f.ty, v) && (v.Sub? ==> v.m < parent)
    requires IsU32(|EncodeBody(s, f.ty, v)|)
    ensures rv == |EncodeRequired(s, f, v)|
    decreases parent, 1
  {
    TagSizeIsLength(f.id, WireOf(f.ty));
    rv := BodySize(s, f.ty, v, parent);
    rv := TagSize(f.id) + rv;
  }

  lemma OneOfAll(s: Schema, f: Field, v: Value)
    requires IsU32(f.id)
    ensures |EncodeRequired(s, f, v)| == TagSize(f.id) + |EncodeBody(s, f.ty, v)|
  {
    TagSizeIsLength(f.id, WireOf(f.ty));
  }

  /** The element loop adds the bodies only; the tags are counted in one multiplication beforehand. */
  method RepeatedFieldSize(s: Schema, f: Field, vs: seq<Value>, ghost parent: Message) returns (rv: nat)
    requires SchemaOk(s) && IsU32(f.id)
    requires forall i | 0 <= i < |vs| :: BodyOk(s, f.ty, vs[i]) && (vs[i].Sub? ==> vs[i].m < parent)
    requires IsU32(|EncodeAll(s, f, vs)|)
    ensures rv == |EncodeAll(s, f, vs)|
    decreases parent, 2
  {
    hide EncodeRequired, EncodeBody, BodyOk, SchemaOk, TagSize;
    if |vs| == 0 { return 0; }
    var headerSize := TagSize(f.id) * |vs|;
    rv := 0;
    var i := 0;
    ghost var tags := 0;
    assert vs[0..] == vs;
    while i < |vs|
      invariant 0 <= i <= |vs|
      invariant |EncodeAll(s, f, vs)| == tags + rv + |EncodeAll(s, f, vs[i..])|
      invariant tags == TagSize(f.id) * i
    {
      AllStep(s, f, vs, i);
      OneOfAll(s, f, vs[i]);
      var n := BodySize(s, f.ty, vs[i], parent);
      tags := OneMore(TagSize(f.id), i, tags);
      rv := rv + n;
      i := i + 1;
    }
    rv := headerSize + rv;
  }

  ghost function OneMore(k: nat, i: nat, ki: nat): (r: nat)
    requires ki == k * i
    ensures r == k * (i + 1)
  {
    ki + k
  }

  /** get_packed_payload_length. */
  method PayloadLength(t: FieldType, vs: seq<Value>) returns (rv: nat)
    requires AllScalars(t, vs)
    ensures rv == |EncodePayload(t, vs)|
  {
    PayloadBounds(t, vs);
    if t == Bool { rv := OneByteEach(t, vs); return; }
    if TypeMinSize(t) != 1 { return TypeMinSize(t) * |vs|; }
    rv := 0;
    var i := 0;
    assert vs[0..] == vs;
    while i < |vs|
      invariant 0 <= i <= |vs|
      invariant |EncodePayload(t, vs)| == rv + |EncodePayload(t, vs[i..])|
    {
      PayloadStep(t, vs, i);
      NumSizeIsLength(t, vs[i].n);
      rv := rv + NumSize(t, vs[i].n);
      i := i + 1;
    }
  }

  method OneByteEach(t: FieldType, vs: seq<Value>) returns (rv: nat)
    requires AllScalars(t, vs) && t == Bool
    ensures rv == |EncodePayload(t, vs)|
  {
    BoolPayload(vs);
    rv := |vs|;
  }

  lemma {:induction false} BoolPayload(vs: seq<Value>)
    requires AllScalars(Bool, vs)
    ensures |EncodePayload(Bool, vs)| == |vs|
  {
    if vs != [] { BoolPayload(vs[1..]); }
  }

  method PackedFieldSize(f: Field, vs: seq<Value>) returns (rv: nat)
    requires IsU32(f.id) && AllScalars(f.ty, vs) && IsU32(|EncodePacked(f, vs)|)
    ensures rv == |EncodePacked(f, vs)|
  {
    if |vs| == 0 { return 0; }
    TagSizeIsLength(f.id, LENGTH_PREFIXED);
    rv := PayloadLength(f.ty, vs);
    PrefixedSize(EncodePayload(f.ty, vs));
    rv := TagSize(f.id) + UInt32Size(rv) + rv;
  }

  method FieldSize(s: Schema, f: Field, slot: Slot, ghost parent: Message) returns (rv: nat)
    requires SchemaOk(s) && FieldOk(s, f) && SlotShaped(s, f, slot)
    requires slot.One? && slot.v.Some? && slot.v.value.Sub? ==> slot.v.value.m < parent
    requires slot.Many? ==> forall i | 0 <= i < |slot.vs| :: slot.vs[i].Sub? ==> slot.vs[i].m < parent
    requires IsU32(|EncodeSlot(s, f, slot)|)
    ensures rv == |EncodeSlot(s, f, slot)|
    decreases parent, 3
  {
    match slot
    case One(v) =>
      if f.rule == Required {
        InitialBody(s, f);
        var w := if v.Some? then v.value else Initial(f);
        assert EncodeSlot(s, f, slot) == Tag(f.id, WireOf(f.ty)) + EncodeBody(s, f.ty, w);
        rv := RequiredFieldSize(s, f, w, parent);
      } else if v.Some? {
        assert EncodeSlot(s, f, slot) == Tag(f.id, WireOf(f.ty)) + EncodeBody(s, f.ty, v.value);
        rv := RequiredFieldSize(s, f, v.value, parent);
      } else {
        rv := 0;
      }
    case Many(vs) =>
      if f.packed {
        rv := PackedFieldSize(f, vs);
      } else {
        rv := RepeatedFieldSize(s, f, vs, parent);
      }
  }

  method SlotsSize(s: Schema, m: Message) returns (rv: nat)
    requires SchemaOk(s) && Shaped(s, m) && IsU32(|EncodeSlots(s, s[m.desc].fields, m.slots)|)
    ensures rv == |EncodeSlots(s, s[m.desc].fields, m.slots)|
    decreases m, 4
  {
    var fs := s[m.desc].fields;
    rv := 0;
    var i := 0;
    assert fs[0..] == fs && m.slots[0..] == m.slots;
    while i < |fs|
      invariant 0 <= i <= |fs|
      invariant |EncodeSlots(s, fs, m.slots)| == rv + |EncodeSlots(s, fs[i..], m.slots[i..])|
    {
      SlotsStep(s, fs, m.slots, i);
      NestedIsSmaller(m, i);
      var n := FieldSize(s, fs[i], m.slots[i], m);
      rv := rv + n;
      i := i + 1;
    }
  }

  method UnknownsSize(us: seq<Unknown>) returns (rv: nat)
    requires forall i | 0 <= i < |us| :: IsU32(us[i].tag) && us[i].wire < 8
    ensures rv == |EncodeUnknowns(us)|
  {
    rv := 0;
    var i := 0;
    assert us[0..] == us;
    while i < |us|
      invariant 0 <= i <= |us|
      invariant |EncodeUnknowns(us)| == rv + |EncodeUnknowns(us[i..])|
    {
      UnknownsStep(us, i);
      TagSizeIsLength(us[i].tag, us[i].wire);
      rv := rv + TagSize(us[i].tag) + |us[i].data|;
      i := i + 1;
    }
  }

  method MessageSize(s: Schema, m: Message) returns (rv: nat)
    requires SchemaOk(s) && Shaped(s, m) && IsU32(|EncodeMessage(s, m)|)
    ensures rv == |EncodeMessage(s, m)|
    decreases m, 5
  {
    rv := SlotsSize(s, m);
    var n := UnknownsSize(m.unknown);
    rv := rv + n;
  }
}
