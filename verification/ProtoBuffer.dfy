/** The growing append buffer, and protobuf_c_message_pack_to_buffer on top of it. */
module ProtoBuffer {
  import opened Bytes
  import opened Base128
  import opened ProtoModel
  import opened ProtoPack
  import opened ProtoSize

  /** ProtobufCBufferSimple: the first `len` of the `alloced` bytes of `data` are in use. */
  class SimpleBuffer {
    var data: array<byte>
    var len: nat
    var alloced: nat

    ghost predicate Valid()
      reads this
    {
      len <= alloced == data.Length && alloced > 0
    }

    ghost function Contents(): seq<byte>
      requires Valid()
      reads this, data
    {
      data[..len]
    }

    constructor (capacity: nat)
      requires capacity > 0
      ensures Valid() && fresh(data) && alloced == capacity && Contents() == []
    {
      data := new byte[capacity](_ => 0);
      len, alloced := 0, capacity;
    }

    /** Doubles until the new bytes fit, moving what is there; existing contents are never altered. */
    method Append(b: seq<byte>)
      requires Valid()
      modifies this, data
      ensures Valid() && (data == old(data) || fresh(data))
      ensures Contents() == old(Contents()) + b
    {
      ghost var was := Contents();
      var newLen := len + |b|;
      if newLen > alloced {
        var newAlloced := alloced * 2;
        while newAlloced < newLen
          invariant newAlloced >= 2 * alloced
          decreases newLen - newAlloced
        {
          newAlloced := newAlloced + newAlloced;
        }
        var newData := new byte[newAlloced](_ => 0);
        forall i | 0 <= i < len { newData[i] := data[i]; }
        assert newData[..len] == data[..len];
        data, alloced := newData, newAlloced;
      }
      CopyIn(b, data, len);
      len := newLen;
    }
  }

  /** A scratch area big enough for a tag and a varint; `rv` bytes of it are passed on. */
  method AppendTag(id: nat, wire: nat, buffer: SimpleBuffer) returns (rv: nat)
    requires IsU32(id) && wire < 8 && buffer.Valid()
    modifies buffer, buffer.data
    ensures buffer.Valid() && (buffer.data == old(buffer.data) || fresh(buffer.data))
    ensures rv == |Tag(id, wire)| && buffer.Contents() == old(buffer.Contents()) + Tag(id, wire)
  {
    var scratch := new byte[20](_ => 0);
    TagSizeIsLength(id, wire);
    rv := WireTagPack(id, wire, scratch, 0);
    assert scratch[..rv] == Tag(id, wire);
    buffer.Append(scratch[..rv]);
  }

  method AppendPrefixed(id: nat, d: seq<byte>, buffer: SimpleBuffer) returns (rv: nat)
    requires IsU32(id) && IsU32(|d|) && buffer.Valid()
    modifies buffer, buffer.data
    ensures buffer.Valid() && (buffer.data == old(buffer.data) || fresh(buffer.data))
    ensures var e := Tag(id, LENGTH_PREFIXED) + Prefixed(d);
            rv == |e| && buffer.Contents() == old(buffer.Contents()) + e
  {
    ghost var was := buffer.Contents();
    rv := AppendHeader(id, |d|, buffer);
    buffer.Append(d);
    PrefixedAssociates(was, Tag(id, LENGTH_PREFIXED), d);
    rv := rv + |d|;
  }

  method AppendHeader(id: nat, len: nat, buffer: SimpleBuffer) returns (rv: nat)
    requires IsU32(id) && IsU32(len) && buffer.Valid()
    modifies buffer, buffer.data
    ensures buffer.Valid() && (buffer.data == old(buffer.data) || fresh(buffer.data))
    ensures var e := Tag(id, LENGTH_PREFIXED) + Varint(len);
            rv == |e| && buffer.Contents() == old(buffer.Contents()) + e
  {
    var scratch := new byte[20](_ => 0);
    TagSizeIsLength(id, LENGTH_PREFIXED);
    UInt32SizeIsLength(len);
    ghost var blank := scratch[..];
    rv := WireTagPack(id, LENGTH_PREFIXED, scratch, 0);
    var n := Uint32Pack(len, scratch, rv);
    SpliceAppend(blank, 0, Tag(id, LENGTH_PREFIXED), Varint(len));
    rv := rv + n;
    assert scratch[..rv] == Tag(id, LENGTH_PREFIXED) + Varint(len);
    buffer.Append(scratch[..rv]);
  }

  method AppendNum(f: Field, n: int, buffer: SimpleBuffer) returns (rv: nat)
    requires IsU32(f.id) && InRange(f.ty, n) && buffer.Valid()
    modifies buffer, buffer.data
    ensures buffer.Valid() && (buffer.data == old(buffer.data) || fresh(buffer.data))
    ensures var e := Tag(f.id, WireOf(f.ty)) + EncodeNum(f.ty, n);
            rv == |e| && buffer.Contents() == old(buffer.Contents()) + e
  {
    var scratch := new byte[20](_ => 0);
    TagSizeIsLength(f.id, WireOf(f.ty));
    UInt64SizeIsLength(Word(f.ty, n));
    ghost var blank := scratch[..];
    rv := WireTagPack(f.id, WireOf(f.ty), scratch, 0);
    var k := NumPack(f.ty, n, scratch, rv);
    SpliceAppend(blank, 0, Tag(f.id, WireOf(f.ty)), EncodeNum(f.ty, n));
    rv := rv + k;
    assert scratch[..rv] == Tag(f.id, WireOf(f.ty)) + EncodeNum(f.ty, n);
    buffer.Append(scratch[..rv]);
  }

  /** What a required value is on the wire, case by case. */
  lemma RequiredCases(s: Schema, f: Field, v: Value)
    requires BodyOk(s, f.ty, v)
    ensures var e := EncodeRequired(s, f, v);
            var size := |EncodeBody(s, f.ty, v)|;
            match v
            case Num(n) => InRange(f.ty, n) && e == Tag(f.id, WireOf(f.ty)) + EncodeNum(f.ty, n)
            case Data(d) =>
              var d' := if f.ty == Str then CString(d) else d;
              e == Tag(f.id, LENGTH_PREFIXED) + Prefixed(d') && |d'| <= size
            case Sub(m) =>
              var d' := EncodeMessage(s, m);
              e == Tag(f.id, LENGTH_PREFIXED) + Prefixed(d') && |d'| <= size
            case Null => e == Tag(f.id, LENGTH_PREFIXED) + Prefixed([])
  {
    assert Prefixed([]) == [0];
  }

  /** A nested message is packed into a buffer of its own first; only then is its length known. */
  method RequiredFieldToBuffer(s: Schema, f: Field, v: Value, buffer: SimpleBuffer, ghost parent: Message)
    returns (rv: nat)
    requires SchemaOk(s) && IsU32(f.id) && BodyOk(s, f.ty, v) && (v.Sub? ==> v.m < parent)
    requires IsU32(|EncodeBody(s, f.ty, v)|) && buffer.Valid()
    modifies buffer, buffer.data
    ensures buffer.Valid() && (buffer.data == old(buffer.data) || fresh(buffer.data))
    ensures rv == |EncodeRequired(s, f, v)|
    ensures buffer.Contents() == old(buffer.Contents()) + EncodeRequired(s, f, v)
    decreases parent, 1
  {
    hide EncodeRequired, EncodeBody, Tag, SchemaOk, InRange;
    RequiredCases(s, f, v);
    match v
    case Num(n) => rv := AppendNum(f, n, buffer);
    case Data(d) => rv := AppendPrefixed(f.id, if f.ty == Str then CString(d) else d, buffer);
    case Sub(m) =>
      var nested := new SimpleBuffer(256);
      var sublen := MessageToBuffer(s, m, nested);
      rv := AppendPrefixed(f.id, nested.data[..sublen], buffer);
    case Null =>
      rv := AppendPrefixed(f.id, [], buffer);
  }

  method MessageToBuffer(s: Schema, m: Message, buffer: SimpleBuffer) returns (rv: nat)
    requires SchemaOk(s) && Shaped(s, m) && IsU32(|EncodeMessage(s, m)|) && buffer.Valid()
    modifies buffer, buffer.data
    ensures buffer.Valid() && (buffer.data == old(buffer.data) || fresh(buffer.data))
    ensures rv == |EncodeMessage(s, m)|
    ensures buffer.Contents() == old(buffer.Contents()) + EncodeMessage(s, m)
    decreases m, 5
  {
    hide EncodeSlots, EncodeUnknowns;
    ghost var was := buffer.Contents();
    rv := SlotsToBuffer(s, m, buffer);
    ghost var slots := EncodeSlots(s, s[m.desc].fields, m.slots);
    var n := UnknownsToBuffer(m.unknown, buffer);
    ConcatAssociates(was, slots, EncodeUnknowns(m.unknown));
    rv := rv + n;
  }

  method SlotsToBuffer(s: Schema, m: Message, buffer: SimpleBuffer) returns (rv: nat)
    requires SchemaOk(s) && Shaped(s, m) && IsU32(|EncodeSlots(s, s[m.desc].fields, m.slots)|) && buffer.Valid()
    modifies buffer, buffer.data
    ensures buffer.Valid() && (buffer.data == old(buffer.data) || fresh(buffer.data))
    ensures rv == |EncodeSlots(s, s[m.desc].fields, m.slots)|
    ensures buffer.Contents() == old(buffer.Contents()) + EncodeSlots(s, s[m.desc].fields, m.slots)
    decreases m, 4
  {
    hide Appended, FieldOk, SlotShaped, EncodeSlot, EncodeSlots;
    var fs := s[m.desc].fields;
    ghost var was, all := buffer.Contents(), EncodeSlots(s, fs, m.slots);
    rv := 0;
    var i := 0;
    assert fs[0..] == fs && m.slots[0..] == m.slots;
    AppendedStart(was, all);
    while i < |fs|
      invariant 0 <= i <= |fs|
      invariant buffer.Valid() && (buffer.data == old(buffer.data) || fresh(buffer.data))
      invariant Appended(was, buffer.Contents(), all, rv, EncodeSlots(s, fs[i..], m.slots[i..]))
    {
      SlotsStep(s, fs, m.slots, i);
      NestedIsSmaller(m, i);
      AppendedStep(was, buffer.Contents(), all, rv,
                   EncodeSlot(s, fs[i], m.slots[i]), EncodeSlots(s, fs[i + 1..], m.slots[i + 1..]));
      var n := FieldToBuffer(s, fs[i], m.slots[i], buffer, m);
      rv := rv + n;
      i := i + 1;
    }
    NoSlots(s, fs[i..], m.slots[i..]);
    AppendedEnd(was, buffer.Contents(), all, rv);
  }

  /** Of `all`, the first `rv` bytes have been appended and `rest` is still to come. */
  ghost predicate Appended(was: seq<byte>, now: seq<byte>, all: seq<byte>, rv: nat, rest: seq<byte>)
  {
    rv + |rest| == |all| && all[rv..] == rest && now == was + all[..rv]
  }

  lemma AppendedStart(was: seq<byte>, all: seq<byte>)
    ensures Appended(was, was, all, 0, all)
  {
  }

  lemma AppendedEnd(was: seq<byte>, now: seq<byte>, all: seq<byte>, rv: nat)
    requires Appended(was, now, all, rv, [])
    ensures rv == |all| && now == was + all
  {
    assert all[..rv] == all;
  }

  lemma AppendedStep(was: seq<byte>, now: seq<byte>, all: seq<byte>, rv: nat, e: seq<byte>, rest: seq<byte>)
    requires Appended(was, now, all, rv, e + rest)
    ensures Appended(was, now + e, all, rv + |e|, rest) && |e| <= |all|
  {
    assert all[rv..][..|e|] == e && all[rv..][|e|..] == rest;
    assert all[..rv + |e|] == all[..rv] + e;
  }

  method FieldToBuffer(s: Schema, f: Field, slot: Slot, buffer: SimpleBuffer, ghost parent: Message)
    returns (rv: nat)
    requires SchemaOk(s) && FieldOk(s, f) && SlotShaped(s, f, slot) && buffer.Valid()
    requires slot.One? && slot.v.Some? && slot.v.value.Sub? ==> slot.v.value.m < parent
    requires slot.Many? ==> forall i | 0 <= i < |slot.vs| :: slot.vs[i].Sub? ==> slot.vs[i].m < parent
    requires IsU32(|EncodeSlot(s, f, slot)|)
    modifies buffer, buffer.data
    ensures buffer.Valid() && (buffer.data == old(buffer.data) || fresh(buffer.data))
    ensures rv == |EncodeSlot(s, f, slot)| && buffer.Contents() == old(buffer.Contents()) + EncodeSlot(s, f, slot)
    decreases parent, 3
  {
    match slot
    case One(v) =>
      if f.rule == Required {
        InitialBody(s, f);
        rv := RequiredFieldToBuffer(s, f, if v.Some? then v.value else Initial(f), buffer, parent);
      } else if v.Some? {
        rv := RequiredFieldToBuffer(s, f, v.value, buffer, parent);
      } else {
        rv := 0;
      }
    case Many(vs) =>
      if |vs| == 0 {
        rv := 0;
      } else if f.packed {
        rv := PackedToBuffer(f, vs, buffer);
      } else {
        rv := RepeatedToBuffer(s, f, vs, buffer, parent);
      }
  }

  lemma BodyFits(s: Schema, f: Field, v: Value)
    ensures |EncodeBody(s, f.ty, v)| <= |EncodeRequired(s, f, v)|
  {
  }

  lemma NoElements(s: Schema, f: Field, vs: seq<Value>)
    requires vs == []
    ensures EncodeAll(s, f, vs) == []
  {
  }

  method RepeatedToBuffer(s: Schema, f: Field, vs: seq<Value>, buffer: SimpleBuffer, ghost parent: Message)
    returns (rv: nat)
    requires SchemaOk(s) && IsU32(f.id) && buffer.Valid()
    requires forall i | 0 <= i < |vs| :: BodyOk(s, f.ty, vs[i]) && (vs[i].Sub? ==> vs[i].m < parent)
    requires IsU32(|EncodeAll(s, f, vs)|)
    modifies buffer, buffer.data
    ensures buffer.Valid() && (buffer.data == old(buffer.data) || fresh(buffer.data))
    ensures rv == |EncodeAll(s, f, vs)| && buffer.Contents() == old(buffer.Contents()) + EncodeAll(s, f, vs)
    decreases parent, 2
  {
    hide Appended, EncodeAll, EncodeRequired, EncodeBody, BodyOk, SchemaOk;
    ghost var was, all := buffer.Contents(), EncodeAll(s, f, vs);
    rv := 0;
    var i := 0;
    assert vs[0..] == vs;
    AppendedStart(was, all);
    while i < |vs|
      invariant 0 <= i <= |vs|
      invariant buffer.Valid() && (buffer.data == old(buffer.data) || fresh(buffer.data))
      invariant Appended(was, buffer.Contents(), all, rv, EncodeAll(s, f, vs[i..]))
    {
      AllStep(s, f, vs, i);
      AppendedStep(was, buffer.Contents(), all, rv, EncodeRequired(s, f, vs[i]), EncodeAll(s, f, vs[i + 1..]));
      BodyFits(s, f, vs[i]);
      var n := RequiredFieldToBuffer(s, f, vs[i], buffer, parent);
      rv := rv + n;
      i := i + 1;
    }
    assert EncodeAll(s, f, vs[i..]) == [] by { NoElements(s, f, vs[i..]); }
    AppendedEnd(was, buffer.Contents(), all, rv);
  }

  /** The size pass supplies the length prefix; `tmp == payload_len` is the assertion of the original. */
  method PackedToBuffer(f: Field, vs: seq<Value>, buffer: SimpleBuffer) returns (rv: nat)
    requires IsU32(f.id) && AllScalars(f.ty, vs) && vs != [] && IsU32(|EncodePacked(f, vs)|) && buffer.Valid()
    modifies buffer, buffer.data
    ensures buffer.Valid() && (buffer.data == old(buffer.data) || fresh(buffer.data))
    ensures rv == |EncodePacked(f, vs)| && buffer.Contents() == old(buffer.Contents()) + EncodePacked(f, vs)
  {
    ghost var was, payload := buffer.Contents(), EncodePayload(f.ty, vs);
    assert EncodePacked(f, vs) == Tag(f.id, LENGTH_PREFIXED) + Prefixed(payload);
    var payloadLen := PayloadLength(f.ty, vs);
    rv := AppendHeader(f.id, payloadLen, buffer);
    var tmp := PayloadToBuffer(f.ty, vs, buffer);
    assert tmp == payloadLen;
    PrefixedAssociates(was, Tag(f.id, LENGTH_PREFIXED), payload);
    rv := rv + payloadLen;
  }

  lemma PrefixedAssociates(was: seq<byte>, tag: seq<byte>, d: seq<byte>)
    ensures was + (tag + Varint(|d|)) + d == was + (tag + Prefixed(d))
  {
  }

  method AppendElement(t: FieldType, n: int, buffer: SimpleBuffer) returns (len: nat)
    requires InRange(t, n) && buffer.Valid()
    modifies buffer, buffer.data
    ensures buffer.Valid() && (buffer.data == old(buffer.data) || fresh(buffer.data))
    ensures len == |EncodeNum(t, n)| && buffer.Contents() == old(buffer.Contents()) + EncodeNum(t, n)
  {
    var scratch := new byte[16](_ => 0);
    UInt64SizeIsLength(Word(t, n));
    len := NumPack(t, n, scratch, 0);
    assert scratch[..len] == EncodeNum(t, n);
    buffer.Append(scratch[..len]);
  }

  method PayloadToBuffer(t: FieldType, vs: seq<Value>, buffer: SimpleBuffer) returns (rv: nat)
    requires AllScalars(t, vs) && buffer.Valid()
    modifies buffer, buffer.data
    ensures buffer.Valid() && (buffer.data == old(buffer.data) || fresh(buffer.data))
    ensures rv == |EncodePayload(t, vs)| && buffer.Contents() == old(buffer.Contents()) + EncodePayload(t, vs)
  {
    hide Appended, EncodePayload, EncodeNum;
    ghost var was, all := buffer.Contents(), EncodePayload(t, vs);
    rv := 0;
    var i := 0;
    assert vs[0..] == vs;
    AppendedStart(was, all);
    while i < |vs|
      invariant 0 <= i <= |vs|
      invariant buffer.Valid() && (buffer.data == old(buffer.data) || fresh(buffer.data))
      invariant Appended(was, buffer.Contents(), all, rv, EncodePayload(t, vs[i..]))
    {
      PayloadStep(t, vs, i);
      AppendedStep(was, buffer.Contents(), all, rv, EncodeNum(t, vs[i].n), EncodePayload(t, vs[i + 1..]));
      var len := AppendElement(t, vs[i].n, buffer);
      rv := rv + len;
      i := i + 1;
    }
    NoPayload(t, vs[i..]);
    AppendedEnd(was, buffer.Contents(), all, rv);
  }

  method UnknownsToBuffer(us: seq<Unknown>, buffer: SimpleBuffer) returns (rv: nat)
    requires (forall i | 0 <= i < |us| :: IsU32(us[i].tag) && us[i].wire < 8) && buffer.Valid()
    modifies buffer, buffer.data
    ensures buffer.Valid() && (buffer.data == old(buffer.data) || fresh(buffer.data))
    ensures rv == |EncodeUnknowns(us)| && buffer.Contents() == old(buffer.Contents()) + EncodeUnknowns(us)
  {
    hide Appended;
    ghost var was, all := buffer.Contents(), EncodeUnknowns(us);
    rv := 0;
    var i := 0;
    assert us[0..] == us;
    AppendedStart(was, all);
    while i < |us|
      invariant 0 <= i <= |us|
      invariant buffer.Valid() && (buffer.data == old(buffer.data) || fresh(buffer.data))
      invariant Appended(was, buffer.Contents(), all, rv, EncodeUnknowns(us[i..]))
    {
      UnknownsStep(us, i);
      AppendedStep(was, buffer.Contents(), all, rv, EncodeUnknown(us[i]), EncodeUnknowns(us[i + 1..]));
      ghost var before := buffer.Contents();
      var n := AppendTag(us[i].tag, us[i].wire, buffer);
      buffer.Append(us[i].data);
      ConcatAssociates(before, Tag(us[i].tag, us[i].wire), us[i].data);
      rv := rv + n + |us[i].data|;
      i := i + 1;
    }
    AppendedEnd(was, buffer.Contents(), all, rv);
  }
}
