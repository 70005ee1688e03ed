/**
 protobuf_c_message_pack and its helpers, writing into a flat buffer.

 Every writer is specified by what the whole buffer looks like afterwards: the encoding of its
 argument spliced in at the write position, and not one byte touched outside of it.
 */
module ProtoPack {
  import opened Bytes
  import opened Base128
  import opened ProtoModel

  // ---------- tags ----------

  /** The low three bits of a tag are free, so or-ing in the wire type is an addition to the first byte. */
  lemma TagWithWire(id: nat, wire: nat)
    requires wire < 8
    ensures Tag(id, 0)[0] % 8 == 0
    ensures Tag(id, 0)[0] + wire < 256
    ensures Tag(id, wire) == Tag(id, 0)[0 := Tag(id, 0)[0] + wire]
  {
    LowGroup(id, wire);
  }

  lemma LowGroup(id: nat, wire: nat)
    requires wire < 8
    ensures var t := id * 8;
            && (t + wire) / 128 == t / 128 && (t + wire) % 128 == t % 128 + wire && t % 128 % 8 == 0
            && (t >= 128 <==> t + wire >= 128) && t % 128 + wire < 128
  {
    var q, r := id / 16, id % 16;
    assert id * 8 == 128 * q + 8 * r;
    Mod128(id * 8, q, 8 * r);
    Mod128(id * 8 + wire, q, 8 * r + wire);
  }

  method TagPack(id: nat, out: array<byte>, at: nat) returns (rv: nat)
    requires IsU32(id) && at + |Tag(id, 0)| <= out.Length
    modifies out
    ensures rv == |Tag(id, 0)| && out[..] == Splice(old(out[..]), at, Tag(id, 0))
  {
    if id < 0x2000_0000 {
      rv := Uint32Pack(id * 8, out, at);
    } else {
      rv := Uint64Pack(id * 8, out, at);
    }
  }

  /** tag_pack followed by `out[0] |= wire`. */
  method WireTagPack(id: nat, wire: nat, out: array<byte>, at: nat) returns (rv: nat)
    requires IsU32(id) && wire < 8 && at + |Tag(id, wire)| <= out.Length
    modifies out
    ensures rv == |Tag(id, wire)| && out[..] == Splice(old(out[..]), at, Tag(id, wire))
  {
    TagWithWire(id, wire);
    ghost var was := out[..];
    rv := TagPack(id, out, at);
    ghost var now := out[..];
    assert now[at] == Tag(id, 0)[0] by { assert now[at..at + rv][0] == Tag(id, 0)[0]; }
    out[at] := out[at] + wire;
    assert out[..] == Splice(was, at, Tag(id, wire)) by {
      assert out[..] == now[at := now[at] + wire];
    }
  }

  // ---------- block copies ----------

  /** memmove: the source range is read in full before anything is written. */
  method MemMove(out: array<byte>, dst: nat, src: nat, n: nat)
    requires dst + n <= out.Length && src + n <= out.Length
    modifies out
    ensures out[..] == Splice(old(out[..]), dst, old(out[..])[src..src + n])
  {
    ghost var was := out[..];
    forall i | 0 <= i < n { out[dst + i] := out[src + i]; }
    assert out[dst..dst + n] == was[src..src + n];
    assert out[..] == out[..dst] + out[dst..dst + n] + out[dst + n..];
  }

  /** string_pack and binary_data_pack: the length as a varint, then the bytes. */
  method PrefixedPack(d: seq<byte>, out: array<byte>, at: nat) returns (rv: nat)
    requires IsU32(|d|) && at + |Prefixed(d)| <= out.Length
    modifies out
    ensures rv == |Prefixed(d)| && out[..] == Splice(old(out[..]), at, Prefixed(d))
  {
    ghost var was := out[..];
    rv := Uint32Pack(|d|, out, at);
    CopyIn(d, out, at + rv);
    SpliceAppend(was, at, Varint(|d|), d);
    rv := rv + |d|;
  }

  // ---------- scalars ----------

  method FixedPack(w: nat, n: nat, out: array<byte>, at: nat) returns (rv: nat)
    requires at + n <= out.Length
    modifies out
    ensures rv == n && out[..] == Splice(old(out[..]), at, LittleEndian(w, n))
  {
    CopyIn(LittleEndian(w, n), out, at);
    rv := n;
  }

  /** The scalar cases of the switch in required_field_pack. */
  method NumPack(t: FieldType, n: int, out: array<byte>, at: nat) returns (rv: nat)
    requires InRange(t, n) && at + |EncodeNum(t, n)| <= out.Length
    modifies out
    ensures rv == |EncodeNum(t, n)| && out[..] == Splice(old(out[..]), at, EncodeNum(t, n))
  {
    match t
    case SInt32 => rv := Uint32Pack(ZigZag32(n), out, at);
    case Enum | Int32 => rv := Int32Pack(n, out, at);
    case UInt32 => rv := Uint32Pack(n, out, at);
    case SInt64 => rv := Uint64Pack(ZigZag64(n), out, at);
    case Int64 => rv := Uint64Pack(Extend64(n), out, at);
    case UInt64 => rv := Uint64Pack(n, out, at);
    case SFixed32 | Fixed32 | Float => rv := FixedPack(Word(t, n), 4, out, at);
    case SFixed64 | Fixed64 | Double => rv := FixedPack(Word(t, n), 8, out, at);
    case Bool =>
      CopyIn([if n != 0 then 1 else 0], out, at);
      rv := 1;
  }

  // ---------- fields ----------

  /** What a packer may be handed: a C value of the field's type, or the NULL that stands for an empty one. */
  ghost predicate BodyOk(s: Schema, t: FieldType, v: Value)
  {
    match v
    case Num(n) => InRange(t, n)
    case Data(_) => t == Str || t == Binary
    case Sub(m) => t == Msg && Shaped(s, m)
    case Null => t == Str || t == Msg
  }

  /** `parent` is the message being packed; it bounds the recursion into nested messages. */
  method RequiredFieldPack(s: Schema, f: Field, v: Value, out: array<byte>, at: nat, ghost parent: Message)
    returns (rv: nat)
    requires SchemaOk(s) && IsU32(f.id) && BodyOk(s, f.ty, v)
    requires v.Sub? ==> v.m < parent
    requires IsU32(|EncodeBody(s, f.ty, v)|) && at + |EncodeRequired(s, f, v)| <= out.Length
    modifies out
    ensures rv == |EncodeRequired(s, f, v)| && out[..] == Splice(old(out[..]), at, EncodeRequired(s, f, v))
    decreases parent, 1
  {
    ghost var was := out[..];
    rv := WireTagPack(f.id, WireOf(f.ty), out, at);
    var body := BodyPack(s, f.ty, v, out, at + rv, parent);
    SpliceAppend(was, at, Tag(f.id, WireOf(f.ty)), EncodeBody(s, f.ty, v));
    rv := rv + body;
  }

  /** The switch of required_field_pack. */
  method BodyPack(s: Schema, t: FieldType, v: Value, out: array<byte>, at: nat, ghost parent: Message)
    returns (rv: nat)
    requires SchemaOk(s) && BodyOk(s, t, v)
    requires v.Sub? ==> v.m < parent
    requires IsU32(|EncodeBody(s, t, v)|) && at + |EncodeBody(s, t, v)| <= out.Length
    modifies out
    ensures rv == |EncodeBody(s, t, v)| && out[..] == Splice(old(out[..]), at, EncodeBody(s, t, v))
    decreases parent, 0
  {
    match v
    case Num(n) => rv := NumPack(t, n, out, at);
    case Data(d) => rv := PrefixedPack(if t == Str then CString(d) else d, out, at);
    case Sub(m) => rv := PrefixedMessagePack(s, m, out, at);
    case Null =>
      CopyIn([0], out, at);
      rv := 1;
  }

  /** The message is packed one byte in, moved up if its length needs more than one byte, then prefixed. */
  method PrefixedMessagePack(s: Schema, m: Message, out: array<byte>, at: nat) returns (rv: nat)
    requires SchemaOk(s) && Shaped(s, m)
    requires IsU32(|EncodeMessage(s, m)|) && at + |Prefixed(EncodeMessage(s, m))| <= out.Length
    modifies out
    ensures rv == |Prefixed(EncodeMessage(s, m))|
    ensures out[..] == Splice(old(out[..]), at, Prefixed(EncodeMessage(s, m)))
    decreases m, 6
  {
    hide Splice, EncodeMessage, Shaped, SchemaOk, Varint, BodyInPlace;
    ghost var was, e := out[..], EncodeMessage(s, m);
    UInt32SizeIsLength(|e|);
    MovedUp(was, at, at + 1, at + UInt32Size(|e|), e);
    rv := MessagePack(s, m, out, at + 1);
    var size := UInt32Size(rv);
    if size != 1 {
      MemMove(out, at + size, at + 1, rv);
    }
    ghost var moved := out[..];
    assert BodyInPlace(was, moved, at, at + |Varint(|e|)|, e);
    PrefixedInPlace(was, moved, at, e);
    var prefix := Uint32Pack(rv, out, at);
    rv := prefix + rv;
  }

  /** The body sits at `dst`, and nothing before `at` or behind it has changed. */
  ghost predicate BodyInPlace(was: seq<byte>, moved: seq<byte>, at: nat, dst: nat, e: seq<byte>)
  {
    && |was| == |moved| && at <= dst && dst + |e| <= |was|
    && moved[dst..dst + |e|] == e && moved[..at] == was[..at] && moved[dst + |e|..] == was[dst + |e|..]
  }

  /** Written at `src` and then moved to `dst`. */
  lemma MovedUp(was: seq<byte>, at: nat, src: nat, dst: nat, e: seq<byte>)
    requires at <= src <= dst && dst + |e| <= |was|
    ensures var w := Splice(was, src, e);
            BodyInPlace(was, if src == dst then w else Splice(w, dst, w[src..src + |e|]), at, dst, e)
  {
    var w := Splice(was, src, e);
    assert w[..at] == was[..at] by { assert w[..src][..at] == w[..at] && was[..src][..at] == was[..at]; }
    if src < dst {
      var moved := Splice(w, dst, e);
      assert moved[..at] == w[..at] by { assert moved[..dst][..at] == moved[..at] && w[..dst][..at] == w[..at]; }
      assert w[dst + |e|..] == w[src + |e|..][dst - src..];
      assert was[dst + |e|..] == was[src + |e|..][dst - src..];
    }
  }

  /** Once the body sits where the finished prefix will end, writing the prefix completes the field. */
  lemma PrefixedInPlace(was: seq<byte>, moved: seq<byte>, at: nat, e: seq<byte>)
    requires BodyInPlace(was, moved, at, at + |Varint(|e|)|, e)
    ensures Splice(moved, at, Varint(|e|)) == Splice(was, at, Prefixed(e))
  {
    var p := Varint(|e|);
    assert moved[at + |p|..] == e + moved[at + |p| + |e|..];
  }

  // ---------- repeated fields ----------

  function TypeMinSize(t: FieldType): (r: nat)
  {
    if t == SFixed32 || t == Fixed32 || t == Float then 4
    else if t == SFixed64 || t == Fixed64 || t == Double then 8
    else 1
  }

  ghost predicate AllScalars(t: FieldType, vs: seq<Value>)
  {
    forall i | 0 <= i < |vs| :: vs[i].Num? && InRange(t, vs[i].n)
  }

  lemma {:induction false} PayloadBounds(t: FieldType, vs: seq<Value>)
    requires AllScalars(t, vs)
    ensures TypeMinSize(t) * |vs| <= |EncodePayload(t, vs)|
    ensures |EncodePayload(t, vs)| <= (if TypeMinSize(t) == 1 then 10 else TypeMinSize(t)) * |vs|
  {
    hide EncodeNum, InRange;
    if vs != [] {
      NumBounds(t, vs[0].n);
      PayloadBounds(t, vs[1..]);
    }
  }

  lemma NumBounds(t: FieldType, n: int)
    requires InRange(t, n)
    ensures TypeMinSize(t) <= |EncodeNum(t, n)| <= if TypeMinSize(t) == 1 then 10 else TypeMinSize(t)
  {
    UInt64SizeIsLength(Word(t, n));
  }

  lemma {:induction false} LongerNumber(a: nat, b: nat)
    requires a <= b
    ensures |Varint(a)| <= |Varint(b)|
  {
    if a >= 128 { LongerNumber(a / 128, b / 128); }
  }

  /** A number at most ten times as large needs at most one more group. */
  lemma TenfoldNeedsOneMore(a: nat, b: nat)
    requires 1 <= a <= b <= 10 * a
    ensures |Varint(a)| <= |Varint(b)| <= |Varint(a)| + 1
  {
    LongerNumber(a, b);
    LongerNumber(b, 128 * a);
    assert Varint(128 * a) == [(128 * a) % 128 + 128] + Varint(128 * a / 128);
  }

  /** The assertion in repeated_field_pack: the guessed length prefix is exact or one byte short. */
  lemma LengthGuess(t: FieldType, vs: seq<Value>)
    requires AllScalars(t, vs) && vs != []
    ensures var guess, actual := |Varint(TypeMinSize(t) * |vs|)|, |Varint(|EncodePayload(t, vs)|)|;
            actual == guess || actual == guess + 1
    ensures TypeMinSize(t) * |vs| <= |EncodePayload(t, vs)|
  {
    hide Varint, EncodePayload, AllScalars;
    PayloadBounds(t, vs);
    Tenfold(TypeMinSize(t), |vs|, |EncodePayload(t, vs)|);
    TenfoldNeedsOneMore(TypeMinSize(t) * |vs|, |EncodePayload(t, vs)|);
  }

  lemma Tenfold(size: nat, n: nat, length: nat)
    requires n >= 1 && (size == 1 || size == 4 || size == 8)
    requires size * n <= length <= (if size == 1 then 10 else size) * n
    ensures 1 <= size * n <= length <= 10 * (size * n)
  {
    if size == 1 { assert size * n == n; } else if size == 4 { assert size * n == 4 * n; }
  }

  lemma PayloadStep(t: FieldType, vs: seq<Value>, i: nat)
    requires AllScalars(t, vs) && i < |vs|
    ensures EncodePayload(t, vs[i..]) == EncodeNum(t, vs[i].n) + EncodePayload(t, vs[i + 1..])
  {
    assert vs[i..][1..] == vs[i + 1..];
  }

  lemma NoPayload(t: FieldType, vs: seq<Value>)
    requires vs == []
    ensures EncodePayload(t, vs) == []
  {
  }

  /** The element loop of the packed case; on this little-endian target memcpy of words is the same loop. */
  method PayloadPack(t: FieldType, vs: seq<Value>, out: array<byte>, at: nat) returns (rv: nat)
    requires AllScalars(t, vs) && at + |EncodePayload(t, vs)| <= out.Length
    modifies out
    ensures rv == |EncodePayload(t, vs)| && out[..] == Splice(old(out[..]), at, EncodePayload(t, vs))
  {
    hide Written, Splice, EncodePayload, EncodeNum;
    ghost var was, all := out[..], EncodePayload(t, vs);
    rv := 0;
    var i := 0;
    assert vs[0..] == vs;
    WrittenStart(was, at, all);
    while i < |vs|
      invariant 0 <= i <= |vs| && out.Length == |was|
      invariant Written(was, out[..], at, all, rv, EncodePayload(t, vs[i..]))
    {
      PayloadStep(t, vs, i);
      WrittenStep(was, out[..], at, all, rv, EncodeNum(t, vs[i].n), EncodePayload(t, vs[i + 1..]));
      var n := NumPack(t, vs[i].n, out, at + rv);
      rv := rv + n;
      i := i + 1;
    }
    NoPayload(t, vs[i..]);
    WrittenEnd(was, out[..], at, all, rv);
  }

  /**
   The packed case: the length prefix gets as many bytes as the smallest possible payload would need,
   the payload goes behind it, and moves up one byte if that guess was short.
   */
  method PackedFieldPack(f: Field, vs: seq<Value>, out: array<byte>, at: nat) returns (rv: nat)
    requires IsU32(f.id) && AllScalars(f.ty, vs)
    requires IsU32(|EncodePacked(f, vs)|) && at + |EncodePacked(f, vs)| <= out.Length
    modifies out
    ensures rv == |EncodePacked(f, vs)| && out[..] == Splice(old(out[..]), at, EncodePacked(f, vs))
  {
    if |vs| == 0 {
      assert Splice(out[..], at, []) == out[..];
      return 0;
    }
    ghost var was := out[..];
    rv := WireTagPack(f.id, LENGTH_PREFIXED, out, at);
    var n := BackPatchedPayload(f.ty, vs, out, at + rv);
    SpliceAppend(was, at, Tag(f.id, LENGTH_PREFIXED), Prefixed(EncodePayload(f.ty, vs)));
    rv := rv + n;
  }

  method BackPatchedPayload(t: FieldType, vs: seq<Value>, out: array<byte>, at: nat) returns (rv: nat)
    requires AllScalars(t, vs) && vs != []
    requires IsU32(|EncodePayload(t, vs)|) && at + |Prefixed(EncodePayload(t, vs))| <= out.Length
    modifies out
    ensures rv == |Prefixed(EncodePayload(t, vs))|
    ensures out[..] == Splice(old(out[..]), at, Prefixed(EncodePayload(t, vs)))
  {
    hide Splice, EncodePayload, Varint, AllScalars, BodyInPlace, TypeMinSize;
    ghost var was, payload := out[..], EncodePayload(t, vs);
    LengthGuess(t, vs);
    var minLength := TypeMinSize(t) * |vs|;
    var lengthSizeMin := UInt32Size(minLength);
    UInt32SizeIsLength(minLength);
    UInt32SizeIsLength(|payload|);
    MovedUp(was, at, at + lengthSizeMin, at + |Varint(|payload|)|, payload);
    var headerLen := lengthSizeMin;
    var payloadLen := PayloadPack(t, vs, out, at + headerLen);
    var actualLengthSize := UInt32Size(payloadLen);
    if lengthSizeMin != actualLengthSize {
      assert actualLengthSize == lengthSizeMin + 1;
      MemMove(out, at + headerLen + 1, at + headerLen, payloadLen);
      headerLen := headerLen + 1;
    }
    ghost var moved := out[..];
    assert BodyInPlace(was, moved, at, at + |Varint(|payload|)|, payload);
    PrefixedInPlace(was, moved, at, payload);
    var n := Uint32Pack(payloadLen, out, at);
    rv := headerLen + payloadLen;
  }

  lemma AllStep(s: Schema, f: Field, vs: seq<Value>, i: nat)
    requires i < |vs|
    ensures EncodeAll(s, f, vs[i..]) == EncodeRequired(s, f, vs[i]) + EncodeAll(s, f, vs[i + 1..])
  {
    assert vs[i..][1..] == vs[i + 1..];
  }

  method RepeatedFieldPack(s: Schema, f: Field, vs: seq<Value>, out: array<byte>, at: nat, ghost parent: Message)
    returns (rv: nat)
    requires SchemaOk(s) && IsU32(f.id)
    requires forall i | 0 <= i < |vs| :: BodyOk(s, f.ty, vs[i]) && (vs[i].Sub? ==> vs[i].m < parent)
    requires IsU32(|EncodeAll(s, f, vs)|) && at + |EncodeAll(s, f, vs)| <= out.Length
    modifies out
    ensures rv == |EncodeAll(s, f, vs)| && out[..] == Splice(old(out[..]), at, EncodeAll(s, f, vs))
    decreases parent, 2
  {
    hide Written, Splice;
    ghost var was, all := out[..], EncodeAll(s, f, vs);
    rv := 0;
    var i := 0;
    assert vs[0..] == vs;
    WrittenStart(was, at, all);
    while i < |vs|
      invariant 0 <= i <= |vs| && out.Length == |was|
      invariant Written(was, out[..], at, all, rv, EncodeAll(s, f, vs[i..]))
    {
      AllStep(s, f, vs, i);
      WrittenStep(was, out[..], at, all, rv, EncodeRequired(s, f, vs[i]), EncodeAll(s, f, vs[i + 1..]));
      var n := RequiredFieldPack(s, f, vs[i], out, at + rv, parent);
      rv := rv + n;
      i := i + 1;
    }
    WrittenEnd(was, out[..], at, all, rv);
  }

  // ---------- messages ----------

  /** The initial value of a member packs like any other value of its type. */
  lemma InitialBody(s: Schema, f: Field)
    requires FieldOk(s, f)
    ensures BodyOk(s, f.ty, Initial(f)) && !Initial(f).Sub?
    ensures EncodeInitial(f) == EncodeBody(s, f.ty, Initial(f))
  {
    if f.dflt.Some? { assert ValueShaped(s, f, f.dflt.value); }
  }

  /** The branch on the label in protobuf_c_message_pack. */
  method FieldPack(s: Schema, f: Field, slot: Slot, out: array<byte>, at: nat, ghost parent: Message)
    returns (rv: nat)
    requires SchemaOk(s) && FieldOk(s, f) && SlotShaped(s, f, slot)
    requires slot.One? && slot.v.Some? && slot.v.value.Sub? ==> slot.v.value.m < parent
    requires slot.Many? ==> forall i | 0 <= i < |slot.vs| :: slot.vs[i].Sub? ==> slot.vs[i].m < parent
    requires IsU32(|EncodeSlot(s, f, slot)|) && at + |EncodeSlot(s, f, slot)| <= out.Length
    modifies out
    ensures rv == |EncodeSlot(s, f, slot)| && out[..] == Splice(old(out[..]), at, EncodeSlot(s, f, slot))
    decreases parent, 3
  {
    match slot
    case One(v) =>
      if f.rule == Required {
        InitialBody(s, f);
        rv := RequiredFieldPack(s, f, if v.Some? then v.value else Initial(f), out, at, parent);
      } else if v.Some? {
        rv := RequiredFieldPack(s, f, v.value, out, at, parent);
      } else {
        assert Splice(out[..], at, []) == out[..];
        rv := 0;
      }
    case Many(vs) =>
      if f.packed {
        rv := PackedFieldPack(f, vs, out, at);
      } else {
        rv := RepeatedFieldPack(s, f, vs, out, at, parent);
      }
  }

  method UnknownFieldPack(u: Unknown, out: array<byte>, at: nat) returns (rv: nat)
    requires IsU32(u.tag) && u.wire < 8 && at + |EncodeUnknown(u)| <= out.Length
    modifies out
    ensures rv == |EncodeUnknown(u)| && out[..] == Splice(old(out[..]), at, EncodeUnknown(u))
  {
    ghost var was := out[..];
    rv := WireTagPack(u.tag, u.wire, out, at);
    CopyIn(u.data, out, at + rv);
    SpliceAppend(was, at, Tag(u.tag, u.wire), u.data);
    rv := rv + |u.data|;
  }

  lemma SlotsStep(s: Schema, fs: seq<Field>, slots: seq<Slot>, i: nat)
    requires |fs| == |slots| && i < |fs|
    ensures EncodeSlots(s, fs[i..], slots[i..])
         == EncodeSlot(s, fs[i], slots[i]) + EncodeSlots(s, fs[i + 1..], slots[i + 1..])
  {
    assert fs[i..][1..] == fs[i + 1..] && slots[i..][1..] == slots[i + 1..];
  }

  lemma UnknownsStep(us: seq<Unknown>, i: nat)
    requires i < |us|
    ensures EncodeUnknowns(us[i..]) == EncodeUnknown(us[i]) + EncodeUnknowns(us[i + 1..])
  {
    assert us[i..][1..] == us[i + 1..];
  }

  /** Nested messages are smaller than the message they sit in. */
  lemma NestedIsSmaller(m: Message, i: nat)
    requires i < |m.slots|
    ensures m.slots[i].One? && m.slots[i].v.Some? && m.slots[i].v.value.Sub? ==> m.slots[i].v.value.m < m
    ensures m.slots[i].Many? ==>
              forall j | 0 <= j < |m.slots[i].vs| :: m.slots[i].vs[j].Sub? ==> m.slots[i].vs[j].m < m
  {
  }

  method SlotsPack(s: Schema, m: Message, out: array<byte>, at: nat) returns (rv: nat)
    requires SchemaOk(s) && Shaped(s, m)
    requires IsU32(|EncodeSlots(s, s[m.desc].fields, m.slots)|)
    requires at + |EncodeSlots(s, s[m.desc].fields, m.slots)| <= out.Length
    modifies out
    ensures rv == |EncodeSlots(s, s[m.desc].fields, m.slots)|
    ensures out[..] == Splice(old(out[..]), at, EncodeSlots(s, s[m.desc].fields, m.slots))
    decreases m, 4
  {
    hide Written, Splice, FieldOk, SlotShaped, EncodeSlot, EncodeSlots;
    var fs := s[m.desc].fields;
    ghost var was, all := out[..], EncodeSlots(s, fs, m.slots);
    rv := 0;
    var i := 0;
    assert fs[0..] == fs && m.slots[0..] == m.slots;
    WrittenStart(was, at, all);
    while i < |fs|
      invariant 0 <= i <= |fs| && out.Length == |was|
      invariant Written(was, out[..], at, all, rv, EncodeSlots(s, fs[i..], m.slots[i..]))
    {
      SlotsStep(s, fs, m.slots, i);
      NestedIsSmaller(m, i);
      WrittenStep(was, out[..], at, all, rv,
                  EncodeSlot(s, fs[i], m.slots[i]), EncodeSlots(s, fs[i + 1..], m.slots[i + 1..]));
      var n := FieldPack(s, fs[i], m.slots[i], out, at + rv, m);
      rv := rv + n;
      i := i + 1;
    }
    NoSlots(s, fs[i..], m.slots[i..]);
    WrittenEnd(was, out[..], at, all, rv);
  }

  lemma NoSlots(s: Schema, fs: seq<Field>, slots: seq<Slot>)
    requires fs == []
    ensures EncodeSlots(s, fs, slots) == []
  {
  }

  method UnknownsPack(us: seq<Unknown>, out: array<byte>, at: nat) returns (rv: nat)
    requires forall i | 0 <= i < |us| :: IsU32(us[i].tag) && us[i].wire < 8
    requires at + |EncodeUnknowns(us)| <= out.Length
    modifies out
    ensures rv == |EncodeUnknowns(us)| && out[..] == Splice(old(out[..]), at, EncodeUnknowns(us))
  {
    hide Written, Splice;
    ghost var was, all := out[..], EncodeUnknowns(us);
    rv := 0;
    var i := 0;
    assert us[0..] == us;
    WrittenStart(was, at, all);
    while i < |us|
      invariant 0 <= i <= |us| && out.Length == |was|
      invariant Written(was, out[..], at, all, rv, EncodeUnknowns(us[i..]))
    {
      UnknownsStep(us, i);
      WrittenStep(was, out[..], at, all, rv, EncodeUnknown(us[i]), EncodeUnknowns(us[i + 1..]));
      var n := UnknownFieldPack(us[i], out, at + rv);
      rv := rv + n;
      i := i + 1;
    }
    WrittenEnd(was, out[..], at, all, rv);
  }

  /** protobuf_c_message_pack: the declared fields in descriptor order, then the unknown ones. */
  method MessagePack(s: Schema, m: Message, out: array<byte>, at: nat) returns (rv: nat)
    requires SchemaOk(s) && Shaped(s, m)
    requires IsU32(|EncodeMessage(s, m)|) && at + |EncodeMessage(s, m)| <= out.Length
    modifies out
    ensures rv == |EncodeMessage(s, m)|
    ensures out[..] == Splice(old(out[..]), at, EncodeMessage(s, m))
    decreases m, 5
  {
    ghost var was := out[..];
    rv := SlotsPack(s, m, out, at);
    var n := UnknownsPack(m.unknown, out, at + rv);
    SpliceAppend(was, at, EncodeSlots(s, s[m.desc].fields, m.slots), EncodeUnknowns(m.unknown));
    rv := rv + n;
  }
}
