/** The bytes of the format in plain numbers: what stands on the wire for every type, set or not, packed or not. */
module ProtoBytes {
  import opened Bytes
  import opened Base128
  import opened ProtoModel
  import opened ProtoPack

  // ---------- words ----------

  /** Groups of seven bits, the least significant first, all but the last with the high bit. */
  lemma VarintInBytes(v: nat)
    ensures v < 128 ==> Varint(v) == [v]
    ensures 128 <= v < 16384 ==> Varint(v) == [v % 128 + 128, v / 128]
    ensures v >= 16384 ==> Varint(v) == [v % 128 + 128, v / 128 % 128 + 128] + Varint(v / 16384)
  {
    hide Varint;
    OneGroup(v);
    OneGroup(v / 128);
    assert v >= 16384 ==> v / 128 / 128 == v / 16384;
    if v >= 16384 { TwoGroups(v % 128 + 128, v / 128 % 128 + 128, Varint(v / 16384)); }
  }

  lemma TwoGroups(a: byte, b: byte, rest: seq<byte>)
    ensures [a] + ([b] + rest) == [a, b] + rest
  {
  }

  lemma OneGroup(v: nat)
    ensures Varint(v) == if v < 128 then [v] else [v % 128 + 128] + Varint(v / 128)
  {
  }

  lemma OneByte(v: nat, n: nat)
    requires n > 0
    ensures LittleEndian(v, n) == [v % 256] + LittleEndian(v / 256, n - 1)
  {
  }

  lemma FirstFour(v: nat, n: nat)
    requires n >= 4
    ensures LittleEndian(v, n) ==
            [v % 256, v / 256 % 256, v / 65536 % 256, v / 16777216 % 256] + LittleEndian(v / 0x1_0000_0000, n - 4)
  {
    hide LittleEndian;
    var a, b, c := v / 256, v / 65536, v / 16777216;
    assert a / 256 == b && b / 256 == c && c / 256 == v / 0x1_0000_0000;
    OneByte(v, n);
    OneByte(a, n - 1);
    OneByte(b, n - 2);
    OneByte(c, n - 3);
  }

  /** Words of fixed width have their least significant byte first. */
  lemma FourBytes(v: nat)
    requires v < 0x1_0000_0000
    ensures LittleEndian(v, 4) == [v % 256, v / 256 % 256, v / 65536 % 256, v / 16777216]
  {
    FirstFour(v, 4);
  }

  lemma EightBytes(v: nat)
    requires v < 0x1_0000_0000_0000_0000
    ensures LittleEndian(v, 8) ==
            [v % 256, v / 256 % 256, v / 65536 % 256, v / 16777216 % 256] + LittleEndian(v / 0x1_0000_0000, 4)
  {
    FirstFour(v, 8);
  }

  // ---------- the tag ----------

  /** The wire type, by the type of the field: the number that the low three bits of the first tag byte hold. */
  lemma WireNumbers(t: FieldType)
    ensures match t
            case Int32 | SInt32 | UInt32 | Int64 | SInt64 | UInt64 | Bool | Enum => WireOf(t) == 0
            case SFixed64 | Fixed64 | Double => WireOf(t) == 1
            case Str | Binary | Msg => WireOf(t) == 2
            case SFixed32 | Fixed32 | Float => WireOf(t) == 5
  {
  }

  /** A field goes out as its number times eight plus the wire type, as a varint, and then the body. */
  lemma TagOfField(s: Schema, f: Field, v: Value)
    ensures var w := match f.ty
                     case Int32 | SInt32 | UInt32 | Int64 | SInt64 | UInt64 | Bool | Enum => 0
                     case SFixed64 | Fixed64 | Double => 1
                     case Str | Binary | Msg => 2
                     case SFixed32 | Fixed32 | Float => 5;
            var e := EncodeRequired(s, f, v);
            e == Varint(8 * f.id + w) + EncodeBody(s, f.ty, v) && e[0] % 8 == w
  {
    hide EncodeBody, Varint, WireOf;
    WireNumbers(f.ty);
    FirstOfVarint(8 * f.id + WireOf(f.ty));
  }

  lemma FirstOfVarint(v: nat)
    ensures Varint(v)[0] % 8 == v % 8
  {
    if v >= 128 { assert v % 128 % 8 == v % 8; }
  }

  /** Packed elements share one tag, of wire type 2, and one length. */
  lemma PackedBytes(s: Schema, f: Field, vs: seq<Value>)
    requires f.packed && vs != []
    ensures var payload := EncodePayload(f.ty, vs);
            EncodeSlot(s, f, Many(vs)) == Varint(8 * f.id + 2) + Varint(|payload|) + payload
  {
  }

  lemma NothingPacked(s: Schema, f: Field)
    ensures EncodeSlot(s, f, Many([])) == []
  {
  }

  // ---------- the body ----------

  /** Every scalar, by its type. */
  lemma ScalarBytes(t: FieldType, n: int)
    requires InRange(t, n)
    ensures var e := EncodeNum(t, n);
            match t
            case Int32 | Enum | Int64 => e == Varint(if n < 0 then 0x1_0000_0000_0000_0000 + n else n)
            case UInt32 | UInt64 => e == Varint(n)
            case SInt32 | SInt64 => e == Varint(if n < 0 then -2 * n - 1 else 2 * n)
            case Bool => e == [if n == 0 then 0 else 1]
            case SFixed32 => e == LittleEndian(if n < 0 then 0x1_0000_0000 + n else n, 4)
            case Fixed32 | Float => e == LittleEndian(n, 4)
            case SFixed64 => e == LittleEndian(if n < 0 then 0x1_0000_0000_0000_0000 + n else n, 8)
            case Fixed64 | Double => e == LittleEndian(n, 8)
            case Str | Binary | Msg => false
  {
    if t == SInt32 { ZigZag32Value(n); }
    if t == SInt64 { ZigZag64Value(n); }
  }

  lemma {:induction false} NoNul(d: seq<byte>)
    requires 0 !in d
    ensures CString(d) == d
  {
    if d != [] {
      assert 0 !in d[1..];
      NoNul(d[1..]);
    }
  }

  /** Strings up to their first NUL, bytes as they are, nested messages, each behind its length. */
  lemma PrefixedBytes(s: Schema, t: FieldType, v: Value, text: seq<byte>)
    requires t == Str || t == Binary || t == Msg
    ensures v == Data(text) && 0 !in text ==> EncodeBody(s, t, v) == Varint(|text|) + text
    ensures v == Data(text) && t == Binary ==> EncodeBody(s, t, v) == Varint(|text|) + text
    ensures v == Data(text + [0]) && t == Str && 0 !in text ==> EncodeBody(s, t, v) == Varint(|text|) + text
    ensures v.Sub? ==> EncodeBody(s, t, v) == Varint(|EncodeMessage(s, v.m)|) + EncodeMessage(s, v.m)
  {
    if 0 !in text {
      NoNul(text);
      UpToNul(text, []);
      assert text + [0] == text + ([0] + []);
    }
  }

  lemma {:induction false} UpToNul(d: seq<byte>, rest: seq<byte>)
    requires 0 !in d
    ensures CString(d + ([0] + rest)) == d
  {
    var e := d + ([0] + rest);
    if d != [] {
      assert e[1..] == d[1..] + ([0] + rest) && 0 !in d[1..];
      UpToNul(d[1..], rest);
    }
  }

  /** A required member that was never set goes out as its default; without one, as zero or empty. */
  lemma UnsetRequired(s: Schema, f: Field)
    requires f.rule == Required && FieldOk(s, f)
    ensures f.dflt.Some? ==> EncodeSlot(s, f, One(None)) == EncodeRequired(s, f, f.dflt.value)
    ensures f.dflt.None? ==>
              var e := EncodeSlot(s, f, One(None));
              match f.ty
              case Int32 | SInt32 | UInt32 | Int64 | SInt64 | UInt64 | Bool | Enum => e == Varint(8 * f.id) + [0]
              case SFixed64 | Fixed64 | Double => e == Varint(8 * f.id + 1) + [0, 0, 0, 0, 0, 0, 0, 0]
              case Str | Binary | Msg => e == Varint(8 * f.id + 2) + [0]
              case SFixed32 | Fixed32 | Float => e == Varint(8 * f.id + 5) + [0, 0, 0, 0]
  {
    if f.dflt.None? {
      assert InRange(f.ty, 0) || f.ty == Str || f.ty == Binary || f.ty == Msg;
      if InRange(f.ty, 0) { ZeroBytes(f.ty); }
      UnsetBody(f);
      hide EncodeInitial, FieldOk, Varint;
    }
  }

  lemma UnsetBody(f: Field)
    requires f.dflt.None?
    ensures InRange(f.ty, 0) ==> EncodeInitial(f) == EncodeNum(f.ty, 0)
    ensures !InRange(f.ty, 0) ==> EncodeInitial(f) == [0]
  {
  }

  lemma ZeroBytes(t: FieldType)
    requires InRange(t, 0)
    ensures EncodeNum(t, 0) == if WireOf(t) == 0 then [0]
                               else if WireOf(t) == 1 then [0, 0, 0, 0, 0, 0, 0, 0] else [0, 0, 0, 0]
  {
    hide LittleEndian;
    FourBytes(0);
    EightBytes(0);
    assert [0, 0, 0, 0] + [0, 0, 0, 0] == [0, 0, 0, 0, 0, 0, 0, 0];
  }

  lemma UnsetOptional(s: Schema, f: Field)
    requires f.rule == Optional
    ensures EncodeSlot(s, f, One(None)) == []
  {
  }

  /** An unknown field goes out as it came in, behind its number and wire type. */
  lemma UnknownBytes(u: Unknown)
    ensures EncodeUnknown(u) == Varint(8 * u.tag + u.wire) + u.data
  {
  }

  // ---------- order ----------

  /** The fields in the order of the descriptor, and then the unknown ones. */
  lemma InOrder(s: Schema, m: Message, i: nat)
    requires m.desc < |s| && |m.slots| == |s[m.desc].fields| && i < |m.slots|
    ensures EncodeMessage(s, m) == EncodeMessage(s, m.(unknown := [])) + EncodeMessage(s, m.(slots := []))
    ensures var fs := s[m.desc].fields;
            EncodeSlots(s, fs[i..], m.slots[i..]) ==
            EncodeSlot(s, fs[i], m.slots[i]) + EncodeSlots(s, fs[i + 1..], m.slots[i + 1..])
  {
    hide EncodeSlot;
    var fs := s[m.desc].fields;
    assert EncodeMessage(s, m.(unknown := [])) == EncodeSlots(s, fs, m.slots) + [];
    assert EncodeMessage(s, m.(slots := [])) == [] + EncodeUnknowns(m.unknown);
    SlotsStep(s, fs, m.slots, i);
  }
}
