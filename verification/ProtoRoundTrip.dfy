/** Unpacking what pack wrote gives the message back. */
module ProtoRoundTrip {
  import opened Bytes
  import opened Base128
  import opened ProtoModel
  import opened ProtoLookup
  import opened ProtoScan
  import opened ProtoParse

  // ---------- one member ----------

  lemma TagParses(id: nat, wire: nat, rest: seq<byte>)
    requires IsU32(id) && wire < 8
    ensures ParseTag(Tag(id, wire) + rest) == Some(TagInfo(id, wire, |Tag(id, wire)|))
  {
    hide TerminatedLength, VarintValue, ParseTag;
    var v, b := id * 8 + wire, Tag(id, wire) + rest;
    TagSizeIsLength(id, wire);
    VarintTerminates(v, rest, 5);
    VarintRoundTrip(v);
    assert b[..|Tag(id, wire)|] == Tag(id, wire);
    FirstByteOf(v);
    TagIs(b, id, wire, |Tag(id, wire)|);
  }

  lemma FirstByteOf(v: nat)
    ensures Low7(Varint(v)[0]) == v % 128
  {
  }

  lemma TagIs(b: seq<byte>, id: nat, wire: nat, n: nat)
    requires wire < 8 && n > 0 && TerminatedLength(b, 5) == n && VarintValue(b[..n]) == id * 8 + wire
    requires Low7(b[0]) == (id * 8 + wire) % 128
    ensures ParseTag(b) == Some(TagInfo(id, wire, n))
  {
    hide TerminatedLength, VarintValue, Low7;
    assert (id * 8 + wire) % 128 % 8 == wire by { ModEight(id, wire); }
  }

  lemma ModEight(id: nat, wire: nat)
    requires wire < 8
    ensures (id * 8 + wire) % 128 % 8 == wire
  {
    var q, r := id / 16, id % 16;
    Mod128(id * 8 + wire, q, r * 8 + wire);
  }

  lemma VarintScans(w: nat, rest: seq<byte>)
    requires IsU64(w)
    ensures PayloadOf(VARINT, Varint(w) + rest) == Some(PayloadInfo(|Varint(w)|, 0))
  {
    UInt64SizeIsLength(w);
    VarintTerminates(w, rest, 10);
  }

  lemma PrefixedScans(d: seq<byte>, rest: seq<byte>)
    requires IsU32(|d|)
    ensures PayloadOf(LENGTH_PREFIXED, Prefixed(d) + rest)
         == Some(PayloadInfo(|Prefixed(d)|, |Varint(|d|)|))
  {
    UInt32SizeIsLength(|d|);
    assert Prefixed(d) + rest == Varint(|d|) + (d + rest);
    VarintTerminates(|d|, d + rest, 5);
    VarintRoundTrip(|d|);
    assert (Prefixed(d) + rest)[..|Varint(|d|)|] == Varint(|d|);
  }

  lemma NumScans(t: FieldType, n: int, rest: seq<byte>)
    requires InRange(t, n)
    ensures PayloadOf(WireOf(t), EncodeNum(t, n) + rest) == Some(PayloadInfo(|EncodeNum(t, n)|, 0))
  {
    if WireOf(t) == VARINT { VarintScans(Word(t, n), rest); }
  }

  /** A tag followed by a well-formed body is scanned as one member. */
  lemma RecordScans(fs: seq<Field>, id: nat, wire: nat, body: seq<byte>, pref: nat, rest: seq<byte>)
    requires IsU32(id) && wire < 8
    requires PayloadOf(wire, body + rest) == Some(PayloadInfo(|body|, pref))
    ensures ScanOne(fs, Tag(id, wire) + body + rest)
         == Some((Scanned(id, wire, pref, FindField(fs, id), body), |Tag(id, wire)| + |body|))
  {
    hide Tag, PayloadOf, ParseTag, FindField;
    var tag := Tag(id, wire);
    assert tag + body + rest == tag + (body + rest);
    TagParses(id, wire, body + rest);
    assert (tag + body + rest)[|tag|..] == body + rest;
    assert (body + rest)[..|body|] == body;
  }

  // ---------- scalars ----------

  /** C booleans other than 0 and 1 come back as 1. */
  predicate NumCanonical(t: FieldType, n: int)
  {
    InRange(t, n) && (t == Bool ==> n == 0 || n == 1)
  }

  lemma WordComesBack(t: FieldType, n: int)
    requires NumCanonical(t, n) && WireOf(t) == VARINT
    ensures DecodeVarint(t, EncodeNum(t, n)) == n
  {
    hide Varint, VarintValue, AnyBit;
    var w := Word(t, n);
    VarintRoundTrip(w);
    if t == Bool { BoolByte(w); }
    WordDecodes(t, n);
  }

  /** The same below the varint layer. */
  lemma WordDecodes(t: FieldType, n: int)
    requires NumCanonical(t, n) && WireOf(t) == VARINT
    ensures var w := Word(t, n);
            && (t == UInt32 ==> w % TWO32 == n)
            && (t == SInt32 ==> Unzigzag32(w % TWO32) == n)
            && (t == Int64 ==> Signed64(w % TWO64) == n)
            && (t == UInt64 ==> w % TWO64 == n)
            && (t == SInt64 ==> Unzigzag64(w % TWO64) == n)
            && (t == Bool ==> w == n)
            && (t == Int32 || t == Enum ==> Signed32(w % TWO32) == n)
  {
    hide ZigZag32, ZigZag64, Unzigzag32, Unzigzag64;
    match t
    case SInt32 => ZigZagRoundTrip32(n, 0);
    case SInt64 => ZigZagRoundTrip64(n, 0);
    case Int32 | Enum => LowHalf(n);
    case _ =>
  }

  lemma BoolByte(w: nat)
    requires w <= 1
    ensures Varint(w) == [w] && (AnyBit([w]) <==> w == 1)
  {
    assert [w][1..] == [];
    assert Low7([w][0]) == w;
  }

  lemma LowHalf(n: int)
    requires IsI32(n)
    ensures Signed32(Extend64(n) % TWO32) == n
  {
    if n < 0 { assert Extend64(n) == (TWO32 - 1) * TWO32 + (TWO32 + n); }
  }

  lemma FixedComesBack(t: FieldType, n: int)
    requires InRange(t, n) && (WireOf(t) == BITS32 || WireOf(t) == BITS64)
    ensures DecodeFixed(t, EncodeNum(t, n)) == n
  {
    hide Pow256, LittleEndian, FromLittleEndian;
    PowersOf256();
    LittleEndianRoundTrip(Word(t, n), if WireOf(t) == BITS32 then 4 else 8);
    assert FromLittleEndian(EncodeNum(t, n)) == Word(t, n);
    hide EncodeNum;
  }

  lemma PowersOf256()
    ensures Pow256(4) == TWO32 && Pow256(8) == TWO64
  {
    assert Pow256(2) == 0x1_0000;
    assert Pow256(6) == 0x1_0000 * Pow256(4);
    assert Pow256(8) == 0x1_0000 * Pow256(6);
  }

  lemma ScalarComesBack(t: FieldType, n: int)
    requires NumCanonical(t, n)
    ensures ParseScalar(t, WireOf(t), EncodeNum(t, n)) == Some(n)
  {
    if WireOf(t) == VARINT { WordComesBack(t, n); } else { FixedComesBack(t, n); }
  }

  // ---------- packed payloads ----------

  ghost predicate AllCanonical(t: FieldType, vs: seq<Value>)
  {
    forall i | 0 <= i < |vs| :: vs[i].Num? && NumCanonical(t, vs[i].n)
  }

  lemma {:induction false} PackedVarintsComeBack(t: FieldType, vs: seq<Value>)
    requires AllCanonical(t, vs) && WireOf(t) == VARINT
    ensures Varints(t, EncodePayload(t, vs)) == Some(vs)
    ensures t == Bool ==> Bools(EncodePayload(t, vs)) == Some(vs)
  {
    if vs != [] {
      var e, rest := EncodeNum(t, vs[0].n), EncodePayload(t, vs[1..]);
      PackedVarintsComeBack(t, vs[1..]);
      WordComesBack(t, vs[0].n);
      VarintScans(Word(t, vs[0].n), rest);
      assert (e + rest)[|e|..] == rest && (e + rest)[..|e|] == e;
      assert [vs[0]] + vs[1..] == vs;
      if t == Bool { assert e == [vs[0].n]; }
    }
  }

  lemma {:induction false} PackedFixedComeBack(t: FieldType, vs: seq<Value>, k: nat)
    requires AllCanonical(t, vs)
    requires (WireOf(t) == BITS32 && k == 4) || (WireOf(t) == BITS64 && k == 8)
    ensures Chunks(t, EncodePayload(t, vs), k) == vs && |EncodePayload(t, vs)| == k * |vs|
  {
    if vs != [] {
      var e, rest := EncodeNum(t, vs[0].n), EncodePayload(t, vs[1..]);
      PackedFixedComeBack(t, vs[1..], k);
      FixedComesBack(t, vs[0].n);
      assert (e + rest)[k..] == rest && (e + rest)[..k] == e;
      assert [vs[0]] + vs[1..] == vs;
    }
  }

  lemma PackedComesBack(t: FieldType, vs: seq<Value>)
    requires AllCanonical(t, vs) && IsScalar(t)
    ensures ParsePacked(t, EncodePayload(t, vs)) == Some(vs)
    ensures CountPacked(t, EncodePayload(t, vs)).Some?
  {
    hide EncodePayload, Varints, Bools, Chunks, NumCanonical;
    if WireOf(t) == VARINT {
      PackedVarintsComeBack(t, vs);
    } else {
      PackedFixedComeBack(t, vs, if WireOf(t) == BITS32 then 4 else 8);
    }
  }

  // ---------- whole messages ----------

  predicate NulFree(d: seq<byte>)
  {
    forall i | 0 <= i < |d| :: d[i] != 0
  }

  lemma {:induction false} NulFreeIsCString(d: seq<byte>)
    requires NulFree(d)
    ensures CString(d) == d
  {
    if d != [] {
      NulFreeIsCString(d[1..]);
      assert [d[0]] + d[1..] == d;
    }
  }

  predicate ValueCanonical(s: Schema, f: Field, v: Value)
    decreases v
  {
    match v
    case Num(n) => NumCanonical(f.ty, n)
    case Data(d) => f.ty == Binary || (f.ty == Str && NulFree(d))
    case Sub(m) => f.ty == Msg && m.desc == f.sub && Canonical(s, m)
    case Null => false
  }

  predicate SlotCanonical(s: Schema, f: Field, slot: Slot)
    decreases slot
  {
    match slot
    case One(v) =>
      && f.rule != Repeated && (f.rule == Required ==> v.Some?) && (v.Some? ==> ValueCanonical(s, f, v.value))
    case Many(vs) => f.rule == Repeated && forall i | 0 <= i < |vs| :: ValueCanonical(s, f, vs[i])
  }

  /** A field nobody declared, holding exactly one well-formed payload of its wire type. */
  predicate UnknownCanonical(fs: seq<Field>, u: Unknown)
  {
    && IsU32(u.tag) && u.wire < 8 && FindField(fs, u.tag).None?
    && PayloadOf(u.wire, u.data).Some? && PayloadOf(u.wire, u.data).value.len == |u.data|
  }

  /** How many members pass 1 will find. */
  function Records(fs: seq<Field>, slots: seq<Slot>): nat
  {
    if fs == [] || slots == [] then 0 else RecordsOf(fs[0], slots[0]) + Records(fs[1..], slots[1..])
  }

  function RecordsOf(f: Field, slot: Slot): nat
  {
    match slot
    case One(v) => if v.Some? then 1 else 0
    case Many(vs) => if !f.packed then |vs| else if vs == [] then 0 else 1
  }

  /** The messages that survive a round trip: required members set, strings without NUL, sizes within 32 bits. */
  predicate Canonical(s: Schema, m: Message)
    decreases m
  {
    && m.desc < |s|
    && |m.slots| == |s[m.desc].fields|
    && (forall i | 0 <= i < |m.slots| :: SlotCanonical(s, s[m.desc].fields[i], m.slots[i]))
    && (forall i | 0 <= i < |m.unknown| :: UnknownCanonical(s[m.desc].fields, m.unknown[i]))
    && IsU32(|EncodeMessage(s, m)|)
    && Records(s[m.desc].fields, m.slots) + |m.unknown| <= MAX_MEMBERS
  }

  /** Scanning and parsing the bytes `b` takes the message from `x` to `y` in `n` members. */
  ghost predicate Feeds(s: Schema, fs: seq<Field>, b: seq<byte>, x: Message, y: Message, n: nat)
  {
    && |x.slots| == |fs| && Scan(fs, b).Some?
    && var ms := Scan(fs, b).value;
       |ms| == n && AllCount(fs, ms) && ParseAll(s, fs, x, ms) == Some(y)
  }

  lemma FeedsNothing(s: Schema, fs: seq<Field>, x: Message)
    requires |x.slots| == |fs|
    ensures Feeds(s, fs, [], x, x, 0)
  {
  }

  lemma FeedsConcat(s: Schema, fs: seq<Field>, a: seq<byte>, b: seq<byte>,
                    x: Message, y: Message, z: Message, n: nat, k: nat)
    requires Feeds(s, fs, a, x, y, n) && Feeds(s, fs, b, y, z, k)
    ensures Feeds(s, fs, a + b, x, z, n + k)
  {
    hide Scan, ParseAll, AllCount;
    ScanConcat(fs, a, b);
    var ms, ns := Scan(fs, a).value, Scan(fs, b).value;
    ParseAllConcat(s, fs, x, ms, ns);
    AllCountConcat(fs, ms, ns);
  }

  lemma AllCountConcat(fs: seq<Field>, ms: seq<Scanned>, ns: seq<Scanned>)
    requires Bounded(fs, ms) && Bounded(fs, ns) && AllCount(fs, ms) && AllCount(fs, ns)
    ensures Bounded(fs, ms + ns) && AllCount(fs, ms + ns)
  {
    hide CountOf;
  }

  /** One member, from bytes to the updated message. */
  lemma FeedsMember(s: Schema, fs: seq<Field>, id: nat, wire: nat, body: seq<byte>, pref: nat, x: Message, y: Message)
    requires IsU32(id) && wire < 8 && PayloadOf(wire, body) == Some(PayloadInfo(|body|, pref))
    requires |x.slots| == |fs|
    requires var m := Scanned(id, wire, pref, FindField(fs, id), body);
             CountOf(fs, m).Some? && ParseMember(s, fs, x, m) == Some(y)
    ensures Feeds(s, fs, Tag(id, wire) + body, x, y, 1)
  {
    SingleMember(fs, id, wire, body, pref);
    var m := Scanned(id, wire, pref, FindField(fs, id), body);
    assert [m][1..] == [];
    assert ParseAll(s, fs, x, [m]) == ParseAll(s, fs, y, [m][1..]);
  }

  lemma SingleMember(fs: seq<Field>, id: nat, wire: nat, body: seq<byte>, pref: nat)
    requires IsU32(id) && wire < 8 && PayloadOf(wire, body) == Some(PayloadInfo(|body|, pref))
    ensures Scan(fs, Tag(id, wire) + body) == Some([Scanned(id, wire, pref, FindField(fs, id), body)])
  {
    hide PayloadOf, Tag, FindField, ScanOne, Scan;
    var b := Tag(id, wire) + body;
    assert body + [] == body && b + [] == b;
    RecordScans(fs, id, wire, body, pref, []);
    OneScanned(fs, b, Scanned(id, wire, pref, FindField(fs, id), body));
  }

  lemma OneScanned(fs: seq<Field>, b: seq<byte>, m: Scanned)
    requires b != [] && ScanOne(fs, b) == Some((m, |b|))
    ensures Scan(fs, b) == Some([m])
  {
    hide ScanOne;
    assert b[|b|..] == [] && Scan(fs, []) == Some([]);
    assert [m] + [] == [m];
  }

  ghost predicate SubComesBack(s: Schema, v: Value)
  {
    v.Sub? ==> Unpack(s, v.m.desc, EncodeMessage(s, v.m)) == Some(v.m)
  }

  /** The body of a value scans as one payload and decodes to the value. */
  lemma BodyComesBack(s: Schema, f: Field, v: Value) returns (pref: nat)
    requires ValueCanonical(s, f, v) && SubComesBack(s, v) && IsU32(|EncodeBody(s, f.ty, v)|)
    ensures PayloadOf(WireOf(f.ty), EncodeBody(s, f.ty, v)) == Some(PayloadInfo(|EncodeBody(s, f.ty, v)|, pref))
    ensures forall id, field ::
              ParseValue(s, f, Scanned(id, WireOf(f.ty), pref, field, EncodeBody(s, f.ty, v))) == Some(v)
  {
    hide EncodeNum, NumCanonical, ParseScalar, PayloadOf, Prefixed, EncodeMessage, Canonical, Unpack;
    var e := EncodeBody(s, f.ty, v);
    assert e + [] == e;
    match v
    case Num(n) =>
      NumIsScalar(f.ty, n);
      NumScans(f.ty, n, []);
      ScalarComesBack(f.ty, n);
      pref := 0;
    case Data(d) =>
      if f.ty == Str { NulFreeIsCString(d); }
      pref := PrefixedBody(d);
    case Sub(m) =>
      pref := PrefixedBody(EncodeMessage(s, m));
  }

  lemma NumIsScalar(t: FieldType, n: int)
    requires NumCanonical(t, n)
    ensures InRange(t, n) && IsScalar(t)
  {
  }

  lemma PrefixedBody(d: seq<byte>) returns (pref: nat)
    requires IsU32(|d|)
    ensures PayloadOf(LENGTH_PREFIXED, Prefixed(d)) == Some(PayloadInfo(|Prefixed(d)|, pref))
    ensures Prefixed(d)[pref..] == d
  {
    PrefixedScans(d, []);
    assert Prefixed(d) + [] == Prefixed(d);
    pref := |Varint(|d|)|;
  }

  /** The record of a single value lands in its own slot: replacing it, or behind its earlier elements. */
  lemma FeedsValue(s: Schema, d: Desc, i: nat, v: Value, x: Message)
    requires DescOk(s, d) && i < |d.fields| && |x.slots| == |d.fields|
    requires ValueCanonical(s, d.fields[i], v) && SubComesBack(s, v) && IsU32(|EncodeBody(s, d.fields[i].ty, v)|)
    requires d.fields[i].rule == Repeated || x.slots[i] == One(None)
    ensures Feeds(s, d.fields, EncodeRequired(s, d.fields[i], v), x,
                  x.(slots := x.slots[i := if d.fields[i].rule == Repeated then Many(Elements(x.slots[i]) + [v])
                                           else One(Some(v))]), 1)
  {
    var f := d.fields[i];
    assert FieldOk(s, f);
    CachedFieldIsFresh(s, d, i, f.id);
    var pref := BodyComesBack(s, f, v);
    var m := Scanned(f.id, WireOf(f.ty), pref, Some(i), EncodeBody(s, f.ty, v));
    assert ParseValue(s, f, m) == Some(v);
    FeedsMember(s, d.fields, f.id, WireOf(f.ty), EncodeBody(s, f.ty, v), pref, x, ParseMember(s, d.fields, x, m).value);
  }

  function Extend(x: Message, i: nat, vs: seq<Value>): Message
    requires i < |x.slots|
  {
    x.(slots := x.slots[i := Many(Elements(x.slots[i]) + vs)])
  }

  lemma ExtendTwice(x: Message, i: nat, v: Value, vs: seq<Value>)
    requires i < |x.slots|
    ensures Extend(Extend(x, i, [v]), i, vs) == Extend(x, i, [v] + vs)
  {
    var us := Elements(x.slots[i]);
    assert us + [v] + vs == us + ([v] + vs);
    assert x.slots[i := Many(us + [v])][i := Many(us + [v] + vs)] == x.slots[i := Many(us + [v] + vs)];
  }

  lemma {:induction false} FeedsAll(s: Schema, d: Desc, i: nat, vs: seq<Value>, x: Message)
    requires DescOk(s, d) && i < |d.fields| && |x.slots| == |d.fields|
    requires d.fields[i].rule == Repeated && x.slots[i].Many?
    requires forall k | 0 <= k < |vs| :: ValueCanonical(s, d.fields[i], vs[k]) && SubComesBack(s, vs[k])
    requires IsU32(|EncodeAll(s, d.fields[i], vs)|)
    ensures Feeds(s, d.fields, EncodeAll(s, d.fields[i], vs), x, Extend(x, i, vs), |vs|)
    decreases |vs|
  {
    hide Feeds, ValueCanonical, SubComesBack, FieldOk, DescOk;
    var f := d.fields[i];
    if vs == [] {
      FeedsNothing(s, d.fields, x);
      assert x.slots[i].vs + [] == x.slots[i].vs;
      assert x.slots[i := Many(x.slots[i].vs)] == x.slots;
    } else {
      var v, rest := vs[0], vs[1..];
      assert vs == [v] + rest;
      ExtendTwice(x, i, v, rest);
      FeedsFirst(s, d, i, vs, x);
      FeedsAll(s, d, i, rest, Extend(x, i, [v]));
      FeedsConcat(s, d.fields, EncodeRequired(s, f, v), EncodeAll(s, f, rest),
                  x, Extend(x, i, [v]), Extend(x, i, vs), 1, |rest|);
    }
  }

  lemma FeedsFirst(s: Schema, d: Desc, i: nat, vs: seq<Value>, x: Message)
    requires DescOk(s, d) && i < |d.fields| && |x.slots| == |d.fields| && vs != []
    requires d.fields[i].rule == Repeated
    requires ValueCanonical(s, d.fields[i], vs[0]) && SubComesBack(s, vs[0])
    requires IsU32(|EncodeAll(s, d.fields[i], vs)|)
    ensures Feeds(s, d.fields, EncodeRequired(s, d.fields[i], vs[0]), x, Extend(x, i, [vs[0]]), 1)
    ensures IsU32(|EncodeAll(s, d.fields[i], vs[1..])|)
  {
    var f := d.fields[i];
    assert EncodeAll(s, f, vs) == Tag(f.id, WireOf(f.ty)) + EncodeBody(s, f.ty, vs[0]) + EncodeAll(s, f, vs[1..]);
    FeedsValue(s, d, i, vs[0], x);
  }

  lemma FeedsPacked(s: Schema, d: Desc, i: nat, vs: seq<Value>, x: Message)
    requires DescOk(s, d) && i < |d.fields| && |x.slots| == |d.fields|
    requires d.fields[i].rule == Repeated && IsScalar(d.fields[i].ty) && x.slots[i].Many? && vs != []
    requires AllCanonical(d.fields[i].ty, vs) && IsU32(|EncodePacked(d.fields[i], vs)|)
    ensures Feeds(s, d.fields, EncodePacked(d.fields[i], vs), x, Extend(x, i, vs), 1)
  {
    var f := d.fields[i];
    assert FieldOk(s, f);
    CachedFieldIsFresh(s, d, i, f.id);
    var payload := EncodePayload(f.ty, vs);
    PackedComesBack(f.ty, vs);
    var pref := PrefixedBody(payload);
    FeedsMember(s, d.fields, f.id, LENGTH_PREFIXED, Prefixed(payload), pref, x, Extend(x, i, vs));
  }

  /**
   A repeated scalar field reads the same from its packed form as from its unpacked one, whichever of them its
   descriptor asks the writer for, and behind whatever elements there are already.
   */
  lemma EitherForm(s: Schema, d: Desc, i: nat, vs: seq<Value>, x: Message)
    requires DescOk(s, d) && i < |d.fields| && |x.slots| == |d.fields|
    requires d.fields[i].rule == Repeated && IsScalar(d.fields[i].ty) && x.slots[i].Many? && vs != []
    requires AllCanonical(d.fields[i].ty, vs)
    requires IsU32(|EncodePacked(d.fields[i], vs)|) && IsU32(|EncodeAll(s, d.fields[i], vs)|)
    ensures var y := x.(slots := x.slots[i := Many(x.slots[i].vs + vs)]);
            && Feeds(s, d.fields, EncodePacked(d.fields[i], vs), x, y, 1)
            && Feeds(s, d.fields, EncodeAll(s, d.fields[i], vs), x, y, |vs|)
  {
    hide Feeds;
    FeedsPacked(s, d, i, vs, x);
    FeedsAll(s, d, i, vs, x);
  }

  ghost predicate SlotComesBack(s: Schema, slot: Slot)
  {
    match slot
    case One(v) => v.Some? ==> SubComesBack(s, v.value)
    case Many(vs) => forall i | 0 <= i < |vs| :: SubComesBack(s, vs[i])
  }

  lemma FeedsSlot(s: Schema, d: Desc, i: nat, slot: Slot, x: Message)
    requires DescOk(s, d) && i < |d.fields| && |x.slots| == |d.fields| && x.slots[i] == InitialSlot(d.fields[i])
    requires SlotCanonical(s, d.fields[i], slot) && SlotComesBack(s, slot) && IsU32(|EncodeSlot(s, d.fields[i], slot)|)
    ensures Feeds(s, d.fields, EncodeSlot(s, d.fields[i], slot), x, x.(slots := x.slots[i := slot]),
                  RecordsOf(d.fields[i], slot))
  {
    hide Feeds, DescOk;
    match slot
    case One(v) => FeedsOne(s, d, i, v, x);
    case Many(vs) => FeedsMany(s, d, i, vs, x);
  }

  lemma FeedsOne(s: Schema, d: Desc, i: nat, v: Option<Value>, x: Message)
    requires DescOk(s, d) && i < |d.fields| && |x.slots| == |d.fields| && x.slots[i] == InitialSlot(d.fields[i])
    requires SlotCanonical(s, d.fields[i], One(v)) && SlotComesBack(s, One(v))
    requires IsU32(|EncodeSlot(s, d.fields[i], One(v))|)
    ensures Feeds(s, d.fields, EncodeSlot(s, d.fields[i], One(v)), x, x.(slots := x.slots[i := One(v)]),
                  RecordsOf(d.fields[i], One(v)))
  {
    hide Feeds, ValueCanonical;
    var f := d.fields[i];
    assert FieldOk(s, f);
    if v.Some? {
      assert EncodeSlot(s, f, One(v)) == Tag(f.id, WireOf(f.ty)) + EncodeBody(s, f.ty, v.value);
      FeedsValue(s, d, i, v.value, x);
    } else {
      FeedsNothing(s, d.fields, x);
      assert x.slots[i := One(v)] == x.slots;
    }
  }

  lemma FeedsMany(s: Schema, d: Desc, i: nat, vs: seq<Value>, x: Message)
    requires DescOk(s, d) && i < |d.fields| && |x.slots| == |d.fields| && x.slots[i] == InitialSlot(d.fields[i])
    requires SlotCanonical(s, d.fields[i], Many(vs)) && SlotComesBack(s, Many(vs))
    requires IsU32(|EncodeSlot(s, d.fields[i], Many(vs))|)
    ensures Feeds(s, d.fields, EncodeSlot(s, d.fields[i], Many(vs)), x, x.(slots := x.slots[i := Many(vs)]),
                  RecordsOf(d.fields[i], Many(vs)))
  {
    hide Feeds, EncodeAll;
    var f := d.fields[i];
    assert FieldOk(s, f);
    if !f.packed {
      FeedsAll(s, d, i, vs, x);
      assert [] + vs == vs;
    } else if vs == [] {
      FeedsNothing(s, d.fields, x);
      assert x.slots[i := Many(vs)] == x.slots;
    } else {
      FeedsPacked(s, d, i, vs, x);
      assert [] + vs == vs;
    }
  }

  /** After the fields before `i`: their slots are final, the others still as message_init left them. */
  function Halfway(fs: seq<Field>, m: Message, i: nat): (r: Message)
    requires |m.slots| == |fs| && i <= |fs|
    ensures |r.slots| == |fs|
  {
    Message(m.desc, m.slots[..i] + InitialSlots(fs)[i..], [])
  }

  lemma SlotsUnroll(s: Schema, fs: seq<Field>, slots: seq<Slot>, i: nat)
    requires |fs| == |slots| && i <= |fs|
    ensures if i == |fs| then EncodeSlots(s, fs[i..], slots[i..]) == [] && Records(fs[i..], slots[i..]) == 0
            else
              && EncodeSlots(s, fs[i..], slots[i..])
                 == EncodeSlot(s, fs[i], slots[i]) + EncodeSlots(s, fs[i + 1..], slots[i + 1..])
              && Records(fs[i..], slots[i..]) == RecordsOf(fs[i], slots[i]) + Records(fs[i + 1..], slots[i + 1..])
  {
    if i < |fs| { assert fs[i..][1..] == fs[i + 1..] && slots[i..][1..] == slots[i + 1..]; }
  }

  lemma {:induction false} FeedsSlots(s: Schema, m: Message, i: nat)
    requires SchemaOk(s) && Canonical(s, m) && i <= |m.slots|
    requires forall k | 0 <= k < |m.slots| :: SlotComesBack(s, m.slots[k])
    requires IsU32(|EncodeSlots(s, s[m.desc].fields[i..], m.slots[i..])|)
    ensures var fs := s[m.desc].fields;
            Feeds(s, fs, EncodeSlots(s, fs[i..], m.slots[i..]), Halfway(fs, m, i), Halfway(fs, m, |fs|),
                  Records(fs[i..], m.slots[i..]))
    decreases |m.slots| - i
  {
    hide Feeds, EncodeSlot, EncodeSlots, Records, RecordsOf, Halfway, SlotComesBack, SlotCanonical, UnknownCanonical,
      SchemaOk;
    var fs := s[m.desc].fields;
    SlotsUnroll(s, fs, m.slots, i);
    if i == |fs| {
      FeedsNothing(s, fs, Halfway(fs, m, i));
    } else {
      var here, after := EncodeSlot(s, fs[i], m.slots[i]), EncodeSlots(s, fs[i + 1..], m.slots[i + 1..]);
      FeedsNextSlot(s, m, i);
      FeedsSlots(s, m, i + 1);
      FeedsConcat(s, fs, here, after, Halfway(fs, m, i), Halfway(fs, m, i + 1), Halfway(fs, m, |fs|),
                  RecordsOf(fs[i], m.slots[i]), Records(fs[i + 1..], m.slots[i + 1..]));
    }
  }

  lemma FeedsNextSlot(s: Schema, m: Message, i: nat)
    requires SchemaOk(s) && Canonical(s, m) && i < |m.slots| && SlotComesBack(s, m.slots[i])
    requires IsU32(|EncodeSlot(s, s[m.desc].fields[i], m.slots[i])|)
    ensures var fs := s[m.desc].fields;
            Feeds(s, fs, EncodeSlot(s, fs[i], m.slots[i]), Halfway(fs, m, i), Halfway(fs, m, i + 1),
                  RecordsOf(fs[i], m.slots[i]))
  {
    hide Feeds, EncodeSlot, RecordsOf, SlotComesBack, Halfway, SlotCanonical, UnknownCanonical;
    var fs := s[m.desc].fields;
    HalfwaySteps(fs, m, i);
    assert SlotCanonical(s, fs[i], m.slots[i]);
    FeedsSlot(s, s[m.desc], i, m.slots[i], Halfway(fs, m, i));
  }

  lemma HalfwaySteps(fs: seq<Field>, m: Message, i: nat)
    requires |m.slots| == |fs| && i < |fs|
    ensures var x := Halfway(fs, m, i);
            x.slots[i] == InitialSlot(fs[i]) && x.(slots := x.slots[i := m.slots[i]]) == Halfway(fs, m, i + 1)
  {
    var x, y := Halfway(fs, m, i), Halfway(fs, m, i + 1);
    assert x.slots[i] == InitialSlots(fs)[i] == InitialSlot(fs[i]);
    assert x.slots[i := m.slots[i]] == y.slots;
  }

  lemma FeedsUnknown(s: Schema, fs: seq<Field>, u: Unknown, x: Message)
    requires |x.slots| == |fs| && UnknownCanonical(fs, u)
    ensures Feeds(s, fs, EncodeUnknown(u), x, x.(unknown := x.unknown + [u]), 1)
  {
    FeedsMember(s, fs, u.tag, u.wire, u.data, PayloadOf(u.wire, u.data).value.pref, x,
                x.(unknown := x.unknown + [u]));
  }

  lemma {:induction false} FeedsUnknowns(s: Schema, fs: seq<Field>, us: seq<Unknown>, x: Message)
    requires |x.slots| == |fs| && forall i | 0 <= i < |us| :: UnknownCanonical(fs, us[i])
    ensures Feeds(s, fs, EncodeUnknowns(us), x, x.(unknown := x.unknown + us), |us|)
    decreases |us|
  {
    if us == [] {
      FeedsNothing(s, fs, x);
      assert x.unknown + us == x.unknown;
    } else {
      var u, rest := us[0], us[1..];
      assert x.unknown + [u] + rest == x.unknown + us;
      var y := x.(unknown := x.unknown + [u]);
      FeedsUnknown(s, fs, u, x);
      FeedsUnknowns(s, fs, rest, y);
      FeedsConcat(s, fs, EncodeUnknown(u), EncodeUnknowns(rest), x, y, y.(unknown := y.unknown + rest), 1, |rest|);
    }
  }

  /** A slot that ended up set was set by some member, so the required bitmap has its bit. */
  lemma {:induction false} SetMeansSeen(s: Schema, fs: seq<Field>, x: Message, ms: seq<Scanned>, y: Message, i: nat)
    requires |x.slots| == |fs| && Bounded(fs, ms) && ParseAll(s, fs, x, ms) == Some(y)
    requires i < |fs| && x.slots[i] != y.slots[i]
    ensures exists k | 0 <= k < |ms| :: ms[k].field == Some(i)
    decreases |ms|
  {
    if ms[0].field != Some(i) {
      var x' := ParseMember(s, fs, x, ms[0]).value;
      SetMeansSeen(s, fs, x', ms[1..], y, i);
      var k :| 0 <= k < |ms| - 1 && ms[1..][k].field == Some(i);
      assert ms[k + 1].field == Some(i);
    }
  }

  /** The whole encoding feeds the whole message. */
  lemma FeedsMessage(s: Schema, m: Message)
    requires SchemaOk(s) && Canonical(s, m) && forall k | 0 <= k < |m.slots| :: SlotComesBack(s, m.slots[k])
    ensures var fs := s[m.desc].fields;
            Feeds(s, fs, EncodeMessage(s, m), Message(m.desc, InitialSlots(fs), []), m,
                  Records(fs, m.slots) + |m.unknown|)
  {
    hide Feeds, SlotComesBack, SlotCanonical, EncodeSlots, EncodeUnknowns, Records;
    var fs := s[m.desc].fields;
    var x, y := Halfway(fs, m, 0), Halfway(fs, m, |fs|);
    assert fs[0..] == fs && m.slots[0..] == m.slots;
    FeedsSlots(s, m, 0);
    FeedsUnknowns(s, fs, m.unknown, y);
    assert y.(unknown := [] + m.unknown) == m;
    FeedsConcat(s, fs, EncodeSlots(s, fs, m.slots), EncodeUnknowns(m.unknown), x, y, m,
                Records(fs, m.slots), |m.unknown|);
    assert x == Message(m.desc, InitialSlots(fs), []);
  }

  lemma RequiredComeBack(s: Schema, m: Message)
    requires Canonical(s, m)
    requires var fs := s[m.desc].fields;
             Feeds(s, fs, EncodeMessage(s, m), Message(m.desc, InitialSlots(fs), []), m,
                   Records(fs, m.slots) + |m.unknown|)
    ensures RequiredSeen(s[m.desc].fields, Scan(s[m.desc].fields, EncodeMessage(s, m)).value)
  {
    hide Scan, ParseAll, EncodeMessage, Records;
    var fs := s[m.desc].fields;
    var ms, x := Scan(fs, EncodeMessage(s, m)).value, Message(m.desc, InitialSlots(fs), []);
    forall i | 0 <= i < |fs| && fs[i].rule == Required ensures exists k | 0 <= k < |ms| :: ms[k].field == Some(i) {
      assert SlotCanonical(s, fs[i], m.slots[i]);
      SetMeansSeen(s, fs, x, ms, m, i);
    }
  }

  /** Packing and unpacking any canonical message of any well-formed schema is the identity. */
  lemma {:induction false} RoundTrip(s: Schema, m: Message)
    requires SchemaOk(s) && Canonical(s, m)
    ensures Unpack(s, m.desc, EncodeMessage(s, m)) == Some(m)
    decreases m
  {
    hide Scan, ParseAll, EncodeMessage, Records, RequiredSeen, SlotCanonical;
    forall k | 0 <= k < |m.slots| ensures SlotComesBack(s, m.slots[k]) {
      SlotRoundTrip(s, m, k);
    }
    FeedsMessage(s, m);
    RequiredComeBack(s, m);
  }

  lemma SlotRoundTrip(s: Schema, m: Message, k: nat)
    requires SchemaOk(s) && Canonical(s, m) && k < |m.slots|
    ensures SlotComesBack(s, m.slots[k])
    decreases m, 0
  {
    assert SlotCanonical(s, s[m.desc].fields[k], m.slots[k]);
    match m.slots[k]
    case One(v) => if v.Some? && v.value.Sub? { RoundTrip(s, v.value.m); }
    case Many(vs) =>
      forall i | 0 <= i < |vs| ensures SubComesBack(s, vs[i]) {
        if vs[i].Sub? { RoundTrip(s, vs[i].m); }
      }
  }
}
