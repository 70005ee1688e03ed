/**
 The six message kinds of NAIS, their frames, and the board's answer: what the serializer, the framing and the UART loop
 come to when they are put together.
 */
module NaisMessages {
  import opened Bytes
  import opened Base128
  import opened ProtoModel
  import opened ProtoLookup
  import opened ProtoScan
  import opened ProtoParse
  import opened ProtoRoundTrip
  import opened ProtoConcat
  import opened ProtoSize
  import opened ProtoPack
  import opened ProtoUnpack
  import opened NaisFrame
  import opened NaisUart
  import NaisRouting

  function Plain(id: nat, rule: Label, ty: FieldType): Field
  {
    Field(id, rule, ty, false, 0, None)
  }

  /** The generated tables have one range each, and the sentinel. */
  function Table(fields: seq<Field>): Desc
  {
    Desc(fields, [IntRange(1, 0), IntRange(0, |fields|)])
  }

  const PROFILE: Desc := Table([Plain(1, Required, Str), Plain(2, Required, Str)])

  const CONFIG: Desc :=
    Table([Plain(1, Required, Str), Plain(2, Required, Str), Plain(3, Required, Str),
           Field(4, Optional, Int32, false, 0, Some(Num(1883))), Plain(5, Optional, Int32), Plain(6, Optional, Bool)])

  const ACK: Desc := Table([Plain(1, Required, Int32), Plain(2, Optional, Int32), Plain(3, Optional, Int32)])

  const SECRET: Desc := Table([Plain(1, Required, Str)])

  const COMMAND: Desc :=
    Table([Plain(1, Required, Int32), Plain(2, Optional, Int32), Plain(3, Repeated, Str), Plain(4, Repeated, Int32)])

  const EVENT: Desc :=
    Table([Plain(1, Required, Int32), Plain(2, Repeated, Str), Plain(3, Repeated, Float), Plain(4, Repeated, SInt32)])

  /** The table `md`, by message type less one. */
  const NAIS: Schema := [PROFILE, CONFIG, ACK, SECRET, COMMAND, EVENT]

  /** Types above the builtin ones are custom commands. */
  function DescIndex(kind: nat): (d: nat)
    requires kind >= 1
    ensures d < |NAIS|
  {
    if kind > EVENT_TYPE then COMMAND_TYPE - 1 else kind - 1
  }

  // ---------- the tables are well-formed ----------

  /** Numbered from 1 without gaps, no nested messages, no bytes, and no default for what is required. */
  ghost predicate Simple(fs: seq<Field>)
  {
    && 1 <= |fs| < 100
    && forall k | 0 <= k < |fs| ::
         && fs[k].id == k + 1 && FieldOk(NAIS, fs[k])
         && fs[k].ty != Msg && fs[k].ty != Binary && (fs[k].rule == Required ==> fs[k].dflt.None?)
  }

  lemma TableIsOk(fs: seq<Field>)
    requires Simple(fs)
    ensures DescOk(NAIS, Table(fs)) && RangesDescribe(Table(fs)) && Flat(fs)
  {
    hide FieldOk;
  }

  lemma TablesAreSimple()
    ensures Simple(PROFILE.fields) && Simple(CONFIG.fields) && Simple(ACK.fields) && Simple(SECRET.fields)
    ensures Simple(COMMAND.fields) && Simple(EVENT.fields)
  {
  }

  lemma NaisOk()
    ensures SchemaOk(NAIS) && TablesOk(NAIS)
    ensures forall d :: 0 <= d < |NAIS| ==> Simple(NAIS[d].fields) && Flat(NAIS[d].fields)
  {
    hide Simple, DescOk, RangesDescribe, Flat;
    TablesAreSimple();
    forall d | 0 <= d < |NAIS|
      ensures DescOk(NAIS, NAIS[d]) && RangesDescribe(NAIS[d]) && Simple(NAIS[d].fields) && Flat(NAIS[d].fields)
    {
      assert d == 0 || d == 1 || d == 2 || d == 3 || d == 4 || d == 5;
      assert Simple(NAIS[d].fields);
      TableIsOk(NAIS[d].fields);
      assert NAIS[d] == Table(NAIS[d].fields);
    }
  }

  // ---------- concatenation is merging ----------

  lemma {:induction false} SetStaysSet(s: Schema, fs: seq<Field>, x: Message, ms: seq<Scanned>, i: nat)
    requires |x.slots| == |fs| && Bounded(fs, ms) && ParseAll(s, fs, x, ms).Some?
    requires i < |fs| && fs[i].rule != Repeated
    requires (x.slots[i].One? && x.slots[i].v.Some?) || exists k :: 0 <= k < |ms| && ms[k].field == Some(i)
    ensures var slot := ParseAll(s, fs, x, ms).value.slots[i]; slot.One? && slot.v.Some?
    decreases |ms|
  {
    if ms != [] {
      var y := ParseMember(s, fs, x, ms[0]).value;
      if !(y.slots[i].One? && y.slots[i].v.Some?) {
        var k :| 0 <= k < |ms| && ms[k].field == Some(i);
        assert ms[1..][k - 1].field == Some(i);
      }
      SetStaysSet(s, fs, y, ms[1..], i);
    }
  }

  /**
   For a NAIS message, parsing two encodings on end is merging what they parse to, exactly if the first holds no
   unknown field (merge_messages keeps those of the second only) and they are not too many members together.
   */
  lemma NaisConcatenationIsMerge(desc: nat, a: seq<byte>, b: seq<byte>)
    requires desc < |NAIS|
    ensures Unpack(NAIS, desc, a).Some? && Unpack(NAIS, desc, b).Some? ==>
              var ma, mb := Unpack(NAIS, desc, a).value, Unpack(NAIS, desc, b).value;
              Unpack(NAIS, desc, a + b) == Some(Merge(NAIS, ma, mb)) <==>
                ma.unknown == [] && FewEnough(NAIS[desc].fields, a, b)
  {
    NaisOk();
    ConcatenationIsMerge(NAIS, desc, a, b);
    if Unpack(NAIS, desc, a).Some? && Unpack(NAIS, desc, b).Some? {
      RequiredAreSet(desc, a, b);
    }
  }

  /** What the second half requires is there, so nothing of the first comes to light. */
  lemma RequiredAreSet(desc: nat, a: seq<byte>, b: seq<byte>)
    requires desc < |NAIS| && Unpack(NAIS, desc, a).Some? && Unpack(NAIS, desc, b).Some?
    ensures var fs, ma, mb := NAIS[desc].fields, Unpack(NAIS, desc, a).value, Unpack(NAIS, desc, b).value;
            && |fs| == |ma.slots| == |mb.slots|
            && forall i | 0 <= i < |fs| :: MergesLikeLast(fs[i], ma.slots[i], mb.slots[i])
  {
    NaisOk();
    var fs := NAIS[desc].fields;
    assert fs == DescOf(NAIS, desc).fields;
    var ma, mb := Unpack(NAIS, desc, a).value, Unpack(NAIS, desc, b).value;
    UnpackedKinds(NAIS, desc, a);
    UnpackedKinds(NAIS, desc, b);
    forall i | 0 <= i < |fs| ensures MergesLikeLast(fs[i], ma.slots[i], mb.slots[i]) {
      assert Simple(fs);
      if fs[i].rule == Required {
        var ms := Scan(fs, b).value;
        var k :| 0 <= k < |ms| && ms[k].field == Some(i);
        SetStaysSet(NAIS, fs, Message(desc, InitialSlots(fs), []), ms, i);
      }
    }
  }

  // ---------- frames of messages ----------

  function MessageFrame(h: Head, m: Message): seq<byte>
  {
    Frame(h, EncodeMessage(NAIS, m))
  }

  /** The static buffer of nais_marshall has 256 bytes; whoever calls it must stay within that. */
  method NaisMarshall(kind: byte, dline: byte, flags: byte, m: Message, protobuf: array<byte>) returns (n: nat)
    requires Shaped(NAIS, m) && IsU32(|EncodeMessage(NAIS, m)|)
    requires |MessageFrame(Head(kind, 0, dline, flags), m)| <= protobuf.Length
    modifies protobuf
    ensures n == |MessageFrame(Head(kind, 0, dline, flags), m)|
    ensures protobuf[..] == Splice(old(protobuf[..]), 0, MessageFrame(Head(kind, 0, dline, flags), m))
  {
    hide NAIS, PROFILE, CONFIG, ACK, SECRET, COMMAND, EVENT, SchemaOk, Shaped, TablesOk, EncodeMessage, Varint,
         Splice, Frame, HeadBytes;
    NaisOk();
    ghost var was, payload := protobuf[..], EncodeMessage(NAIS, m);
    var blen := MessageSize(NAIS, m);
    var hlen := SetupHeader(kind, dline, flags, blen, protobuf);
    PayloadCompletesFrame(was, Head(kind, 0, dline, flags), payload);
    var _ := MessagePack(NAIS, m, protobuf, hlen);
    n := blen + hlen + 1;
  }

  /** A frame whose announced payload is there, of a type that has a descriptor. */
  predicate FrameThere(data: seq<byte>)
  {
    HeaderThere(data) && data[0] >= 1 && PayloadAt(data).0 + PayloadAt(data).1 <= |data|
  }

  function PayloadOfFrame(data: seq<byte>): seq<byte>
    requires FrameThere(data)
  {
    data[PayloadAt(data).0..][..PayloadAt(data).1]
  }

  method NaisUnmarshall(data: seq<byte>) returns (kind: byte, dline: byte, flags: byte, obj: Option<Message>)
    requires FrameThere(data)
    ensures kind == data[0] && dline == data[1] && flags == data[3]
    ensures obj == Unpack(NAIS, if kind > 6 then 4 else kind - 1, PayloadOfFrame(data))
  {
    hide SchemaOk, TablesOk, Unpack, VarintValue, TerminatedLength;
    NaisOk();
    var len, cptr;
    kind, dline, flags, len, cptr := ReadHeader(data);
    var t: nat := kind;
    if kind > EVENT_TYPE {
      t := COMMAND_TYPE;
    }
    assert data[cptr..][..len] == data[cptr..cptr + len];
    obj := MessageUnpack(NAIS, t - 1, data[cptr..cptr + len]);
  }

  /** What one side frames, the other side reads back: the message, its type and flags, and where to send the answer. */
  lemma FrameRoundTrip(h: Head, m: Message, rest: seq<byte>)
    requires h.kind >= 1 && Canonical(NAIS, m) && m.desc == if h.kind > 6 then 4 else h.kind - 1
    requires |EncodeMessage(NAIS, m)| < 0x1000_0000
    ensures var data := Content(h, EncodeMessage(NAIS, m)) + rest;
            && FrameThere(data) && data[0] == h.kind && data[1] == h.sline && data[3] == h.flags
            && Unpack(NAIS, DescIndex(data[0]), PayloadOfFrame(data)) == Some(m)
  {
    hide Canonical, Content, EncodeMessage, Unpack;
    NaisOk();
    RoundTrip(NAIS, m);
    HeaderRoundTrip(h, EncodeMessage(NAIS, m), rest);
  }

  // ---------- over the UART ----------

  datatype Posted = Posted(noise: seq<byte>, h: Head, m: Message)

  predicate PostedOk(p: Posted)
  {
    && Quiet(p.noise) && p.h.kind >= 1 && Canonical(NAIS, p.m) && p.m.desc == DescIndex(p.h.kind)
    && 1 <= |EncodeMessage(NAIS, p.m)| < 128
  }

  function Sendings(ps: seq<Posted>): (r: seq<Sent>)
    ensures |r| == |ps|
    ensures forall i :: 0 <= i < |ps| ==> r[i] == Sent(ps[i].noise, ps[i].h, EncodeMessage(NAIS, ps[i].m))
  {
    seq(|ps|, i requires 0 <= i < |ps| => Sent(ps[i].noise, ps[i].h, EncodeMessage(NAIS, ps[i].m)))
  }

  lemma {:induction false} ContentsAt(items: seq<Sent>, i: nat)
    requires i < |items|
    ensures |Contents(items)| == |items| && Contents(items)[i] == Content(items[i].h, items[i].payload)
    decreases |items|
  {
    ContentsLength(items);
    if i > 0 { ContentsAt(items[1..], i - 1); }
  }

  lemma {:induction false} ContentsLength(items: seq<Sent>)
    ensures |Contents(items)| == |items|
  {
    if items != [] { ContentsLength(items[1..]); }
  }

  /**
   Any number of messages sent over the UART amid noise: the loop of the receiver hands over one frame for each, in
   order, and the i-th is unmarshalled to the i-th message, whatever older frames left behind it in the buffer.
   */
  lemma MessagesComeThrough(ps: seq<Posted>, tail: seq<byte>, i: nat, stale: seq<byte>)
    requires (forall k :: 0 <= k < |ps| ==> PostedOk(ps[k])) && Quiet(tail) && i < |ps|
    ensures var handed := NaisUart.Run(Idle(1), Stream(Sendings(ps)) + tail).1;
            && |handed| == |ps|
            && var data := handed[i] + stale;
               && FrameThere(data) && data[0] == ps[i].h.kind && data[1] == ps[i].h.sline && data[3] == ps[i].h.flags
               && Unpack(NAIS, DescIndex(data[0]), PayloadOfFrame(data)) == Some(ps[i].m)
  {
    hide Canonical, EncodeMessage, Unpack, Content, FrameThere, PayloadOfFrame;
    var items := Sendings(ps);
    forall k | 0 <= k < |items| ensures SentOk(items[k]) {
      assert PostedOk(ps[k]);
    }
    Transparent(1, items, tail);
    ContentsAt(items, i);
    assert PostedOk(ps[i]);
    FrameRoundTrip(ps[i].h, ps[i].m, stale);
  }

  // ---------- the board's answer ----------

  function AckMessage(id: int, status: Option<int>): Message
  {
    var third := if status.Some? then Some(Num(status.value)) else None;
    Message(ACK_TYPE - 1, [One(Some(Num(id))), One(None), One(third)], [])
  }

  /** Commands and secrets are not acknowledged here, custom commands are with a status. */
  function AckFor(kind: byte, status: int): Option<Message>
  {
    if kind == COMMAND_TYPE || kind == SECRET_TYPE then None
    else if kind == CONFIG_TYPE || kind == PROFILE_TYPE then Some(AckMessage(kind, None))
    else Some(AckMessage(kind, Some(status)))
  }

  lemma ThreeSlots(f: seq<Field>, t: seq<Slot>)
    requires |f| == |t| == 3
    ensures EncodeSlots(NAIS, f, t) ==
            EncodeSlot(NAIS, f[0], t[0]) + EncodeSlot(NAIS, f[1], t[1]) + EncodeSlot(NAIS, f[2], t[2])
    ensures Records(f, t) == RecordsOf(f[0], t[0]) + RecordsOf(f[1], t[1]) + RecordsOf(f[2], t[2])
  {
    hide EncodeSlot, RecordsOf, EncodeSlots, Records;
    SlotOff(f, t, 0);
    SlotOff(f, t, 1);
    SlotOff(f, t, 2);
    assert f[0..] == f && t[0..] == t && f[3..] == [] && t[3..] == [];
  }

  lemma SlotOff(f: seq<Field>, t: seq<Slot>, i: nat)
    requires |f| == |t| && i < |f|
    ensures EncodeSlots(NAIS, f[i..], t[i..])
         == EncodeSlot(NAIS, f[i], t[i]) + EncodeSlots(NAIS, f[i + 1..], t[i + 1..])
    ensures Records(f[i..], t[i..]) == RecordsOf(f[i], t[i]) + Records(f[i + 1..], t[i + 1..])
    ensures EncodeSlots(NAIS, [], []) == [] && Records([], []) == 0
  {
    hide EncodeSlot, RecordsOf;
    assert f[i..][1..] == f[i + 1..] && t[i..][1..] == t[i + 1..];
  }

  /** A set optional or required int32 takes a byte of tag and at most ten of value. */
  lemma Int32Slot(s: Schema, f: Field, n: int)
    requires f.ty == Int32 && f.rule != Repeated && f.id < 16 && IsI32(n)
    ensures EncodeSlot(s, f, One(Some(Num(n)))) == [f.id * 8] + Varint(Extend64(n))
    ensures |Varint(Extend64(n))| <= 10
  {
    Int32SizeIsLength(n);
    assert Tag(f.id, 0) == [f.id * 8];
    assert InRange(Int32, n) && Word(Int32, n) == Extend64(n) && EncodeNum(Int32, n) == Varint(Extend64(n));
    assert EncodeBody(s, Int32, Num(n)) == EncodeNum(Int32, n);
    assert EncodeRequired(s, f, Num(n)) == Tag(f.id, 0) + EncodeNum(Int32, n);
  }

  /** What an acknowledgement is on the wire. */
  function AckBytes(id: byte, status: Option<int>): (r: seq<byte>)
    requires status.Some? ==> IsI32(status.value)
  {
    [8] + Varint(id) + if status.Some? then [24] + Varint(Extend64(status.value)) else []
  }

  lemma AckEncodes(id: byte, status: Option<int>)
    requires status.Some? ==> IsI32(status.value)
    ensures EncodeMessage(NAIS, AckMessage(id, status)) == AckBytes(id, status)
    ensures 2 <= |AckBytes(id, status)| <= 14
  {
    var m := AckMessage(id, status);
    var fs := ACK.fields;
    assert NAIS[m.desc].fields == fs;
    ThreeSlots(fs, m.slots);
    Int32Slot(NAIS, fs[0], id);
    if status.Some? { Int32Slot(NAIS, fs[2], status.value); }
    ShortId(id);
    assert EncodeSlot(NAIS, fs[1], One(None)) == [] && (status.None? ==> EncodeSlot(NAIS, fs[2], m.slots[2]) == []);
    assert EncodeMessage(NAIS, m) == EncodeSlots(NAIS, fs, m.slots) + [];
  }

  lemma ShortId(id: byte)
    ensures Varint(id) == if id < 128 then [id] else [id % 128 + 128, 1]
  {
  }

  lemma AckCanonical(id: byte, status: Option<int>)
    requires status.Some? ==> IsI32(status.value)
    ensures var m := AckMessage(id, status);
            Shaped(NAIS, m) && Canonical(NAIS, m) && 2 <= |EncodeMessage(NAIS, m)| < 32
  {
    hide EncodeSlot, EncodeSlots, EncodeMessage;
    var m := AckMessage(id, status);
    var fs := ACK.fields;
    assert NAIS[m.desc].fields == fs;
    ThreeSlots(fs, m.slots);
    AckEncodes(id, status);
    forall i | 0 <= i < 3 ensures SlotShaped(NAIS, fs[i], m.slots[i]) && SlotCanonical(NAIS, fs[i], m.slots[i]) {
      assert i == 0 || i == 1 || i == 2;
    }
  }

  lemma AckInBytes(data: seq<byte>, kind: byte, status: Option<int>)
    requires |data| >= 5 && (status.Some? ==> IsI32(status.value))
    ensures var frame := MessageFrame(Head(ACK_TYPE, 0, data[1], 0), AckMessage(kind, status));
            var body := [8] + Varint(kind) + StatusTail(status);
            && |body| < 128 && frame == [0x1E, 3, 0, data[1], 0, |body|] + body + [0x17]
            && (kind < 128 && status.None? ==> frame == [0x1E, 3, 0, data[1], 0, 2, 8, kind, 0x17])
  {
    hide EncodeMessage, AckBytes, Frame, NAIS;
    AckEncodes(kind, status);
    var body := AckBytes(kind, status);
    assert AckBytes(kind, status) == [8] + Varint(kind) + StatusTail(status) by { AckBody(kind, status); }
    ShortFrame(data[1], body);
    if kind < 128 && status.None? {
      ShortId(kind);
      assert body == [8, kind];
    }
  }

  function StatusTail(status: Option<int>): seq<byte>
    requires status.Some? ==> IsI32(status.value)
  {
    if status.None? then []
    else [24] + Varint(if status.value < 0 then 0x1_0000_0000_0000_0000 + status.value else status.value)
  }

  lemma AckBody(kind: byte, status: Option<int>)
    requires status.Some? ==> IsI32(status.value)
    ensures AckBytes(kind, status) == [8] + Varint(kind) + StatusTail(status)
  {
  }

  lemma ShortFrame(line: byte, body: seq<byte>)
    requires |body| < 128
    ensures Frame(Head(ACK_TYPE, 0, line, 0), body) == [0x1E, 3, 0, line, 0, |body|] + body + [0x17]
  {
    assert Varint(|body|) == [|body|];
  }

  /** bocia_input_handler, so far as it answers: `n` is 0 if it does not. */
  method InputHandler(data: seq<byte>, status: int, txbuff: array<byte>) returns (n: nat)
    requires FrameThere(data) && IsI32(status) && 48 <= txbuff.Length
    modifies txbuff
    ensures var ack := AckFor(data[0], status);
            if Unpack(NAIS, DescIndex(data[0]), PayloadOfFrame(data)).None? || ack.None? then
              n == 0 && txbuff[..] == old(txbuff[..])
            else
              var frame := NaisRouting.Ack(data, EncodeMessage(NAIS, ack.value));
              n == |frame| && n <= txbuff.Length && txbuff[..] == Splice(old(txbuff[..]), 0, frame)
    ensures data[0] == 4 || data[0] == 5 ==> n == 0 && txbuff[..] == old(txbuff[..])
    ensures data[0] == 1 || data[0] == 2 ==>
              if Unpack(NAIS, data[0] - 1, PayloadOfFrame(data)).None? then n == 0 && txbuff[..] == old(txbuff[..])
              else n == 9 && txbuff[..] == [0x1E, 3, 0, data[1], 0, 2, 8, data[0], 0x17] + old(txbuff[9..])
    ensures data[0] == 3 || data[0] >= 6 ==>
              if Unpack(NAIS, if data[0] > 6 then 4 else data[0] - 1, PayloadOfFrame(data)).None? then
                n == 0 && txbuff[..] == old(txbuff[..])
              else
                var number := if status < 0 then 0x1_0000_0000_0000_0000 + status else status;
                var body := [8] + Varint(data[0]) + ([24] + Varint(number));
                var frame := [0x1E, 3, 0, data[1], 0, |body|] + body + [0x17];
                n == |frame| <= txbuff.Length && txbuff[..] == frame + old(txbuff[n..])
  {
    hide Unpack, EncodeMessage, Shaped, Canonical;
    var kind, dline, flags, obj := NaisUnmarshall(data);
    if obj.None? || kind == COMMAND_TYPE || kind == SECRET_TYPE {
      return 0;
    }
    var s := if kind == CONFIG_TYPE || kind == PROFILE_TYPE then None else Some(status);
    AckCanonical(kind, s);
    UInt32SizeIsLength(|EncodeMessage(NAIS, AckMessage(kind, s))|);
    AckInBytes(data, kind, s);
    n := NaisMarshall(ACK_TYPE, dline, 0, AckMessage(kind, s), txbuff);
  }

  // ---------- and whether the junction recognises it ----------

  /** The last of the base-128 groups: the only byte of a varint without the high bit. */
  function TopGroup(v: nat): (r: byte)
    ensures r < 128
  {
    if v < 128 then v else TopGroup(v / 128)
  }

  lemma {:induction false} StartInVarint(v: nat)
    ensures RECORD_START in Varint(v) <==> TopGroup(v) == RECORD_START
    ensures Varint(v)[|Varint(v)| - 1] == TopGroup(v)
    ensures |Varint(v)| >= 4 ==> v >= 128 * 128 * 128
  {
    if v >= 128 {
      StartInVarint(v / 128);
      assert v % 128 + 128 != RECORD_START;
    }
  }
}
