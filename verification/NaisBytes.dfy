/** The six message kinds of NAIS on the wire, byte by byte. */
module NaisBytes {
  import opened Bytes
  import opened Base128
  import opened ProtoModel
  import ProtoPack
  import ProtoBytes
  import NaisFrame
  import opened NaisMessages

  // ---------- what a member looks like ----------

  function Texts(tag: byte, texts: seq<seq<byte>>): seq<byte>
  {
    if texts == [] then [] else [tag] + (Varint(|texts[0]|) + texts[0]) + Texts(tag, texts[1..])
  }

  function Numbers(tag: byte, words: seq<nat>): seq<byte>
  {
    if words == [] then [] else [tag] + Varint(words[0]) + Numbers(tag, words[1..])
  }

  function Floats(tag: byte, bits: seq<nat>): seq<byte>
    requires forall i | 0 <= i < |bits| :: bits[i] < 0x1_0000_0000
  {
    if bits == [] then []
    else
      var v := bits[0];
      [tag, v % 256, v / 256 % 256, v / 65536 % 256, v / 16777216] + Floats(tag, bits[1..])
  }

  /** The two's complement of 64 bits. */
  function Complement(n: int): nat
    requires IsI32(n)
  {
    if n < 0 then 0x1_0000_0000_0000_0000 + n else n
  }

  function Zigzagged(n: int): nat
  {
    if n < 0 then -2 * n - 1 else 2 * n
  }

  predicate NulFree(texts: seq<seq<byte>>)
  {
    forall i | 0 <= i < |texts| :: 0 !in texts[i]
  }

  predicate AllI32(ns: seq<int>)
  {
    forall i | 0 <= i < |ns| :: IsI32(ns[i])
  }

  /** A string member, a NULL pointer, a number, or one that was never set. */
  function Text(t: Option<seq<byte>>): Slot
  {
    One(if t.Some? then Some(Data(t.value)) else None)
  }

  function Number(n: Option<int>): Slot
  {
    One(if n.Some? then Some(Num(n.value)) else None)
  }

  function DataList(texts: seq<seq<byte>>): (r: seq<Value>)
    ensures |r| == |texts| && forall i | 0 <= i < |r| :: r[i] == Data(texts[i])
  {
    seq(|texts|, i requires 0 <= i < |texts| => Data(texts[i]))
  }

  function NumList(ns: seq<int>): (r: seq<Value>)
    ensures |r| == |ns| && forall i | 0 <= i < |r| :: r[i] == Num(ns[i])
  {
    seq(|ns|, i requires 0 <= i < |ns| => Num(ns[i]))
  }

  function RequiredText(tag: byte, t: Option<seq<byte>>): seq<byte>
  {
    if t.Some? then [tag] + (Varint(|t.value|) + t.value) else [tag, 0]
  }

  function RequiredNumber(tag: byte, n: Option<int>): seq<byte>
    requires n.Some? ==> IsI32(n.value)
  {
    if n.Some? then [tag] + Varint(Complement(n.value)) else [tag, 0]
  }

  function OptionalNumber(tag: byte, n: Option<int>): seq<byte>
    requires n.Some? ==> IsI32(n.value)
  {
    if n.Some? then [tag] + Varint(Complement(n.value)) else []
  }

  // ---------- member by member ----------

  lemma SmallTag(id: nat, wire: nat)
    requires id < 16 && wire < 8
    ensures Tag(id, wire) == [8 * id + wire]
  {
  }

  lemma TextSlot(f: Field, t: Option<seq<byte>>)
    requires f == Plain(f.id, Required, Str) && 1 <= f.id < 16 && (t.Some? ==> 0 !in t.value)
    ensures EncodeSlot(NAIS, f, Text(t)) == RequiredText(8 * f.id + 2, t)
  {
    SmallTag(f.id, 2);
    ProtoBytes.UnsetRequired(NAIS, f);
    if t.Some? {
      ProtoBytes.TagOfField(NAIS, f, Data(t.value));
      ProtoBytes.PrefixedBytes(NAIS, Str, Data(t.value), t.value);
    }
  }

  lemma NumberSlot(f: Field, n: Option<int>)
    requires f == Plain(f.id, f.rule, Int32) && f.rule != Repeated && 1 <= f.id < 16 && (n.Some? ==> IsI32(n.value))
    ensures EncodeSlot(NAIS, f, Number(n)) ==
            if f.rule == Required then RequiredNumber(8 * f.id, n) else OptionalNumber(8 * f.id, n)
  {
    SmallTag(f.id, 0);
    if n.Some? { Int32Slot(NAIS, f, n.value); } else if f.rule == Required { ProtoBytes.UnsetRequired(NAIS, f); }
  }

  lemma {:induction false} TextList(f: Field, texts: seq<seq<byte>>)
    requires f == Plain(f.id, Repeated, Str) && 1 <= f.id < 16 && NulFree(texts)
    ensures EncodeAll(NAIS, f, DataList(texts)) == Texts(8 * f.id + 2, texts)
    decreases |texts|
  {
    hide EncodeRequired, EncodeBody;
    if texts != [] {
      SmallTag(f.id, 2);
      ProtoBytes.TagOfField(NAIS, f, Data(texts[0]));
      ProtoBytes.PrefixedBytes(NAIS, Str, Data(texts[0]), texts[0]);
      assert DataList(texts)[1..] == DataList(texts[1..]);
      TextList(f, texts[1..]);
    }
  }

  /** Complements of an int32 list, zigzags of a sint32 list. */
  function WordsOf(ty: FieldType, ns: seq<int>): (r: seq<nat>)
    requires AllI32(ns)
    ensures |r| == |ns|
    ensures forall i | 0 <= i < |r| :: r[i] == if ty == SInt32 then Zigzagged(ns[i]) else Complement(ns[i])
  {
    seq(|ns|, i requires 0 <= i < |ns| => if ty == SInt32 then Zigzagged(ns[i]) else Complement(ns[i]))
  }

  lemma {:induction false} NumberList(f: Field, ns: seq<int>)
    requires f == Plain(f.id, Repeated, f.ty) && (f.ty == Int32 || f.ty == SInt32) && 1 <= f.id < 16 && AllI32(ns)
    ensures EncodeAll(NAIS, f, NumList(ns)) == Numbers(8 * f.id, WordsOf(f.ty, ns))
    decreases |ns|
  {
    hide EncodeRequired, EncodeNum;
    if ns != [] {
      SmallTag(f.id, 0);
      ProtoBytes.TagOfField(NAIS, f, Num(ns[0]));
      ProtoBytes.ScalarBytes(f.ty, ns[0]);
      assert NumList(ns)[1..] == NumList(ns[1..]) && WordsOf(f.ty, ns)[1..] == WordsOf(f.ty, ns[1..]);
      NumberList(f, ns[1..]);
    }
  }

  lemma {:induction false} FloatList(f: Field, bits: seq<nat>)
    requires f == Plain(f.id, Repeated, Float) && 1 <= f.id < 16
    requires forall i | 0 <= i < |bits| :: bits[i] < 0x1_0000_0000
    ensures EncodeAll(NAIS, f, NumList(bits)) == Floats(8 * f.id + 5, bits)
    decreases |bits|
  {
    hide EncodeRequired, EncodeNum, LittleEndian;
    if bits != [] {
      SmallTag(f.id, 5);
      ProtoBytes.TagOfField(NAIS, f, Num(bits[0]));
      ProtoBytes.ScalarBytes(Float, bits[0]);
      ProtoBytes.FourBytes(bits[0]);
      assert NumList(bits)[1..] == NumList(bits[1..]);
      FloatList(f, bits[1..]);
    }
  }

  // ---------- frames ----------

  /** The frame of any payload: delimiter, type, source and destination, flags, length, payload, delimiter. */
  lemma FrameInBytes(h: NaisFrame.Head, payload: seq<byte>)
    ensures NaisFrame.Frame(h, payload) ==
            [0x1E, h.kind, h.sline, h.dline, h.flags] + Varint(|payload|) + payload + [0x17]
  {
    hide Varint;
    Assembled(h.kind, h.sline, h.dline, h.flags, Varint(|payload|), payload);
  }

  lemma Assembled(a: byte, b: byte, c: byte, d: byte, v: seq<byte>, p: seq<byte>)
    ensures [0x1E] + ([a, b, c, d] + v + p) + [0x17] == [0x1E, a, b, c, d] + v + p + [0x17]
  {
    assert [0x1E] + ([a, b, c, d] + v + p) == [0x1E, a, b, c, d] + v + p;
  }

  /** What message_init leaves in the one member that has a default. */
  lemma PortByDefault()
    ensures Initial(CONFIG.fields[3]) == Num(1883)
  {
  }

  // ---------- message by message ----------

  lemma TwoOf(fs: seq<Field>, t: seq<Slot>, i: nat)
    requires |fs| == |t| == i + 2
    ensures EncodeSlots(NAIS, fs[i..], t[i..]) ==
            EncodeSlot(NAIS, fs[i], t[i]) + EncodeSlot(NAIS, fs[i + 1], t[i + 1])
  {
    hide EncodeSlot;
    ProtoPack.SlotsStep(NAIS, fs, t, i);
    ProtoPack.SlotsStep(NAIS, fs, t, i + 1);
    assert EncodeSlots(NAIS, fs[i + 2..], t[i + 2..]) == [];
  }

  /** uid and password. */
  lemma ProfileBytes(uid: Option<seq<byte>>, pwd: Option<seq<byte>>)
    requires (uid.Some? ==> 0 !in uid.value) && (pwd.Some? ==> 0 !in pwd.value)
    ensures EncodeMessage(NAIS, Message(0, [Text(uid), Text(pwd)], [])) ==
            RequiredText(0x0A, uid) + RequiredText(0x12, pwd)
  {
    hide EncodeSlot, EncodeSlots;
    var fs, t := PROFILE.fields, [Text(uid), Text(pwd)];
    TextSlot(fs[0], uid);
    TextSlot(fs[1], pwd);
    TwoOf(fs, t, 0);
    assert fs[0..] == fs && t[0..] == t;
  }

  lemma SecretBytes(key: Option<seq<byte>>)
    requires key.Some? ==> 0 !in key.value
    ensures EncodeMessage(NAIS, Message(3, [Text(key)], [])) == RequiredText(0x0A, key)
  {
    hide EncodeSlot;
    var fs, t := SECRET.fields, [Text(key)];
    TextSlot(fs[0], key);
    assert EncodeSlots(NAIS, fs[1..], t[1..]) == [];
    assert EncodeSlots(NAIS, fs, t) == EncodeSlot(NAIS, fs[0], t[0]) + [];
  }

  /** Network, board, host, port, alive period and the secure flag. */
  lemma ConfigBytes(network: Option<seq<byte>>, board: Option<seq<byte>>, host: Option<seq<byte>>,
                    port: Option<int>, period: Option<int>, secure: Option<bool>)
    requires (network.Some? ==> 0 !in network.value) && (board.Some? ==> 0 !in board.value)
    requires (host.Some? ==> 0 !in host.value)
    requires (port.Some? ==> IsI32(port.value)) && (period.Some? ==> IsI32(period.value))
    ensures var flag := if secure.Some? then Some(if secure.value then 1 else 0) else None;
            var t := [Text(network), Text(board), Text(host), Number(port), Number(period), Number(flag)];
            EncodeMessage(NAIS, Message(1, t, [])) ==
            RequiredText(0x0A, network) + (RequiredText(0x12, board) + (RequiredText(0x1A, host)
            + (OptionalNumber(0x20, port) + (OptionalNumber(0x28, period)
            + (if secure == Some(true) then [0x30, 1] else if secure == Some(false) then [0x30, 0] else [])))))
  {
    hide EncodeSlot, EncodeSlots, RequiredText, OptionalNumber, Text, Number;
    var flag := if secure.Some? then Some(if secure.value then 1 else 0) else None;
    var fs, t := CONFIG.fields, [Text(network), Text(board), Text(host), Number(port), Number(period), Number(flag)];
    TextSlot(fs[0], network);
    TextSlot(fs[1], board);
    TextSlot(fs[2], host);
    PortSlot(fs[3], port);
    NumberSlot(fs[4], period);
    FlagSlot(fs[5], secure);
    SixOf(fs, t);
  }

  lemma SixOf(fs: seq<Field>, t: seq<Slot>)
    requires |fs| == |t| == 6
    ensures EncodeSlots(NAIS, fs, t) ==
            EncodeSlot(NAIS, fs[0], t[0]) + (EncodeSlot(NAIS, fs[1], t[1]) + (EncodeSlot(NAIS, fs[2], t[2])
            + (EncodeSlot(NAIS, fs[3], t[3]) + (EncodeSlot(NAIS, fs[4], t[4]) + EncodeSlot(NAIS, fs[5], t[5])))))
  {
    hide EncodeSlot, EncodeSlots;
    ProtoPack.SlotsStep(NAIS, fs, t, 0);
    ProtoPack.SlotsStep(NAIS, fs, t, 1);
    ProtoPack.SlotsStep(NAIS, fs, t, 2);
    ProtoPack.SlotsStep(NAIS, fs, t, 3);
    TwoOf(fs, t, 4);
    assert fs[0..] == fs && t[0..] == t;
  }

  lemma PortSlot(f: Field, n: Option<int>)
    requires f == CONFIG.fields[3] && (n.Some? ==> IsI32(n.value))
    ensures EncodeSlot(NAIS, f, Number(n)) == OptionalNumber(0x20, n)
  {
    if n.Some? { Int32Slot(NAIS, f, n.value); }
  }

  lemma FlagSlot(f: Field, b: Option<bool>)
    requires f == CONFIG.fields[5]
    ensures EncodeSlot(NAIS, f, Number(if b.Some? then Some(if b.value then 1 else 0) else None)) ==
            if b == Some(true) then [0x30, 1] else if b == Some(false) then [0x30, 0] else []
  {
    SmallTag(6, 0);
    if b.Some? {
      var n := if b.value then 1 else 0;
      ProtoBytes.TagOfField(NAIS, f, Num(n));
      ProtoBytes.ScalarBytes(Bool, n);
    }
  }

  /** Identifier, sequence number, strings and integers. */
  lemma CommandBytes(id: Option<int>, number: Option<int>, svals: seq<seq<byte>>, ivals: seq<int>)
    requires (id.Some? ==> IsI32(id.value)) && (number.Some? ==> IsI32(number.value))
    requires NulFree(svals) && AllI32(ivals)
    ensures EncodeMessage(NAIS, Message(4, [Number(id), Number(number), Many(DataList(svals)),
                                            Many(NumList(ivals))], []))
         == RequiredNumber(0x08, id) + (OptionalNumber(0x10, number)
            + (Texts(0x1A, svals) + Numbers(0x20, WordsOf(Int32, ivals))))
  {
    hide EncodeSlots, EncodeSlot, Texts, Numbers, RequiredNumber, OptionalNumber;
    var fs, t := COMMAND.fields, [Number(id), Number(number), Many(DataList(svals)), Many(NumList(ivals))];
    NumberSlot(fs[0], id);
    NumberSlot(fs[1], number);
    TextList(fs[2], svals);
    NumberList(fs[3], ivals);
    ListSlot(fs[2], DataList(svals));
    ListSlot(fs[3], NumList(ivals));
    FourOf(fs, t);
  }

  /** Identifier, strings, floats by their bit patterns, and integers zigzagged. */
  lemma EventBytes(id: Option<int>, svals: seq<seq<byte>>, fvals: seq<nat>, ivals: seq<int>)
    requires (id.Some? ==> IsI32(id.value)) && NulFree(svals) && AllI32(ivals)
    requires forall i | 0 <= i < |fvals| :: fvals[i] < 0x1_0000_0000
    ensures EncodeMessage(NAIS, Message(5, [Number(id), Many(DataList(svals)), Many(NumList(fvals)),
                                            Many(NumList(ivals))], []))
         == RequiredNumber(0x08, id) + (Texts(0x12, svals)
            + (Floats(0x1D, fvals) + Numbers(0x20, WordsOf(SInt32, ivals))))
  {
    hide EncodeSlots, EncodeSlot, Texts, Numbers, Floats, RequiredNumber;
    var fs, t := EVENT.fields, [Number(id), Many(DataList(svals)), Many(NumList(fvals)), Many(NumList(ivals))];
    NumberSlot(fs[0], id);
    TextList(fs[1], svals);
    FloatList(fs[2], fvals);
    NumberList(fs[3], ivals);
    ListSlot(fs[1], DataList(svals));
    ListSlot(fs[2], NumList(fvals));
    ListSlot(fs[3], NumList(ivals));
    FourOf(fs, t);
  }

  lemma ListSlot(f: Field, vs: seq<Value>)
    requires !f.packed
    ensures EncodeSlot(NAIS, f, Many(vs)) == EncodeAll(NAIS, f, vs)
  {
  }

  lemma FourOf(fs: seq<Field>, t: seq<Slot>)
    requires |fs| == |t| == 4
    ensures EncodeSlots(NAIS, fs, t) ==
            EncodeSlot(NAIS, fs[0], t[0]) + (EncodeSlot(NAIS, fs[1], t[1]) + (EncodeSlot(NAIS, fs[2], t[2])
            + EncodeSlot(NAIS, fs[3], t[3])))
  {
    hide EncodeSlot, EncodeSlots;
    ProtoPack.SlotsStep(NAIS, fs, t, 0);
    ProtoPack.SlotsStep(NAIS, fs, t, 1);
    TwoOf(fs, t, 2);
    assert fs[0..] == fs && t[0..] == t;
  }

  /** Id, sequence number and status of an acknowledgement. */
  lemma AckBytes3(id: Option<int>, number: Option<int>, status: Option<int>)
    requires (id.Some? ==> IsI32(id.value)) && (number.Some? ==> IsI32(number.value))
    requires status.Some? ==> IsI32(status.value)
    ensures EncodeMessage(NAIS, Message(2, [Number(id), Number(number), Number(status)], [])) ==
            RequiredNumber(0x08, id) + (OptionalNumber(0x10, number) + OptionalNumber(0x18, status))
  {
    hide EncodeSlot, EncodeSlots;
    var fs, t := ACK.fields, [Number(id), Number(number), Number(status)];
    NumberSlot(fs[0], id);
    NumberSlot(fs[1], number);
    NumberSlot(fs[2], status);
    ProtoPack.SlotsStep(NAIS, fs, t, 0);
    TwoOf(fs, t, 1);
    assert fs[0..] == fs && t[0..] == t;
  }
}
