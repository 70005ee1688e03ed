/**
 The second pass of protobuf_c_message_unpack as a function: decode the scanned members one by one into
 the message, merging a repeated occurrence of a submessage into the earlier one.
 */
module ProtoParse {
  import opened Bytes
  import opened Base128
  import opened ProtoModel
  import opened ProtoScan

  /** What the slabs of scanned members can hold: sixteen, and then 22 more slabs of doubling size. */
  const MAX_MEMBERS: nat := 134217712

  function Signed32(w: nat): (r: int)
    requires IsU32(w)
    ensures IsI32(r)
  {
    if w < TWO31 then w else w - TWO32
  }

  function Signed64(w: nat): (r: int)
    requires IsU64(w)
    ensures IsI64(r)
  {
    if w < TWO63 then w else w - TWO64
  }

  /** parse_boolean. */
  function AnyBit(b: seq<byte>): bool
  {
    b != [] && (Low7(b[0]) != 0 || AnyBit(b[1..]))
  }

  function DecodeVarint(t: FieldType, b: seq<byte>): int
    requires WireOf(t) == VARINT
  {
    var w32, w64 := VarintValue(b) % TWO32, VarintValue(b) % TWO64;
    match t
    case UInt32 => w32
    case SInt32 => Unzigzag32(w32)
    case Int64 => Signed64(w64)
    case UInt64 => w64
    case SInt64 => Unzigzag64(w64)
    case Bool => if AnyBit(b) then 1 else 0
    case _ => Signed32(w32)
  }

  function DecodeFixed(t: FieldType, b: seq<byte>): int
    requires (WireOf(t) == BITS32 && |b| == 4) || (WireOf(t) == BITS64 && |b| == 8)
  {
    var w := FromLittleEndian(b);
    if t == SFixed32 then Signed32(w % TWO32)
    else if t == SFixed64 then Signed64(w % TWO64)
    else w
  }

  /** The scalar cases of parse_required_member; only bool accepts any wire type. */
  function ParseScalar(t: FieldType, wire: nat, b: seq<byte>): Option<int>
  {
    if t == Bool then Some(if AnyBit(b) then 1 else 0)
    else if wire != WireOf(t) then None
    else if wire == VARINT then Some(DecodeVarint(t, b))
    else if wire == BITS32 && |b| == 4 then Some(DecodeFixed(t, b))
    else if wire == BITS64 && |b| == 8 then Some(DecodeFixed(t, b))
    else None
  }

  // ---------- packed payloads ----------

  function Chunks(t: FieldType, b: seq<byte>, k: nat): seq<Value>
    requires (WireOf(t) == BITS32 && k == 4) || (WireOf(t) == BITS64 && k == 8)
  {
    if |b| < k then [] else [Num(DecodeFixed(t, b[..k]))] + Chunks(t, b[k..], k)
  }

  function Varints(t: FieldType, b: seq<byte>): Option<seq<Value>>
    requires WireOf(t) == VARINT
  {
    if b == [] then Some([])
    else
      var n := TerminatedLength(b, 10);
      if n == 0 then None
      else
        var rest := Varints(t, b[n..]);
        if rest.None? then None else Some([Num(DecodeVarint(t, b[..n]))] + rest.value)
  }

  function Bools(b: seq<byte>): Option<seq<Value>>
  {
    if b == [] then Some([])
    else if b[0] > 1 then None
    else
      var rest := Bools(b[1..]);
      if rest.None? then None else Some([Num(b[0])] + rest.value)
  }

  /** parse_packed_repeated_member. */
  function ParsePacked(t: FieldType, b: seq<byte>): Option<seq<Value>>
  {
    if t == Bool then Bools(b)
    else if WireOf(t) == VARINT then Varints(t, b)
    else if WireOf(t) == BITS32 then Some(Chunks(t, b, 4))
    else if WireOf(t) == BITS64 then Some(Chunks(t, b, 8))
    else None
  }

  // ---------- merge_messages ----------

  function Merge(s: Schema, earlier: Message, latter: Message): Message
    decreases earlier, 2
  {
    Message(latter.desc, MergeSlots(s, DescOf(s, latter.desc).fields, earlier.slots, latter.slots), latter.unknown)
  }

  function MergeSlots(s: Schema, fs: seq<Field>, earlier: seq<Slot>, latter: seq<Slot>): (r: seq<Slot>)
    ensures |r| == |latter|
    decreases earlier, 1
  {
    if fs == [] || earlier == [] || latter == [] then latter
    else [MergeSlot(s, fs[0], earlier[0], latter[0])] + MergeSlots(s, fs[1..], earlier[1..], latter[1..])
  }

  /** A bytes member whose data pointer is not NULL: it was set, and not to the empty string. */
  predicate HasData(v: Option<Value>)
  {
    v.Some? && v.value.Data? && v.value.d != []
  }

  function MergeSlot(s: Schema, f: Field, earlier: Slot, latter: Slot): Slot
    decreases earlier, 0
  {
    if earlier.Many? && latter.Many? then Many(earlier.vs + latter.vs)
    else if earlier.Many? || latter.Many? || f.rule != Optional then latter
    else if f.ty == Msg && earlier.v.Some? && earlier.v.value.Sub? && latter.v.Some? && latter.v.value.Sub? then
      One(Some(Sub(Merge(s, earlier.v.value.m, latter.v.value.m))))
    else if f.ty == Binary then if HasData(earlier.v) && !HasData(latter.v) then earlier else latter
    else if earlier.v.Some? && latter.v.None? then earlier
    else latter
  }

  // ---------- parsing ----------

  function InitialSlot(f: Field): Slot
  {
    if f.rule == Repeated then Many([]) else One(None)
  }

  function InitialSlots(fs: seq<Field>): (r: seq<Slot>)
    ensures |r| == |fs| && forall i | 0 <= i < |fs| :: r[i] == InitialSlot(fs[i])
  {
    seq(|fs|, i requires 0 <= i < |fs| => InitialSlot(fs[i]))
  }

  /** Repeated fields have element lists, all others a single value. */
  predicate SlotKinds(fs: seq<Field>, slots: seq<Slot>)
  {
    |slots| == |fs| && forall i | 0 <= i < |fs| :: slots[i].Many? <==> fs[i].rule == Repeated
  }

  /** parse_required_member, up to the merge with an earlier occurrence. */
  function ParseValue(s: Schema, f: Field, m: Scanned): Option<Value>
    requires m.pref <= |m.data|
    decreases |m.data|, 4
  {
    if IsScalar(f.ty) then
      var n := ParseScalar(f.ty, m.wire, m.data);
      if n.None? then None else Some(Num(n.value))
    else if m.wire != LENGTH_PREFIXED then None
    else if f.ty == Msg then
      var sub := Unpack(s, f.sub, m.data[m.pref..]);
      if sub.None? then None else Some(Sub(sub.value))
    else Some(Data(m.data[m.pref..]))
  }

  /** What a required or optional member holds after one more occurrence of it. */
  function StoreOne(s: Schema, before: Slot, v: Value): Slot
  {
    if before.One? && before.v.Some? && before.v.value.Sub? && v.Sub? then
      One(Some(Sub(Merge(s, before.v.value.m, v.m))))
    else One(Some(v))
  }

  function Elements(slot: Slot): seq<Value>
  {
    if slot.Many? then slot.vs else []
  }

  /** parse_member. */
  function ParseMember(s: Schema, fs: seq<Field>, x: Message, m: Scanned): (r: Option<Message>)
    requires |x.slots| == |fs| && m.pref <= |m.data| && (m.field.Some? ==> m.field.value < |fs|)
    ensures r.Some? ==> |r.value.slots| == |fs|
    decreases |m.data|, 5
  {
    if m.field.None? then
      Some(x.(unknown := x.unknown + [Unknown(m.tag, m.wire, m.data)]))
    else
      var i := m.field.value;
      if fs[i].rule == Repeated && ReadsPacked(fs[i], m.wire) then
        var vs := ParsePacked(fs[i].ty, m.data[m.pref..]);
        if vs.None? then None else Some(x.(slots := x.slots[i := Many(Elements(x.slots[i]) + vs.value)]))
      else
        var v := ParseValue(s, fs[i], m);
        if v.None? then None
        else if fs[i].rule == Repeated then Some(x.(slots := x.slots[i := Many(Elements(x.slots[i]) + [v.value])]))
        else Some(x.(slots := x.slots[i := StoreOne(s, x.slots[i], v.value)]))
  }

  function ParseAll(s: Schema, fs: seq<Field>, x: Message, ms: seq<Scanned>): (r: Option<Message>)
    requires |x.slots| == |fs| && Bounded(fs, ms)
    ensures r.Some? ==> |r.value.slots| == |fs|
    decreases TotalData(ms) + |ms|, 2
  {
    if ms == [] then Some(x)
    else
      var y := ParseMember(s, fs, x, ms[0]);
      if y.None? then None else ParseAll(s, fs, y.value, ms[1..])
  }

  /** The bitmap test between the passes. */
  predicate RequiredSeen(fs: seq<Field>, ms: seq<Scanned>)
  {
    forall i | 0 <= i < |fs| ::
      fs[i].rule == Required && fs[i].dflt.None? ==> exists k | 0 <= k < |ms| :: ms[k].field == Some(i)
  }

  /** protobuf_c_message_unpack; None is the NULL it returns. */
  function Unpack(s: Schema, desc: nat, b: seq<byte>): Option<Message>
    decreases |b|, 3
  {
    var fs := DescOf(s, desc).fields;
    var ms := Scan(fs, b);
    if ms.None? || |ms.value| > MAX_MEMBERS || !AllCount(fs, ms.value) || !RequiredSeen(fs, ms.value) then None
    else ParseAll(s, fs, Message(desc, InitialSlots(fs), []), ms.value)
  }

  // ---------- parsing in two steps is parsing in one ----------

  lemma {:induction false} ParseAllConcat(s: Schema, fs: seq<Field>, x: Message, ms: seq<Scanned>, ns: seq<Scanned>)
    requires |x.slots| == |fs| && Bounded(fs, ms) && Bounded(fs, ns)
    ensures Bounded(fs, ms + ns)
    ensures ParseAll(s, fs, x, ms + ns) ==
            (var y := ParseAll(s, fs, x, ms); if y.None? then None else ParseAll(s, fs, y.value, ns))
    decreases |ms|
  {
    if ms == [] {
      assert ms + ns == ns;
    } else {
      assert (ms + ns)[1..] == ms[1..] + ns;
      var y := ParseMember(s, fs, x, ms[0]);
      if y.Some? { ParseAllConcat(s, fs, y.value, ms[1..], ns); }
    }
  }
}
