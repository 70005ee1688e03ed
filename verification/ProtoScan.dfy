/**
 The first pass of protobuf_c_message_unpack as a function: cut a byte string into members, and count
 what each repeated field will need.
 */
module ProtoScan {
  import opened Bytes
  import opened Base128
  import opened ProtoModel
  import opened ProtoLookup

  /** A member as found by the scan; `data` runs from behind the tag and includes a length prefix. */
  datatype Scanned = Scanned(tag: nat, wire: nat, pref: nat, field: Option<nat>, data: seq<byte>)

  datatype TagInfo = TagInfo(tag: nat, wire: nat, used: nat)

  datatype PayloadInfo = PayloadInfo(len: nat, pref: nat)

  /** parse_tag_and_wiretype: at most five bytes. */
  function ParseTag(b: seq<byte>): (r: Option<TagInfo>)
    ensures r.Some? ==> 1 <= r.value.used <= |b| && r.value.used <= 5
  {
    var t := TerminatedLength(b, 5);
    if t == 0 then None else Some(TagInfo(VarintValue(b[..t]) / 8, Low7(b[0]) % 8, t))
  }

  /** How many bytes belong to the member behind the tag, and how many of them are a length prefix. */
  function PayloadOf(wire: nat, b: seq<byte>): (r: Option<PayloadInfo>)
    ensures r.Some? ==> 1 <= r.value.len <= |b| && r.value.pref <= r.value.len
  {
    if wire == VARINT then
      var t := TerminatedLength(b, 10);
      if t == 0 then None else Some(PayloadInfo(t, 0))
    else if wire == BITS64 then
      if |b| < 8 then None else Some(PayloadInfo(8, 0))
    else if wire == LENGTH_PREFIXED then
      var t := TerminatedLength(b, 5);
      if t == 0 then None
      else
        var val := VarintValue(b[..t]) % TWO32;
        if t + val > |b| then None else Some(PayloadInfo(t + val, t))
    else if wire == BITS32 then
      if |b| < 4 then None else Some(PayloadInfo(4, 0))
    else None
  }

  function ScanBody(fs: seq<Field>, t: TagInfo, rest: seq<byte>): (r: Option<(Scanned, nat)>)
    ensures r.Some? ==>
              && t.used <= r.value.1 <= t.used + |rest| && |r.value.0.data| == r.value.1 - t.used
              && 1 <= |r.value.0.data| && r.value.0.pref <= |r.value.0.data|
              && (r.value.0.field.Some? ==> r.value.0.field.value < |fs|)
  {
    var p := PayloadOf(t.wire, rest);
    if p.None? then None
    else Some((Scanned(t.tag, t.wire, p.value.pref, FindField(fs, t.tag), rest[..p.value.len]), t.used + p.value.len))
  }

  /** One round of the scan loop: the member, and how far it reaches. */
  function ScanOne(fs: seq<Field>, b: seq<byte>): (r: Option<(Scanned, nat)>)
    ensures r.Some? ==>
              && r.value.1 <= |b| && |r.value.0.data| < r.value.1
              && 1 <= |r.value.0.data| && r.value.0.pref <= |r.value.0.data|
              && (r.value.0.field.Some? ==> r.value.0.field.value < |fs|)
  {
    var t := ParseTag(b);
    if t.None? then None else ScanBody(fs, t.value, b[t.value.used..])
  }

  /** The bytes of all members together. */
  function TotalData(ms: seq<Scanned>): nat
  {
    if ms == [] then 0 else |ms[0].data| + TotalData(ms[1..])
  }

  predicate Bounded(fs: seq<Field>, ms: seq<Scanned>)
  {
    forall i | 0 <= i < |ms| ::
      1 <= |ms[i].data| && ms[i].pref <= |ms[i].data| && (ms[i].field.Some? ==> ms[i].field.value < |fs|)
  }

  function Scan(fs: seq<Field>, b: seq<byte>): (r: Option<seq<Scanned>>)
    ensures r.Some? ==> TotalData(r.value) + |r.value| <= |b| && Bounded(fs, r.value)
    decreases |b|
  {
    if b == [] then Some([])
    else
      var one := ScanOne(fs, b);
      if one.None? then None
      else
        var rest := Scan(fs, b[one.value.1..]);
        if rest.None? then None
        else
          assert ([one.value.0] + rest.value)[1..] == rest.value;
          Some([one.value.0] + rest.value)
  }

  // ---------- the scan is a homomorphism ----------

  lemma ParseTagPrefix(a: seq<byte>, b: seq<byte>)
    requires ParseTag(a).Some?
    ensures ParseTag(a + b) == ParseTag(a)
  {
    TerminatedLengthPrefix(a, b, 5);
    assert (a + b)[..ParseTag(a).value.used] == a[..ParseTag(a).value.used];
  }

  lemma PayloadPrefix(wire: nat, a: seq<byte>, b: seq<byte>)
    requires PayloadOf(wire, a).Some?
    ensures PayloadOf(wire, a + b) == PayloadOf(wire, a)
  {
    if wire == VARINT { TerminatedLengthPrefix(a, b, 10); }
    if wire == LENGTH_PREFIXED {
      TerminatedLengthPrefix(a, b, 5);
      var t := TerminatedLength(a, 5);
      assert (a + b)[..t] == a[..t];
    }
  }

  lemma ScanBodyPrefix(fs: seq<Field>, t: TagInfo, a: seq<byte>, b: seq<byte>)
    requires ScanBody(fs, t, a).Some?
    ensures ScanBody(fs, t, a + b) == ScanBody(fs, t, a)
  {
    PayloadPrefix(t.wire, a, b);
    SliceOfConcat(a, b, 0, PayloadOf(t.wire, a).value.len);
  }

  lemma ScanOnePrefix(fs: seq<Field>, a: seq<byte>, b: seq<byte>)
    requires ScanOne(fs, a).Some?
    ensures ScanOne(fs, a + b) == ScanOne(fs, a)
  {
    ParseTagPrefix(a, b);
    var t := ParseTag(a).value;
    SliceOfConcat(a, b, t.used, t.used);
    ScanBodyPrefix(fs, t, a[t.used..], b);
  }

  /** Scanning `a + b` takes the first member off `a` and goes on with the rest of `a`, followed by `b`. */
  lemma ScanCons(fs: seq<Field>, a: seq<byte>, b: seq<byte>)
    requires a != [] && ScanOne(fs, a).Some?
    ensures var (m, k) := ScanOne(fs, a).value;
            var rest := Scan(fs, a[k..] + b);
            Scan(fs, a + b) == if rest.Some? then Some([m] + rest.value) else None
  {
    ScanOnePrefix(fs, a, b);
    var (m, k) := ScanOne(fs, a).value;
    SliceOfConcat(a, b, k, k);
  }

  /** Scanning a concatenation is scanning the parts, provided that the first part scans. */
  lemma {:induction false} ScanConcat(fs: seq<Field>, a: seq<byte>, b: seq<byte>)
    requires Scan(fs, a).Some?
    ensures Scan(fs, a + b) ==
            (if Scan(fs, b).Some? then Some(Scan(fs, a).value + Scan(fs, b).value) else None)
    decreases |a|
  {
    if a == [] {
      assert a + b == b;
      if Scan(fs, b).Some? { assert [] + Scan(fs, b).value == Scan(fs, b).value; }
    } else {
      var (m, k) := ScanOne(fs, a).value;
      ScanConcat(fs, a[k..], b);
      ScanCons(fs, a, b);
      assert Scan(fs, a).value == [m] + Scan(fs, a[k..]).value;
      if Scan(fs, b).Some? { ConcatAssociates([m], Scan(fs, a[k..]).value, Scan(fs, b).value); }
    }
  }

  // ---------- counting ----------

  /** max_b128_numbers: bytes that end a varint. */
  function Terminators(b: seq<byte>): (r: nat)
    ensures r <= |b|
  {
    if b == [] then 0 else (if b[0] < 128 then 1 else 0) + Terminators(b[1..])
  }

  /** count_packed_elements. */
  function CountPacked(t: FieldType, b: seq<byte>): Option<nat>
  {
    match t
    case SFixed32 | Fixed32 | Float => if |b| % 4 != 0 then None else Some(|b| / 4)
    case SFixed64 | Fixed64 | Double => if |b| % 8 != 0 then None else Some(|b| / 8)
    case Enum | Int32 | SInt32 | UInt32 | Int64 | SInt64 | UInt64 => Some(Terminators(b))
    case Bool => Some(|b|)
    case Str | Binary | Msg => None
  }

  predicate ReadsPacked(f: Field, wire: nat)
  {
    wire == LENGTH_PREFIXED && (f.packed || IsScalar(f.ty))
  }

  /** The elements that pass 1 reserves for one member; None aborts the scan. */
  function CountOf(fs: seq<Field>, m: Scanned): Option<nat>
    requires m.pref <= |m.data| && (m.field.Some? ==> m.field.value < |fs|)
  {
    if m.field.None? || fs[m.field.value].rule != Repeated then Some(0)
    else if ReadsPacked(fs[m.field.value], m.wire) then CountPacked(fs[m.field.value].ty, m.data[m.pref..])
    else Some(1)
  }

  predicate AllCount(fs: seq<Field>, ms: seq<Scanned>)
    requires Bounded(fs, ms)
  {
    forall i | 0 <= i < |ms| :: CountOf(fs, ms[i]).Some?
  }

  /** What pass 1 sets aside for field `i` on account of one member. */
  function Share(fs: seq<Field>, m: Scanned, i: nat): nat
    requires m.pref <= |m.data| && (m.field.Some? ==> m.field.value < |fs|)
  {
    if m.field == Some(i) && CountOf(fs, m).Some? then CountOf(fs, m).value else 0
  }

  /** Pass 1's total for field `i`, and for the unknown fields. */
  function Reserved(fs: seq<Field>, ms: seq<Scanned>, i: nat): nat
    requires Bounded(fs, ms)
  {
    if ms == [] then 0 else Share(fs, ms[0], i) + Reserved(fs, ms[1..], i)
  }

  function ReservedUnknown(ms: seq<Scanned>): nat
  {
    if ms == [] then 0 else (if ms[0].field.None? then 1 else 0) + ReservedUnknown(ms[1..])
  }

  lemma {:induction false} ReservedSnoc(fs: seq<Field>, ms: seq<Scanned>, m: Scanned, i: nat)
    requires Bounded(fs, ms + [m])
    ensures Bounded(fs, ms) && m.pref <= |m.data| && (m.field.Some? ==> m.field.value < |fs|)
    ensures Reserved(fs, ms + [m], i) == Reserved(fs, ms, i) + Share(fs, m, i)
    ensures ReservedUnknown(ms + [m]) == ReservedUnknown(ms) + if m.field.None? then 1 else 0
  {
    assert (ms + [m])[|ms|] == m;
    forall k | 0 <= k < |ms| ensures (ms + [m])[k] == ms[k] {}
    if ms == [] {
      assert ms + [m] == [m] && [m][1..] == [];
    } else {
      assert (ms + [m])[1..] == ms[1..] + [m];
      ReservedSnoc(fs, ms[1..], m, i);
    }
  }
}
