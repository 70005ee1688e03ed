/** What the parser makes of its input, said without the writer: values, refusals, required members, merging. */
module ProtoMeaning {
  import opened Bytes
  import opened Base128
  import opened ProtoModel
  import opened ProtoLookup
  import opened ProtoScan
  import opened ProtoParse
  import opened ProtoConcat
  import ProtoRoundTrip

  // ---------- scalars ----------

  /** The number of two's complement that the low 32 or 64 bits stand for. */
  function Wrapped32(n: nat): int
  {
    var w := n % 0x1_0000_0000;
    if w < 0x8000_0000 then w else w - 0x1_0000_0000
  }

  function Wrapped64(n: nat): int
  {
    var w := n % 0x1_0000_0000_0000_0000;
    if w < 0x8000_0000_0000_0000 then w else w - 0x1_0000_0000_0000_0000
  }

  /** 0, -1, 1, -2, 2, and so on. */
  function Alternating(n: nat): int
  {
    if n % 2 == 0 then n / 2 else -(n / 2) - 1
  }

  function Word4(b: seq<byte>): nat
    requires |b| == 4
  {
    b[0] as int + 256 * (b[1] as int) + 65536 * (b[2] as int) + 16777216 * (b[3] as int)
  }

  /** Every type takes its own wire type and no other, except that a bool takes any. */
  lemma ScalarMeaning(t: FieldType, wire: nat, b: seq<byte>)
    ensures var v := VarintValue(b);
            ParseScalar(t, wire, b) ==
            match t
            case Int32 | Enum => if wire == 0 then Some(Wrapped32(v)) else None
            case UInt32 => if wire == 0 then Some(v % 0x1_0000_0000) else None
            case SInt32 => if wire == 0 then Some(Alternating(v % 0x1_0000_0000)) else None
            case Int64 => if wire == 0 then Some(Wrapped64(v)) else None
            case UInt64 => if wire == 0 then Some(v % 0x1_0000_0000_0000_0000) else None
            case SInt64 => if wire == 0 then Some(Alternating(v % 0x1_0000_0000_0000_0000)) else None
            case Bool => Some(if exists i :: 0 <= i < |b| && b[i] % 128 != 0 then 1 else 0)
            case SFixed32 => if wire == 5 && |b| == 4 then Some(Wrapped32(Word4(b))) else None
            case Fixed32 | Float => if wire == 5 && |b| == 4 then Some(Word4(b)) else None
            case SFixed64 =>
              if wire == 1 && |b| == 8 then Some(Wrapped64(Word4(b[..4]) + 0x1_0000_0000 * Word4(b[4..]))) else None
            case Fixed64 | Double =>
              if wire == 1 && |b| == 8 then Some(Word4(b[..4]) + 0x1_0000_0000 * Word4(b[4..])) else None
            case Str | Binary | Msg => None
  {
    hide VarintValue, FromLittleEndian;
    AnyBitMeans(b);
    if |b| == 4 { FourMeans(b); }
    if |b| == 8 { EightMeans(b); }
  }

  lemma {:induction false} AnyBitMeans(b: seq<byte>)
    ensures AnyBit(b) <==> exists i :: 0 <= i < |b| && b[i] % 128 != 0
  {
    if b != [] {
      AnyBitMeans(b[1..]);
      if i :| 0 <= i < |b| - 1 && b[1..][i] % 128 != 0 { assert b[i + 1] % 128 != 0; }
      if i :| 0 < i < |b| && b[i] % 128 != 0 { assert b[1..][i - 1] % 128 != 0; }
    }
  }

  lemma FourMeans(b: seq<byte>)
    requires |b| >= 4
    ensures FromLittleEndian(b) == Word4(b[..4]) + 0x1_0000_0000 * FromLittleEndian(b[4..])
    ensures |b| == 4 ==> FromLittleEndian(b) == Word4(b) < 0x1_0000_0000
  {
    OneMeans(b);
    OneMeans(b[1..]);
    OneMeans(b[2..]);
    OneMeans(b[3..]);
    assert b[1..][1..] == b[2..] && b[2..][1..] == b[3..] && b[3..][1..] == b[4..];
    if |b| == 4 { assert b[..4] == b && FromLittleEndian(b[4..]) == 0; }
  }

  lemma OneMeans(b: seq<byte>)
    requires b != []
    ensures FromLittleEndian(b) == b[0] as int + 256 * FromLittleEndian(b[1..])
  {
  }

  lemma EightMeans(b: seq<byte>)
    requires |b| == 8
    ensures FromLittleEndian(b) == Word4(b[..4]) + 0x1_0000_0000 * Word4(b[4..]) < 0x1_0000_0000_0000_0000
  {
    FourMeans(b);
    FourMeans(b[4..]);
  }

  /** A bool in a packed field is one byte, 0 or 1; everything else is read as it is alone. */
  lemma PackedMeaning(t: FieldType, b: seq<byte>)
    ensures t == Bool ==>
              ParsePacked(t, b) == if exists i :: 0 <= i < |b| && b[i] > 1 then None else Some(AsNumbers(b))
    ensures !IsScalar(t) ==> ParsePacked(t, b).None?
    ensures ParsePacked(t, []) == if IsScalar(t) then Some([]) else None
  {
    if t == Bool { BoolsMean(b); }
  }

  function AsNumbers(b: seq<byte>): (r: seq<Value>)
    ensures |r| == |b| && forall i | 0 <= i < |b| :: r[i] == Num(b[i])
  {
    seq(|b|, i requires 0 <= i < |b| => Num(b[i]))
  }

  lemma {:induction false} BoolsMean(b: seq<byte>)
    ensures Bools(b).None? <==> exists i :: 0 <= i < |b| && b[i] > 1
    ensures Bools(b).Some? ==> Bools(b).value == AsNumbers(b)
  {
    if b != [] {
      BoolsMean(b[1..]);
      assert forall i :: 0 <= i < |b| - 1 ==> b[1..][i] == b[i + 1];
      if b[0] <= 1 {
        if i :| 0 <= i < |b| && b[i] > 1 { assert b[1..][i - 1] > 1; }
        assert AsNumbers(b) == [Num(b[0])] + AsNumbers(b[1..]);
      }
    }
  }

  /** Numbers one after the other, each as it is alone. */
  lemma PackedFirst(t: FieldType, b: seq<byte>)
    requires b != [] && IsScalar(t) && t != Bool
    ensures var wire := if t == SFixed32 || t == Fixed32 || t == Float then 5
                        else if t == SFixed64 || t == Fixed64 || t == Double then 1 else 0;
            var n := if wire == 5 then 4 else if wire == 1 then 8 else TerminatedLength(b, 10);
            ParsePacked(t, b) == if n == 0 then None
                                 else if n > |b| then Some([])
                                 else match ParsePacked(t, b[n..])
                                   case None => None
                                   case Some(rest) => Some([Num(ParseScalar(t, wire, b[..n]).value)] + rest)
  {
  }

  // ---------- members ----------

  /** What stands in front of a member: its number, and its wire type in the low three bits. */
  lemma TagMeaning(b: seq<byte>)
    ensures var t := TerminatedLength(b, 5);
            ParseTag(b) == if t == 0 then None else Some(TagInfo(VarintValue(b[..t]) / 8, b[0] % 8, t))
  {
    if b != [] { assert Low7(b[0]) % 8 == b[0] % 8; }
  }

  /** How much belongs to a member, by its wire type; only 0, 1, 2 and 5 are known. */
  lemma ExtentMeaning(wire: nat, b: seq<byte>)
    ensures wire == 0 ==> var t := TerminatedLength(b, 10);
                          PayloadOf(wire, b) == if t == 0 then None else Some(PayloadInfo(t, 0))
    ensures wire == 1 ==> PayloadOf(wire, b) == if |b| < 8 then None else Some(PayloadInfo(8, 0))
    ensures wire == 5 ==> PayloadOf(wire, b) == if |b| < 4 then None else Some(PayloadInfo(4, 0))
    ensures wire == 2 ==> var t := TerminatedLength(b, 5);
                          PayloadOf(wire, b) ==
                          if t == 0 then None
                          else
                            var n := VarintValue(b[..t]) % 0x1_0000_0000;
                            if t + n > |b| then None else Some(PayloadInfo(t + n, t))
    ensures wire != 0 && wire != 1 && wire != 2 && wire != 5 ==> PayloadOf(wire, b).None?
  {
    hide TerminatedLength, VarintValue;
  }

  /** A first member that is cut off, or of a wire type that is not known, spoils the message. */
  lemma BadMemberRefused(s: Schema, desc: nat, b: seq<byte>)
    requires b != []
    requires ParseTag(b).None? || PayloadOf(ParseTag(b).value.wire, b[ParseTag(b).value.used..]).None?
    ensures Unpack(s, desc, b).None?
  {
  }

  /** Wherever it stands. */
  lemma BadMemberAnywhere(s: Schema, desc: nat, a: seq<byte>, b: seq<byte>)
    requires Scan(DescOf(s, desc).fields, a).Some? && b != []
    requires ParseTag(b).None? || PayloadOf(ParseTag(b).value.wire, b[ParseTag(b).value.used..]).None?
    ensures Unpack(s, desc, a + b).None?
  {
    ScanConcat(DescOf(s, desc).fields, a, b);
  }

  /** The wire types that a field may come with: its own, 2 for a packed list, and any for a bool that is no list. */
  predicate Fits(f: Field, wire: nat)
  {
    var own := match f.ty
               case Int32 | SInt32 | UInt32 | Int64 | SInt64 | UInt64 | Bool | Enum => 0
               case SFixed64 | Fixed64 | Double => 1
               case Str | Binary | Msg => 2
               case SFixed32 | Fixed32 | Float => 5;
    wire == own || (f.rule == Repeated && wire == 2) || f.ty == Bool
  }

  /** What a value that is no scalar is: the bytes behind its length, or the message that they are. */
  lemma PrefixedMeaning(s: Schema, f: Field, m: Scanned)
    requires m.pref <= |m.data|
    ensures f.ty == Str || f.ty == Binary ==>
              ParseValue(s, f, m) == if m.wire == 2 then Some(Data(m.data[m.pref..])) else None
    ensures f.ty == Msg ==>
              ParseValue(s, f, m) == if m.wire != 2 || Unpack(s, f.sub, m.data[m.pref..]).None? then None
                                     else Some(Sub(Unpack(s, f.sub, m.data[m.pref..]).value))
  {
    hide Unpack;
  }

  lemma {:induction false} AllFit(s: Schema, fs: seq<Field>, x: Message, ms: seq<Scanned>, k: nat)
    requires |x.slots| == |fs| && Bounded(fs, ms) && ParseAll(s, fs, x, ms).Some? && k < |ms|
    ensures ms[k].field.Some? ==> Fits(fs[ms[k].field.value], ms[k].wire)
    decreases |ms|
  {
    hide Unpack, ParsePacked, AnyBit, DecodeVarint, DecodeFixed;
    if k == 0 {
      if ms[0].field.Some? { OneFits(s, fs, x, ms[0]); }
    } else {
      AllFit(s, fs, ParseMember(s, fs, x, ms[0]).value, ms[1..], k - 1);
    }
  }

  lemma OneFits(s: Schema, fs: seq<Field>, x: Message, m: Scanned)
    requires |x.slots| == |fs| && m.pref <= |m.data| && m.field.Some? && m.field.value < |fs|
    requires ParseMember(s, fs, x, m).Some?
    ensures Fits(fs[m.field.value], m.wire)
  {
    hide Unpack, ParsePacked, AnyBit, DecodeVarint, DecodeFixed;
  }

  /** A known field that comes with another wire type spoils the message. */
  lemma WrongWireRefused(s: Schema, desc: nat, b: seq<byte>, k: nat)
    requires Unpack(s, desc, b).Some? && k < |Scan(DescOf(s, desc).fields, b).value|
    ensures var fs, m := DescOf(s, desc).fields, Scan(DescOf(s, desc).fields, b).value[k];
            m.field.Some? ==> m.field.value < |fs| && Fits(fs[m.field.value], m.wire)
  {
    hide Scan, ParseAll;
    var fs := DescOf(s, desc).fields;
    AllFit(s, fs, Message(desc, InitialSlots(fs), []), Scan(fs, b).value, k);
  }

  /** How many elements a packed payload has room set aside for, or that it is refused. */
  lemma CountMeaning(t: FieldType, b: seq<byte>)
    ensures match t
            case SFixed32 | Fixed32 | Float => CountPacked(t, b) == if |b| % 4 == 0 then Some(|b| / 4) else None
            case SFixed64 | Fixed64 | Double => CountPacked(t, b) == if |b| % 8 == 0 then Some(|b| / 8) else None
            case Bool => CountPacked(t, b) == Some(|b|)
            case Str | Binary | Msg => CountPacked(t, b).None?
            case _ => CountPacked(t, b) == Some(|set i | 0 <= i < |b| && b[i] < 128|)
  {
    EndsOfVarints(b);
  }

  lemma {:induction false} EndsOfVarints(b: seq<byte>)
    ensures Terminators(b) == |set i | 0 <= i < |b| && b[i] < 128|
    decreases |b|
  {
    var all := set i | 0 <= i < |b| && b[i] < 128;
    if b != [] {
      var rest := b[1..];
      EndsOfVarints(rest);
      var tail := set i | 0 <= i < |rest| && rest[i] < 128;
      var moved := set i | 1 <= i < |b| && b[i] < 128;
      Shifted(tail, moved);
      assert all == if b[0] < 128 then {0} + moved else moved;
    }
  }

  lemma {:induction false} Shifted(a: set<int>, b: set<int>)
    requires forall i :: i in a <==> i + 1 in b
    ensures |a| == |b|
    decreases |a|
  {
    if i: int :| i in a {
      Shifted(a - {i}, b - {i + 1});
    } else {
      forall i: int ensures i !in b {
        assert i - 1 !in a;
        assert (i - 1) + 1 == i;
      }
      assert (forall i: int :: i !in a) && (forall i: int :: i !in b);
      assert a == {} && b == {};
    }
  }

  /** So a packed list of words that does not end with one spoils the message. */
  lemma OddPackedRefused(s: Schema, desc: nat, b: seq<byte>, k: nat)
    requires Unpack(s, desc, b).Some? && k < |Scan(DescOf(s, desc).fields, b).value|
    ensures var fs, m := DescOf(s, desc).fields, Scan(DescOf(s, desc).fields, b).value[k];
            m.pref <= |m.data| &&
            (m.field.Some? ==>
               && m.field.value < |fs|
               && (fs[m.field.value].rule == Repeated && m.wire == 2 ==>
                     match fs[m.field.value].ty
                     case SFixed32 | Fixed32 | Float => (|m.data| - m.pref) % 4 == 0
                     case SFixed64 | Fixed64 | Double => (|m.data| - m.pref) % 8 == 0
                     case _ => true))
  {
    hide Scan, ParseAll;
    var fs, m := DescOf(s, desc).fields, Scan(DescOf(s, desc).fields, b).value[k];
    assert CountOf(fs, m).Some?;
    assert |m.data[m.pref..]| == |m.data| - m.pref;
  }

  /** A member that is required and has no default must be there; nothing else must. */
  lemma RequiredMeaning(s: Schema, desc: nat, b: seq<byte>)
    ensures var fs := DescOf(s, desc).fields;
            Unpack(s, desc, b).Some? ==>
              && Scan(fs, b).Some? && |Scan(fs, b).value| <= 134217712
              && forall i | 0 <= i < |fs| && fs[i].rule == Required && fs[i].dflt.None? ::
                   exists k :: 0 <= k < |Scan(fs, b).value| && Scan(fs, b).value[k].field == Some(i)
  {
  }

  lemma NothingRequired(s: Schema, desc: nat)
    ensures var fs := DescOf(s, desc).fields;
            Unpack(s, desc, []).Some? <==> forall i | 0 <= i < |fs| :: fs[i].rule == Required ==> fs[i].dflt.Some?
    ensures Unpack(s, desc, []).Some? ==>
              var m := Unpack(s, desc, []).value;
              && m.desc == desc && m.unknown == [] && |m.slots| == |DescOf(s, desc).fields|
              && forall i | 0 <= i < |m.slots| ::
                   m.slots[i] == if DescOf(s, desc).fields[i].rule == Repeated then Many([]) else One(None)
  {
  }

  // ---------- merging ----------

  /** What merge_messages makes of one member, case by case. */
  lemma MergeMeaning(s: Schema, f: Field, a: Slot, b: Slot)
    ensures a.Many? && b.Many? ==> MergeSlot(s, f, a, b) == Many(a.vs + b.vs)
    ensures a.One? && b.One? && f.rule == Required ==> MergeSlot(s, f, a, b) == b
    ensures a.One? && b.One? && f.rule == Optional && f.ty != Msg && f.ty != Binary ==>
              MergeSlot(s, f, a, b) == if b.v.Some? then b else a
    ensures a.One? && b.One? && f.rule == Optional && f.ty == Binary ==>
              MergeSlot(s, f, a, b) ==
              if b.v.Some? && b.v.value.Data? && b.v.value.d != [] then b
              else if a.v.Some? && a.v.value.Data? && a.v.value.d != [] then a else b
    ensures a.One? && b.One? && f.rule == Optional && f.ty == Msg && (a.v.None? || b.v.None?) ==>
              MergeSlot(s, f, a, b) == if b.v.Some? then b else a
    ensures f.rule == Optional && f.ty == Msg && a.One? && b.One? && a.v.Some? && b.v.Some?
            && a.v.value.Sub? && b.v.value.Sub? ==>
              var x, y := a.v.value.m, b.v.value.m;
              MergeSlot(s, f, a, b) ==
              One(Some(Sub(Message(y.desc, MergeSlots(s, DescOf(s, y.desc).fields, x.slots, y.slots), y.unknown))))
  {
  }

  // ---------- submessages that occur twice ----------

  /** A submessage on the wire: its tag, its length, and its bytes. */
  function Record(f: Field, p: seq<byte>): seq<byte>
  {
    Tag(f.id, 2) + (Varint(|p|) + p)
  }

  /** One occurrence puts the parsed submessage in its place, merged into what is there. */
  lemma SubmessageStored(s: Schema, d: Desc, i: nat, p: seq<byte>, x: Message)
    requires DescOk(s, d) && i < |d.fields| && |x.slots| == |d.fields| && IsU32(|p|)
    requires d.fields[i].ty == Msg && d.fields[i].rule != Repeated && Unpack(s, d.fields[i].sub, p).Some?
    ensures ProtoRoundTrip.Feeds(s, d.fields, Record(d.fields[i], p), x,
                x.(slots := x.slots[i := StoreOne(s, x.slots[i], Sub(Unpack(s, d.fields[i].sub, p).value))]), 1)
  {
    hide Unpack, PayloadOf, Tag, FindField;
    var f := d.fields[i];
    assert FieldOk(s, f);
    CachedFieldIsFresh(s, d, i, f.id);
    var pref := ProtoRoundTrip.PrefixedBody(p);
    var m := Scanned(f.id, 2, pref, Some(i), Prefixed(p));
    assert ParseValue(s, f, m) == Some(Sub(Unpack(s, f.sub, p).value));
    ProtoRoundTrip.FeedsMember(s, d.fields, f.id, 2, Prefixed(p), pref, x, ParseMember(s, d.fields, x, m).value);
  }

  /**
   A submessage that occurs twice reads as one whose bytes are those of both on end: the Protocol Buffers rule, for a
   flat submessage, and exactly where merging does not depart from it.
   */
  lemma TwiceIsConcatenated(s: Schema, d: Desc, i: nat, p: seq<byte>, q: seq<byte>, x: Message)
    requires DescOk(s, d) && i < |d.fields| && |x.slots| == |d.fields| && x.slots[i] == One(None)
    requires d.fields[i].ty == Msg && d.fields[i].rule != Repeated && Flat(DescOf(s, d.fields[i].sub).fields)
    requires IsU32(|p| + |q|) && Unpack(s, d.fields[i].sub, p).Some? && Unpack(s, d.fields[i].sub, q).Some?
    ensures var f, fs := d.fields[i], DescOf(s, d.fields[i].sub).fields;
            var mp, mq := Unpack(s, f.sub, p).value, Unpack(s, f.sub, q).value;
            && |fs| == |mp.slots| == |mq.slots|
            && (FewEnough(fs, p, q) && MergesLikeConcatenation(fs, mp, mq) <==>
                  exists m :: && Unpack(s, f.sub, p + q) == Some(m)
                              && Stores(s, d, i, Record(f, p) + Record(f, q), x, m, 2)
                              && Stores(s, d, i, Record(f, p + q), x, m, 1))
  {
    hide Unpack, Merge, ProtoRoundTrip.Feeds, Record, FewEnough, MergesLikeConcatenation, Scan;
    var f, fs := d.fields[i], DescOf(s, d.fields[i].sub).fields;
    var mp, mq := Unpack(s, f.sub, p).value, Unpack(s, f.sub, q).value;
    ConcatenationIsMerge(s, f.sub, p, q);
    ConcatenationJoins(s, f.sub, p, q);
    var y := x.(slots := x.slots[i := One(Some(Sub(mp)))]);
    SubmessageStored(s, d, i, p, x);
    SubmessageStored(s, d, i, q, y);
    var z := x.(slots := x.slots[i := One(Some(Sub(Merge(s, mp, mq))))]);
    assert y.slots[i := One(Some(Sub(Merge(s, mp, mq))))] == z.slots;
    ProtoRoundTrip.FeedsConcat(s, d.fields, Record(f, p), Record(f, q), x, y, z, 1, 1);
    if Unpack(s, f.sub, p + q).Some? { SubmessageStored(s, d, i, p + q, x); }
    OnlyOneStored(s, d, i, Record(f, p) + Record(f, q), x, Merge(s, mp, mq));
  }

  /** Reading `b` into `x` leaves the submessage `m` in slot `i`, and all else as it was. */
  ghost predicate Stores(s: Schema, d: Desc, i: nat, b: seq<byte>, x: Message, m: Message, n: nat)
    requires i < |x.slots|
  {
    ProtoRoundTrip.Feeds(s, d.fields, b, x, x.(slots := x.slots[i := One(Some(Sub(m)))]), n)
  }

  lemma OnlyOneStored(s: Schema, d: Desc, i: nat, b: seq<byte>, x: Message, m: Message)
    requires i < |x.slots| && Stores(s, d, i, b, x, m, 2)
    ensures forall m' :: Stores(s, d, i, b, x, m', 2) ==> m' == m
  {
    hide Scan, ParseAll, AllCount;
    forall m' | Stores(s, d, i, b, x, m', 2) ensures m' == m {
      assert x.slots[i := One(Some(Sub(m)))][i] == One(Some(Sub(m)));
      assert x.slots[i := One(Some(Sub(m')))][i] == One(Some(Sub(m')));
    }
  }
}
