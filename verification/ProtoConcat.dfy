/**
 Concatenating two encodings of a flat message type: what the parser makes of it, and exactly when that
 is what merge_messages makes of the two messages.
 */
module ProtoConcat {
  import opened Bytes
  import opened Base128
  import opened ProtoModel
  import opened ProtoLookup
  import opened ProtoScan
  import opened ProtoParse
  import opened ProtoRoundTrip
  import ProtoUnpack

  /** No field of message type. */
  predicate Flat(fs: seq<Field>)
  {
    forall i | 0 <= i < |fs| :: fs[i].ty != Msg
  }

  predicate ValueKind(f: Field, v: Value)
  {
    if IsScalar(f.ty) then v.Num? else if f.ty == Msg then v.Sub? else v.Data?
  }

  /** Every slot, and every value in a slot, is of the kind that its field asks for. */
  predicate Kinds(fs: seq<Field>, slots: seq<Slot>)
  {
    && SlotKinds(fs, slots)
    && (forall i | 0 <= i < |fs| :: slots[i].One? && slots[i].v.Some? ==> ValueKind(fs[i], slots[i].v.value))
  }

  /** The later value wins, repeated fields append: the Protocol Buffers rule. */
  function LastWins(earlier: Slot, latter: Slot): Slot
  {
    if earlier.Many? && latter.Many? then Many(earlier.vs + latter.vs)
    else if earlier.One? && latter == One(None) then earlier
    else latter
  }

  function JoinSlots(a: seq<Slot>, b: seq<Slot>): (r: seq<Slot>)
    requires |a| == |b|
    ensures |r| == |a| && forall i | 0 <= i < |a| :: r[i] == LastWins(a[i], b[i])
  {
    seq(|a|, i requires 0 <= i < |a| => LastWins(a[i], b[i]))
  }

  function Join(a: Message, b: Message): Message
    requires |a.slots| == |b.slots|
  {
    Message(b.desc, JoinSlots(a.slots, b.slots), a.unknown + b.unknown)
  }

  // ---------- parsing into a message that already holds something ----------

  lemma JoinUpdate(w: seq<Slot>, x: seq<Slot>, i: nat, slot: Slot)
    requires |w| == |x| && i < |x|
    ensures JoinSlots(w, x[i := slot]) == JoinSlots(w, x)[i := LastWins(w[i], slot)]
  {
  }

  /** One member has the same effect on top of `w` as on its own. */
  lemma MemberOnTop(s: Schema, fs: seq<Field>, w: Message, x: Message, m: Scanned)
    requires Flat(fs) && Kinds(fs, w.slots) && Kinds(fs, x.slots)
    requires m.pref <= |m.data| && (m.field.Some? ==> m.field.value < |fs|)
    requires ParseMember(s, fs, x, m).Some?
    ensures Kinds(fs, ParseMember(s, fs, x, m).value.slots)
    ensures ParseMember(s, fs, Join(w, x), m) == Some(Join(w, ParseMember(s, fs, x, m).value))
  {
    hide Unpack, ParseScalar, ParsePacked, Merge, ReadsPacked;
    if m.field.None? {
      assert w.unknown + x.unknown + [Unknown(m.tag, m.wire, m.data)]
          == w.unknown + (x.unknown + [Unknown(m.tag, m.wire, m.data)]);
    } else {
      var i := m.field.value;
      var f := fs[i];
      assert f.ty != Msg;
      var y := ParseMember(s, fs, x, m).value;
      JoinUpdate(w.slots, x.slots, i, y.slots[i]);
      if f.rule == Repeated {
        var added := if ReadsPacked(f, m.wire) then ParsePacked(f.ty, m.data[m.pref..]).value
                     else [ParseValue(s, f, m).value];
        assert w.slots[i].vs + x.slots[i].vs + added == w.slots[i].vs + (x.slots[i].vs + added);
      }
    }
  }

  lemma {:induction false} AllOnTop(s: Schema, fs: seq<Field>, w: Message, x: Message, ms: seq<Scanned>)
    requires Flat(fs) && Kinds(fs, w.slots) && Kinds(fs, x.slots) && Bounded(fs, ms)
    requires ParseAll(s, fs, x, ms).Some?
    ensures Kinds(fs, ParseAll(s, fs, x, ms).value.slots)
    ensures ParseAll(s, fs, Join(w, x), ms) == Some(Join(w, ParseAll(s, fs, x, ms).value))
    decreases |ms|
  {
    if ms != [] {
      MemberOnTop(s, fs, w, x, ms[0]);
      AllOnTop(s, fs, w, ParseMember(s, fs, x, ms[0]).value, ms[1..]);
    }
  }

  function Blank(desc: nat, fs: seq<Field>): Message
  {
    Message(desc, InitialSlots(fs), [])
  }

  lemma JoinBlank(desc: nat, fs: seq<Field>, w: Message)
    requires Kinds(fs, w.slots) && w.desc == desc
    ensures Join(w, Blank(desc, fs)) == w
  {
    forall i | 0 <= i < |fs| ensures LastWins(w.slots[i], InitialSlots(fs)[i]) == w.slots[i] {
      if fs[i].rule == Repeated { assert w.slots[i].vs + [] == w.slots[i].vs; }
    }
    assert w.unknown + [] == w.unknown;
    assert JoinSlots(w.slots, InitialSlots(fs)) == w.slots;
  }

  lemma {:induction false} ParseKeepsKinds(s: Schema, fs: seq<Field>, x: Message, ms: seq<Scanned>)
    requires Flat(fs) && Kinds(fs, x.slots) && Bounded(fs, ms) && ParseAll(s, fs, x, ms).Some?
    ensures Kinds(fs, ParseAll(s, fs, x, ms).value.slots) && ParseAll(s, fs, x, ms).value.desc == x.desc
    decreases |ms|
  {
    if ms != [] {
      MemberOnTop(s, fs, x, x, ms[0]);
      ParseKeepsKinds(s, fs, ParseMember(s, fs, x, ms[0]).value, ms[1..]);
    }
  }

  lemma UnpackedKinds(s: Schema, desc: nat, b: seq<byte>)
    requires Flat(DescOf(s, desc).fields) && Unpack(s, desc, b).Some?
    ensures Kinds(DescOf(s, desc).fields, Unpack(s, desc, b).value.slots)
    ensures Unpack(s, desc, b).value.desc == desc
  {
    var fs := DescOf(s, desc).fields;
    ParseKeepsKinds(s, fs, Blank(desc, fs), Scan(fs, b).value);
  }

  /** Together the two halves have no more members than pass 1 can keep. */
  ghost predicate FewEnough(fs: seq<Field>, a: seq<byte>, b: seq<byte>)
  {
    Scan(fs, a).Some? && Scan(fs, b).Some? && |Scan(fs, a).value| + |Scan(fs, b).value| <= MAX_MEMBERS
  }

  /** Parsing `a + b` is joining what `a` and `b` parse to, unless together they are too many members. */
  lemma ConcatenationJoins(s: Schema, desc: nat, a: seq<byte>, b: seq<byte>)
    requires Flat(DescOf(s, desc).fields)
    ensures Unpack(s, desc, a).Some? && Unpack(s, desc, b).Some? ==>
              && |Unpack(s, desc, a).value.slots| == |Unpack(s, desc, b).value.slots|
              && Unpack(s, desc, a + b) ==
                   if FewEnough(DescOf(s, desc).fields, a, b)
                   then Some(Join(Unpack(s, desc, a).value, Unpack(s, desc, b).value)) else None
  {
    if Unpack(s, desc, a).Some? && Unpack(s, desc, b).Some? {
      var fs := DescOf(s, desc).fields;
      var ms, ns, x := Scan(fs, a).value, Scan(fs, b).value, Blank(desc, fs);
      var ma := Unpack(s, desc, a).value;
      ScanConcat(fs, a, b);
      ParseAllConcat(s, fs, x, ms, ns);
      UnpackedKinds(s, desc, a);
      AllOnTop(s, fs, ma, x, ns);
      JoinBlank(desc, fs, ma);
      ConcatAccepted(fs, ms, ns);
    }
  }

  lemma ConcatAccepted(fs: seq<Field>, ms: seq<Scanned>, ns: seq<Scanned>)
    requires Bounded(fs, ms) && Bounded(fs, ns) && AllCount(fs, ms) && AllCount(fs, ns) && RequiredSeen(fs, ms)
    ensures Bounded(fs, ms + ns) && AllCount(fs, ms + ns) && RequiredSeen(fs, ms + ns)
  {
    forall i | 0 <= i < |fs| && fs[i].rule == Required && fs[i].dflt.None?
      ensures exists k | 0 <= k < |ms + ns| :: (ms + ns)[k].field == Some(i)
    {
      var k :| 0 <= k < |ms| && ms[k].field == Some(i);
      assert (ms + ns)[k].field == Some(i);
    }
  }

  // ---------- merge_messages ----------

  lemma {:induction false} MergeAt(s: Schema, fs: seq<Field>, a: seq<Slot>, b: seq<Slot>, i: nat)
    requires |fs| == |a| == |b| && i < |fs|
    ensures MergeSlots(s, fs, a, b)[i] == MergeSlot(s, fs[i], a[i], b[i])
  {
    if i > 0 { MergeAt(s, fs[1..], a[1..], b[1..], i - 1); }
  }

  /**
   Where merging departs from "the last value wins": a required member that only the first half set, an
   optional bytes member that the second half set to empty, and one that the first half set to empty and
   the second half left alone.
   */
  predicate MergesLikeLast(f: Field, a: Slot, b: Slot)
  {
    a.One? && b.One? ==>
      && (f.rule == Required ==> a.v.Some? ==> b.v.Some?)
      && (f.rule == Optional && f.ty == Binary && a.v.Some? ==>
            if HasData(a.v) then b.v.Some? ==> HasData(b.v) else b.v.Some?)
  }

  predicate MergesLikeConcatenation(fs: seq<Field>, a: Message, b: Message)
    requires |fs| == |a.slots| == |b.slots|
  {
    a.unknown == [] && forall i | 0 <= i < |fs| :: MergesLikeLast(fs[i], a.slots[i], b.slots[i])
  }

  lemma SlotMerge(s: Schema, f: Field, a: Slot, b: Slot)
    requires f.ty != Msg && (a.Many? <==> f.rule == Repeated) && (b.Many? <==> f.rule == Repeated)
    requires a.One? && a.v.Some? ==> ValueKind(f, a.v.value)
    requires b.One? && b.v.Some? ==> ValueKind(f, b.v.value)
    ensures MergeSlot(s, f, a, b) == LastWins(a, b) <==> MergesLikeLast(f, a, b)
  {
  }

  /** Merging the parsed halves gives what parsing the concatenation gives, exactly when nothing above occurs. */
  lemma ConcatenationIsMerge(s: Schema, desc: nat, a: seq<byte>, b: seq<byte>)
    requires Flat(DescOf(s, desc).fields)
    ensures Unpack(s, desc, a).Some? && Unpack(s, desc, b).Some? ==>
              var fs, ma, mb := DescOf(s, desc).fields, Unpack(s, desc, a).value, Unpack(s, desc, b).value;
              && |fs| == |ma.slots| == |mb.slots|
              && (Unpack(s, desc, a + b) == Some(Merge(s, ma, mb)) <==>
                    FewEnough(fs, a, b) && MergesLikeConcatenation(fs, ma, mb))
  {
    hide Unpack, Scan, Merge, Join, FewEnough, MergesLikeConcatenation;
    if Unpack(s, desc, a).Some? && Unpack(s, desc, b).Some? {
      var fs := DescOf(s, desc).fields;
      var ma, mb := Unpack(s, desc, a).value, Unpack(s, desc, b).value;
      UnpackedKinds(s, desc, a);
      UnpackedKinds(s, desc, b);
      ConcatenationJoins(s, desc, a, b);
      MergeIsJoin(s, fs, ma, mb);
    }
  }

  lemma MergeIsJoin(s: Schema, fs: seq<Field>, ma: Message, mb: Message)
    requires Flat(fs) && Kinds(fs, ma.slots) && Kinds(fs, mb.slots) && fs == DescOf(s, mb.desc).fields
    ensures Merge(s, ma, mb) == Join(ma, mb) <==> MergesLikeConcatenation(fs, ma, mb)
  {
    var merged, joined := MergeSlots(s, fs, ma.slots, mb.slots), JoinSlots(ma.slots, mb.slots);
    forall i | 0 <= i < |fs|
      ensures merged[i] == joined[i] <==> MergesLikeLast(fs[i], ma.slots[i], mb.slots[i])
    {
      MergeAt(s, fs, ma.slots, mb.slots, i);
      SlotMerge(s, fs[i], ma.slots[i], mb.slots[i]);
    }
    assert merged == joined <==> forall i | 0 <= i < |fs| :: merged[i] == joined[i];
    assert mb.unknown == ma.unknown + mb.unknown <==> ma.unknown == [] by {
      if mb.unknown == ma.unknown + mb.unknown { assert |mb.unknown| == |ma.unknown| + |mb.unknown|; }
    }
  }

  // ---------- an input on which merging is something else ----------

  /** One required int32 with a default. */
  function Counter(): Field
  {
    Field(1, Required, Int32, false, 0, Some(Num(7)))
  }

  function Counters(): Schema
  {
    [Desc([Counter()], [IntRange(1, 0), IntRange(0, 1)])]
  }

  lemma CountersOk()
    ensures SchemaOk(Counters()) && ProtoUnpack.TablesOk(Counters())
  {
    var d := Counters()[0];
    assert FieldOk(Counters(), d.fields[0]);
    assert RangesDescribe(d);
  }

  /**
   The first half sets the member, the second leaves it to its default: parsing both on end keeps the value, merging
   falls back to the default.
   */
  lemma DefaultIsNotMerged()
    ensures var s := Counters();
            && SchemaOk(s) && ProtoUnpack.TablesOk(s)
            && Unpack(s, 0, [8, 5]) == Some(Message(0, [One(Some(Num(5)))], []))
            && Unpack(s, 0, []) == Some(Message(0, [One(None)], []))
            && Unpack(s, 0, [8, 5] + []) == Some(Message(0, [One(Some(Num(5)))], []))
            && Merge(s, Unpack(s, 0, [8, 5]).value, Unpack(s, 0, []).value) == Message(0, [One(None)], [])
  {
    hide Unpack, Merge, Counters;
    var s := Counters();
    CountersOk();
    FirstHalf(s);
    SecondHalf(s);
    MergedHalves(s);
    assert [8, 5] + [] == [8, 5];
  }

  lemma FirstHalf(s: Schema)
    requires s == Counters()
    ensures Unpack(s, 0, [8, 5]) == Some(Message(0, [One(Some(Num(5)))], []))
  {
    hide Scan, ParseScalar, MergeSlots, Merge;
    var fs := [Counter()];
    OneMember();
    var m, x := Scanned(1, VARINT, 0, Some(0), [5]), Message(0, InitialSlots(fs), []);
    FiveIsFive();
    assert x.slots == [One(None)] && DescOf(s, 0).fields == fs;
    assert ParseValue(s, fs[0], m) == Some(Num(5)) && StoreOne(s, One(None), Num(5)) == One(Some(Num(5)));
    assert x.slots[0 := One(Some(Num(5)))] == [One(Some(Num(5)))];
    assert ParseMember(s, fs, x, m) == Some(Message(0, [One(Some(Num(5)))], []));
    assert [m][1..] == [] && ParseAll(s, fs, x, [m]) == ParseMember(s, fs, x, m);
    assert [m][0].field == Some(0);
  }

  lemma SecondHalf(s: Schema)
    requires s == Counters()
    ensures Unpack(s, 0, []) == Some(Message(0, [One(None)], []))
  {
    hide Scan;
    OneMember();
    assert InitialSlots([Counter()]) == [One(None)] && DescOf(s, 0).fields == [Counter()];
  }

  lemma MergedHalves(s: Schema)
    requires s == Counters()
    ensures Merge(s, Message(0, [One(Some(Num(5)))], []), Message(0, [One(None)], [])) == Message(0, [One(None)], [])
  {
    var fs := [Counter()];
    assert DescOf(s, 0).fields == fs;
    assert MergeSlots(s, fs, [One(Some(Num(5)))], [One(None)]) ==
           [MergeSlot(s, fs[0], One(Some(Num(5))), One(None))] + MergeSlots(s, fs[1..], [], []);
  }

  lemma OneMember()
    ensures Scan([Counter()], [8, 5]) == Some([Scanned(1, VARINT, 0, Some(0), [5])])
    ensures Scan([Counter()], []) == Some([])
  {
    var b: seq<byte> := [5];
    assert TerminatedLength(b, 10) == 1;
    SingleMember([Counter()], 1, VARINT, b, 0);
    assert Tag(1, VARINT) == [8] && [8] + b == [8, 5];
    assert FindField([Counter()], 1) == Some(0);
  }

  lemma FiveIsFive()
    ensures ParseScalar(Int32, VARINT, [5]) == Some(5)
  {
    assert VarintValue([5]) == 5 by { assert [5][1..] == []; }
  }
}
