/**
 protobuf_c_message_unpack as the original runs it: a scanning loop with a field cache, slabs of scanned
 members and element counters; allocation; and a filling loop that writes into the allocated arrays.
 Every array index is checked, so the writes of pass 2 provably stay inside what pass 1 allocated.
 */
module ProtoUnpack {
  import opened Bytes
  import opened Base128
  import opened ProtoModel
  import opened ProtoLookup
  import opened ProtoScan
  import opened ProtoParse
  import opened ProtoReaders
  import opened ProtoTwoPass

  // ---------- slabs ----------

  const MAX_SLAB: nat := 22

  function SlabSize(which: nat): (r: nat)
    ensures r >= 16
  {
    if which == 0 then 16 else 2 * SlabSize(which - 1)
  }

  lemma {:induction false} SlabsGrow(a: nat, b: nat)
    requires a <= b
    ensures SlabSize(a) <= SlabSize(b)
    decreases b
  {
    if a < b { SlabsGrow(a, b - 1); }
  }

  lemma LastSlab()
    ensures 2 * SlabSize(MAX_SLAB) - 16 == MAX_MEMBERS
  {
    assert SlabSize(2) == 64;
    assert SlabSize(4) == 256;
    assert SlabSize(6) == 1024;
    assert SlabSize(8) == 4096;
    assert SlabSize(10) == 16384;
    assert SlabSize(12) == 65536;
    assert SlabSize(14) == 262144;
    assert SlabSize(16) == 1048576;
    assert SlabSize(18) == 4194304;
    assert SlabSize(20) == 16777216;
    assert SlabSize(22) == 67108864;
  }

  lemma NextSlab(i: nat)
    ensures SlabSize(i + 1) == 2 * SlabSize(i)
  {
  }

  /** The scanned members, slab after slab, with the two counters that decide when a new slab is due. */
  class SlabList {
    var members: seq<Scanned>
    var whichSlab: nat
    var inSlabIndex: nat

    ghost predicate Valid()
      reads this
    {
      && whichSlab <= MAX_SLAB && inSlabIndex <= SlabSize(whichSlab)
      && |members| == SlabSize(whichSlab) - 16 + inSlabIndex
    }

    constructor ()
      ensures Valid() && members == []
    {
      members, whichSlab, inSlabIndex := [], 0, 0;
    }

    /** "too many fields" is reported when the last slab is full, that is at MAX_MEMBERS members. */
    method Add(m: Scanned) returns (ok: bool)
      requires Valid()
      modifies this
      ensures Valid() && (ok <==> |old(members)| < 134217712) && |old(members)| <= 134217712
      ensures members == if ok then old(members) + [m] else old(members)
    {
      hide SlabSize;
      LastSlab();
      SlabsGrow(whichSlab, MAX_SLAB);
      NextSlab(whichSlab);
      if inSlabIndex == SlabSize(whichSlab) {
        if whichSlab == MAX_SLAB { return false; }
        SlabsGrow(whichSlab + 1, MAX_SLAB);
        inSlabIndex, whichSlab := 0, whichSlab + 1;
      }
      members := members + [m];
      inSlabIndex := inSlabIndex + 1;
      ok := true;
    }
  }

  // ---------- pass 1 ----------

  /** The lookup with its one-entry cache; `last` is the position of the cached field. */
  method CachedLookup(s: Schema, d: Desc, tag: nat, last: nat) returns (field: Option<nat>, last': nat)
    requires DescOk(s, d) && RangesDescribe(d) && IsU32(tag)
    requires d.fields != [] ==> last < |d.fields|
    ensures field == FindField(d.fields, tag)
    ensures d.fields != [] ==> last' < |d.fields|
    ensures field.Some? ==> last' == field.value
  {
    if |d.fields| == 0 || d.fields[last].id != tag {
      var index := IntRangeLookup(d.ranges, AsInt(tag));
      LookupFindsField(s, d, tag);
      if index < 0 {
        return None, last;
      }
      return Some(index), index;
    }
    CachedFieldIsFresh(s, d, last, tag);
    return Some(last), last;
  }

  method PayloadLength(wire: nat, b: seq<byte>) returns (p: Option<PayloadInfo>)
    ensures p == PayloadOf(wire, b)
  {
    if wire == VARINT {
      var t := FindTerminator(b, 10);
      p := if t == 0 then None else Some(PayloadInfo(t, 0));
    } else if wire == BITS64 {
      p := if |b| < 8 then None else Some(PayloadInfo(8, 0));
    } else if wire == LENGTH_PREFIXED {
      var total, pref := ScanLengthPrefixed(b);
      p := if total == 0 then None else Some(PayloadInfo(total, pref));
    } else if wire == BITS32 {
      p := if |b| < 4 then None else Some(PayloadInfo(4, 0));
    } else {
      p := None;
    }
  }

  lemma TagFits(b: seq<byte>)
    requires ParseTag(b).Some?
    ensures IsU32(ParseTag(b).value.tag)
  {
    var t := TerminatedLength(b, 5);
    ShortValue(b[..t]);
  }

  lemma ShortValue(b: seq<byte>)
    requires |b| <= 5
    ensures VarintValue(b) < 0x8_0000_0000
  {
    ShortVarintValue(b);
    assert Pow128(3) == 0x20_0000;
    assert Pow128(5) == 128 * (128 * Pow128(3));
    if |b| < 5 { assert Pow128(|b|) <= Pow128(5); }
  }

  /** One round of the scan loop up to the slab. */
  method ScanMember(s: Schema, d: Desc, b: seq<byte>, last: nat)
    returns (m: Option<Scanned>, used: nat, last': nat)
    requires DescOk(s, d) && RangesDescribe(d) && b != [] && (d.fields != [] ==> last < |d.fields|)
    ensures d.fields != [] ==> last' < |d.fields|
    ensures m.None? ==> ScanOne(d.fields, b).None?
    ensures m.Some? ==> ScanOne(d.fields, b) == Some((m.value, used))
    ensures m.Some? && m.value.field.Some? ==> last' == m.value.field.value
  {
    hide ParseTag, PayloadOf, FindField, DescOk, RangesDescribe;
    var tag, wire;
    used, tag, wire := ParseTagAndWiretype(b);
    if used == 0 { return None, 0, last; }
    TagFits(b);
    var field;
    field, last' := CachedLookup(s, d, tag, last);
    var p := PayloadLength(wire, b[used..]);
    if p.None? { return None, 0, last'; }
    m := Some(Scanned(tag, wire, p.value.pref, field, b[used..][..p.value.len]));
    used := used + p.value.len;
  }

  /** Scanning `b` comes down to the members found so far and whatever the rest scans to. */
  ghost predicate ScannedSoFar(fs: seq<Field>, b: seq<byte>, at: nat, done: seq<Scanned>)
  {
    && at <= |b| && Bounded(fs, done) && AllCount(fs, done)
    && Scan(fs, b) == (if Scan(fs, b[at..]).Some? then Some(done + Scan(fs, b[at..]).value) else None)
  }

  ghost predicate Accepted(fs: seq<Field>, b: seq<byte>)
  {
    Scan(fs, b).Some? && |Scan(fs, b).value| <= MAX_MEMBERS && AllCount(fs, Scan(fs, b).value)
  }

  lemma ScanFailsHere(fs: seq<Field>, b: seq<byte>, at: nat, done: seq<Scanned>)
    requires ScannedSoFar(fs, b, at, done) && at < |b|
    requires ScanOne(fs, b[at..]).None?
          || |done| >= MAX_MEMBERS
          || CountOf(fs, ScanOne(fs, b[at..]).value.0).None?
    ensures !Accepted(fs, b)
  {
    if Scan(fs, b[at..]).Some? {
      var ms := Scan(fs, b).value;
      assert ms[|done|] == ScanOne(fs, b[at..]).value.0;
    }
  }

  lemma ScanAdvances(fs: seq<Field>, b: seq<byte>, at: nat, done: seq<Scanned>)
    requires ScannedSoFar(fs, b, at, done) && at < |b| && ScanOne(fs, b[at..]).Some?
    requires CountOf(fs, ScanOne(fs, b[at..]).value.0).Some?
    ensures var (m, used) := ScanOne(fs, b[at..]).value; ScannedSoFar(fs, b, at + used, done + [m])
  {
    var (m, used) := ScanOne(fs, b[at..]).value;
    ScanUnfolds(fs, b, at);
    CountableSnoc(fs, done, m);
    var rest := Scan(fs, b[at + used..]);
    if rest.Some? { ConcatAssociates(done, [m], rest.value); }
  }

  lemma ScanUnfolds(fs: seq<Field>, b: seq<byte>, at: nat)
    requires at < |b| && ScanOne(fs, b[at..]).Some?
    ensures var (m, used) := ScanOne(fs, b[at..]).value;
            var rest := Scan(fs, b[at + used..]);
            Scan(fs, b[at..]) == if rest.Some? then Some([m] + rest.value) else None
  {
    var used := ScanOne(fs, b[at..]).value.1;
    assert b[at..][used..] == b[at + used..];
  }

  lemma CountableSnoc(fs: seq<Field>, done: seq<Scanned>, m: Scanned)
    requires Bounded(fs, done) && AllCount(fs, done)
    requires 1 <= |m.data| && m.pref <= |m.data| && (m.field.Some? ==> m.field.value < |fs|) && CountOf(fs, m).Some?
    ensures Bounded(fs, done + [m]) && AllCount(fs, done + [m])
  {
    forall k | 0 <= k < |done + [m]| ensures (done + [m])[k] == if k < |done| then done[k] else m {}
  }

  /** Counters and bitmap agree with the members found so far. */
  ghost predicate Counted(fs: seq<Field>, ms: seq<Scanned>, counts: seq<nat>, nUnknown: nat, seen: seq<bool>)
    requires Bounded(fs, ms)
  {
    && |counts| == |seen| == |fs|
    && (forall i | 0 <= i < |fs| :: counts[i] == Reserved(fs, ms, i))
    && nUnknown == ReservedUnknown(ms)
    && (forall i | 0 <= i < |fs| && fs[i].rule == Required ::
          seen[i] <==> exists k | 0 <= k < |ms| :: ms[k].field == Some(i))
  }

  lemma CountsAdvance(fs: seq<Field>, ms: seq<Scanned>, m: Scanned,
                      counts: seq<nat>, nUnknown: nat, seen: seq<bool>,
                      counts': seq<nat>, nUnknown': nat, seen': seq<bool>)
    requires Bounded(fs, ms + [m]) && Bounded(fs, ms) && Counted(fs, ms, counts, nUnknown, seen)
    requires m.pref <= |m.data| && (m.field.Some? ==> m.field.value < |fs|) && CountOf(fs, m).Some?
    requires nUnknown' == nUnknown + if m.field.None? then 1 else 0
    requires counts' == if m.field.Some? then counts[m.field.value := counts[m.field.value] + CountOf(fs, m).value]
                        else counts
    requires seen' == if m.field.Some? && fs[m.field.value].rule == Required then seen[m.field.value := true] else seen
    ensures Counted(fs, ms + [m], counts', nUnknown', seen')
  {
    forall i | 0 <= i < |fs| ensures counts'[i] == Reserved(fs, ms + [m], i) {
      ReservedSnoc(fs, ms, m, i);
    }
    ReservedSnoc(fs, ms, m, 0);
    forall i | 0 <= i < |fs| && fs[i].rule == Required
      ensures seen'[i] <==> exists k | 0 <= k < |ms + [m]| :: (ms + [m])[k].field == Some(i)
    {
      assert (ms + [m])[|ms|] == m;
      if k :| 0 <= k < |ms| && ms[k].field == Some(i) { assert (ms + [m])[k].field == Some(i); }
    }
  }

  /** The whole scan: members into the slabs, `*n_ptr` of every repeated field, the bitmap, `n_unknown`. */
  method ScanPass(s: Schema, d: Desc, b: seq<byte>, slabs: SlabList, counts: array<nat>, seen: array<bool>)
    returns (ok: bool, nUnknown: nat)
    requires DescOk(s, d) && RangesDescribe(d) && slabs.Valid() && slabs.members == []
    requires counts.Length == seen.Length == |d.fields|
    requires forall i | 0 <= i < |d.fields| :: counts[i] == 0 && !seen[i]
    modifies slabs, counts, seen
    ensures ok <==> Accepted(d.fields, b)
    ensures ok ==> slabs.members == Scan(d.fields, b).value
    ensures ok ==> Counted(d.fields, slabs.members, counts[..], nUnknown, seen[..])
  {
    var at, last := 0, 0;
    nUnknown := 0;
    StartCounted(d.fields, b, counts[..], seen[..]);
    while at < |b|
      invariant ScanState(d, b, slabs, counts, seen, at, last, nUnknown)
      decreases |b| - at
    {
      ok, at, last, nUnknown := ScanStep(s, d, b, slabs, counts, seen, at, last, nUnknown);
      if !ok { return; }
    }
    AllScanned(d.fields, b, at, slabs.members);
    ok := true;
  }

  ghost predicate ScanState(d: Desc, b: seq<byte>, slabs: SlabList, counts: array<nat>, seen: array<bool>,
                            at: nat, last: nat, nUnknown: nat)
    reads slabs, counts, seen
  {
    && slabs.Valid() && |slabs.members| <= MAX_MEMBERS && (d.fields != [] ==> last < |d.fields|)
    && ScannedSoFar(d.fields, b, at, slabs.members)
    && Counted(d.fields, slabs.members, counts[..], nUnknown, seen[..])
  }

  method ScanStep(s: Schema, d: Desc, b: seq<byte>, slabs: SlabList, counts: array<nat>, seen: array<bool>,
                  at: nat, last: nat, nUnknown: nat)
    returns (ok: bool, at': nat, last': nat, nUnknown': nat)
    requires DescOk(s, d) && RangesDescribe(d) && at < |b|
    requires ScanState(d, b, slabs, counts, seen, at, last, nUnknown)
    modifies slabs, counts, seen
    ensures !ok ==> !Accepted(d.fields, b)
    ensures ok ==> at < at' <= |b| && ScanState(d, b, slabs, counts, seen, at', last', nUnknown')
  {
    hide CountOf, PayloadOf, ParseTag, Scan, ScanOne, ScanBody, DescOk, FieldOk, RangesDescribe, TableOk;
    var m, used;
    m, used, last' := ScanMember(s, d, b[at..], last);
    ok, at', nUnknown' := false, at, nUnknown;
    ghost var done := slabs.members;
    if m.Some? {
      ok, nUnknown' := StoreMember(d.fields, m.value, slabs, counts, seen, nUnknown);
      at' := at + used;
    }
    if ok {
      ScanAdvances(d.fields, b, at, done);
    } else {
      ScanFailsHere(d.fields, b, at, done);
    }
  }

  method StoreMember(fs: seq<Field>, m: Scanned, slabs: SlabList, counts: array<nat>, seen: array<bool>, nUnknown: nat)
    returns (ok: bool, nUnknown': nat)
    requires slabs.Valid() && Bounded(fs, slabs.members) && AllCount(fs, slabs.members)
    requires 1 <= |m.data| && m.pref <= |m.data| && (m.field.Some? ==> m.field.value < |fs|)
    requires Counted(fs, slabs.members, counts[..], nUnknown, seen[..])
    modifies slabs, counts, seen
    ensures ok <==> |old(slabs.members)| < MAX_MEMBERS && CountOf(fs, m).Some?
    ensures ok ==> slabs.Valid() && slabs.members == old(slabs.members) + [m]
    ensures ok ==> Bounded(fs, slabs.members) && Counted(fs, slabs.members, counts[..], nUnknown', seen[..])
  {
    hide CountOf, Scan, Reserved, Share, SlabSize, AllCount, Bounded;
    ghost var done, counts0, seen0 := slabs.members, counts[..], seen[..];
    ok := slabs.Add(m);
    if !ok { return false, nUnknown; }
    var n := Count(fs, m);
    if n.None? { return false, nUnknown; }
    CountableSnoc(fs, done, m);
    nUnknown' := Tally(fs, m, n.value, counts, seen, nUnknown);
    CountsAdvance(fs, done, m, counts0, nUnknown, seen0, counts[..], nUnknown', seen[..]);
  }

  lemma StartCounted(fs: seq<Field>, b: seq<byte>, counts: seq<nat>, seen: seq<bool>)
    requires |counts| == |seen| == |fs| && forall i | 0 <= i < |fs| :: counts[i] == 0 && !seen[i]
    ensures ScannedSoFar(fs, b, 0, []) && Counted(fs, [], counts, 0, seen)
  {
    assert b[0..] == b;
    if Scan(fs, b).Some? { assert [] + Scan(fs, b).value == Scan(fs, b).value; }
  }

  lemma AllScanned(fs: seq<Field>, b: seq<byte>, at: nat, done: seq<Scanned>)
    requires ScannedSoFar(fs, b, at, done) && at == |b| && |done| <= MAX_MEMBERS
    ensures Accepted(fs, b) && Scan(fs, b) == Some(done)
  {
    assert b[at..] == [];
    assert done + [] == done;
  }

  /** The element count of the scanned member. */
  method Count(fs: seq<Field>, m: Scanned) returns (n: Option<nat>)
    requires m.pref <= |m.data| && (m.field.Some? ==> m.field.value < |fs|)
    ensures n == CountOf(fs, m)
  {
    if m.field.None? || fs[m.field.value].rule != Repeated {
      n := Some(0);
    } else if ReadsPacked(fs[m.field.value], m.wire) {
      n := CountPackedElements(fs[m.field.value].ty, m.data[m.pref..]);
    } else {
      n := Some(1);
    }
  }

  method Tally(fs: seq<Field>, m: Scanned, n: nat, counts: array<nat>, seen: array<bool>, nUnknown: nat)
    returns (nUnknown': nat)
    requires counts.Length == seen.Length == |fs| && (m.field.Some? ==> m.field.value < |fs|)
    modifies counts, seen
    ensures nUnknown' == nUnknown + if m.field.None? then 1 else 0
    ensures counts[..] == if m.field.Some? then old(counts[..])[m.field.value := old(counts[m.field.value]) + n]
                          else old(counts[..])
    ensures seen[..] == if m.field.Some? && fs[m.field.value].rule == Required
                        then old(seen[..])[m.field.value := true] else old(seen[..])
  {
    if m.field.None? { return nUnknown + 1; }
    var i := m.field.value;
    if fs[i].rule == Required { seen[i] := true; }
    counts[i] := counts[i] + n;
    nUnknown' := nUnknown;
  }

  // ---------- between the passes ----------

  /** The message being built: `counts[i]` of the elements allocated for field `i` are filled. */
  class Builder {
    const counts: array<nat>
    const ones: array<Option<Value>>
    var elems: seq<array<Value>>
    var unknown: array<Unknown>
    var nUnknown: nat

    ghost predicate Valid(fs: seq<Field>)
      reads this, counts, elems
    {
      && counts.Length == ones.Length == |elems| == |fs|
      && nUnknown <= unknown.Length
      && (forall i | 0 <= i < |fs| :: counts[i] <= elems[i].Length)
      && (forall i, j | 0 <= i < j < |elems| :: elems[i] != elems[j])
    }

    /** The C struct, read as the message `x`. */
    ghost predicate Holds(fs: seq<Field>, x: Message)
      requires Valid(fs)
      reads this, counts, ones, elems, unknown
    {
      && SlotKinds(fs, x.slots)
      && (forall i | 0 <= i < |fs| :: x.slots[i].Many? ==> x.slots[i].vs == elems[i][..counts[i]])
      && (forall i | 0 <= i < |fs| :: x.slots[i].One? ==> x.slots[i].v == ones[i])
      && x.unknown == unknown[..nUnknown]
    }

    /** Exactly the room that the members still to be parsed will need. */
    ghost predicate Room(fs: seq<Field>, ms: seq<Scanned>)
      requires Valid(fs) && Bounded(fs, ms)
      reads this, counts, elems
    {
      && nUnknown + ReservedUnknown(ms) == unknown.Length
      && forall i | 0 <= i < |fs| && fs[i].rule == Repeated :: counts[i] + Reserved(fs, ms, i) == elems[i].Length
    }

    /** Allocation: as many elements as were counted; the counters start over for pass 2. */
    constructor (fs: seq<Field>, ms: seq<Scanned>, counted: array<nat>, unknownCount: nat, desc: nat)
      requires Bounded(fs, ms) && counted.Length == |fs| && unknownCount == ReservedUnknown(ms)
      requires forall i | 0 <= i < |fs| :: counted[i] == Reserved(fs, ms, i)
      ensures Valid(fs) && Holds(fs, Message(desc, InitialSlots(fs), [])) && Room(fs, ms)
      ensures fresh(counts) && fresh(ones) && fresh(unknown) && forall i | 0 <= i < |elems| :: fresh(elems[i])
    {
      counts := new nat[|fs|](_ => 0);
      ones := new Option<Value>[|fs|](_ => None);
      unknown := new Unknown[unknownCount](_ => Unknown(0, 0, []));
      nUnknown := 0;
      elems := [];
      new;
      var i := 0;
      while i < |fs|
        invariant 0 <= i <= |fs| && |elems| == i
        invariant forall k | 0 <= k < i :: fresh(elems[k]) && elems[k].Length == counted[k]
        invariant forall k, l | 0 <= k < l < i :: elems[k] != elems[l]
        invariant nUnknown == 0 && unknown.Length == unknownCount && fresh(unknown)
        invariant forall k | 0 <= k < |fs| :: counts[k] == 0 && ones[k] == None
        modifies this
      {
        var a := new Value[counted[i]](_ => Null);
        elems := elems + [a];
        i := i + 1;
      }
    }

    /** Frame of every step of pass 2: nothing is reallocated. */
    twostate predicate SameStorage()
      reads this
    {
      elems == old(elems) && unknown == old(unknown)
    }

    method AddUnknown(fs: seq<Field>, u: Unknown, ghost x: Message)
      requires Valid(fs) && Holds(fs, x) && nUnknown < unknown.Length
      modifies this, unknown
      ensures SameStorage() && Valid(fs) && nUnknown == old(nUnknown) + 1
      ensures Holds(fs, x.(unknown := x.unknown + [u]))
    {
      unknown[nUnknown] := u;
      nUnknown := nUnknown + 1;
    }

    /** A required or optional member: a repeated occurrence of a submessage is merged into the earlier one. */
    method SetOne(s: Schema, fs: seq<Field>, i: nat, v: Value, ghost x: Message)
      requires Valid(fs) && Holds(fs, x) && i < |fs| && fs[i].rule != Repeated
      modifies ones
      ensures Holds(fs, x.(slots := x.slots[i := StoreOne(s, x.slots[i], v)]))
    {
      var before := ones[i];
      assert x.slots[i] == One(before);
      if before.Some? && before.value.Sub? && v.Sub? {
        var merged := MergeMessages(s, before.value.m, v.m);
        ones[i] := Some(Sub(merged));
      } else {
        ones[i] := Some(v);
      }
    }

    /** parse_repeated_member: one element behind those already filled. */
    method Push(fs: seq<Field>, i: nat, v: Value, ghost x: Message)
      requires Valid(fs) && Holds(fs, x) && i < |fs| && fs[i].rule == Repeated
      requires counts[i] < elems[i].Length
      modifies counts, elems[i]
      ensures Valid(fs) && counts[..] == old(counts[..])[i := old(counts[i]) + 1]
      ensures Holds(fs, x.(slots := x.slots[i := Many(x.slots[i].vs + [v])]))
    {
      elems[i][counts[i]] := v;
      counts[i] := counts[i] + 1;
      assert elems[i][..counts[i]] == old(elems[i][..counts[i]]) + [v];
    }
  }

  /** merge_messages, field by field; the merged message takes the place of the later one. */
  method MergeMessages(s: Schema, earlier: Message, latter: Message) returns (r: Message)
    ensures r == Merge(s, earlier, latter)
    decreases earlier
  {
    hide MergeSlots, MergeSlot;
    var fs := DescOf(s, latter.desc).fields;
    var slots := latter.slots;
    var i := 0;
    assert fs[0..] == fs && earlier.slots[0..] == earlier.slots && latter.slots[0..] == latter.slots;
    while i < |fs| && i < |earlier.slots| && i < |latter.slots|
      invariant 0 <= i && i <= |fs| && i <= |earlier.slots| && i <= |latter.slots|
      invariant |slots| == |latter.slots| && slots[i..] == latter.slots[i..]
      invariant slots[..i] + MergeSlots(s, fs[i..], earlier.slots[i..], latter.slots[i..])
             == MergeSlots(s, fs, earlier.slots, latter.slots)
    {
      var merged := MergeField(s, fs[i], earlier.slots[i], latter.slots[i], earlier);
      MergeSlotsStep(s, fs, earlier.slots, latter.slots, i);
      OneMerged(slots, latter.slots, i, merged,
                MergeSlots(s, fs[i + 1..], earlier.slots[i + 1..], latter.slots[i + 1..]));
      slots := slots[i := merged];
      i := i + 1;
    }
    MergeSlotsEnd(s, fs[i..], earlier.slots[i..], latter.slots[i..]);
    assert slots == slots[..i] + slots[i..];
    r := Message(latter.desc, slots, latter.unknown);
  }

  lemma OneMerged(slots: seq<Slot>, latter: seq<Slot>, i: nat, x: Slot, rest: seq<Slot>)
    requires i < |slots| == |latter| && slots[i..] == latter[i..]
    ensures slots[i := x][..i + 1] + rest == slots[..i] + ([x] + rest)
    ensures slots[i := x][i + 1..] == latter[i + 1..]
  {
    assert slots[i := x][i + 1..] == slots[i..][1..] == latter[i..][1..];
    assert slots[i := x][..i + 1] == slots[..i] + [x];
  }

  lemma MergeSlotsEnd(s: Schema, fs: seq<Field>, a: seq<Slot>, b: seq<Slot>)
    requires fs == [] || a == [] || b == []
    ensures MergeSlots(s, fs, a, b) == b
  {
  }

  lemma MergeSlotsStep(s: Schema, fs: seq<Field>, a: seq<Slot>, b: seq<Slot>, i: nat)
    requires i < |fs| && i < |a| && i < |b|
    ensures MergeSlots(s, fs[i..], a[i..], b[i..])
         == [MergeSlot(s, fs[i], a[i], b[i])] + MergeSlots(s, fs[i + 1..], a[i + 1..], b[i + 1..])
  {
    assert fs[i..][1..] == fs[i + 1..] && a[i..][1..] == a[i + 1..] && b[i..][1..] == b[i + 1..];
  }

  method MergeField(s: Schema, f: Field, earlier: Slot, latter: Slot, ghost parent: Message) returns (r: Slot)
    requires earlier.One? && earlier.v.Some? && earlier.v.value.Sub? ==> earlier.v.value.m < parent
    ensures r == MergeSlot(s, f, earlier, latter)
    decreases parent, 0
  {
    if earlier.Many? && latter.Many? { return Many(earlier.vs + latter.vs); }
    if earlier.Many? || latter.Many? || f.rule != Optional { return latter; }
    if f.ty == Msg && earlier.v.Some? && earlier.v.value.Sub? && latter.v.Some? && latter.v.value.Sub? {
      var m := MergeMessages(s, earlier.v.value.m, latter.v.value.m);
      return One(Some(Sub(m)));
    }
    var needToMerge := if f.ty == Binary then HasData(earlier.v) && !HasData(latter.v)
                       else earlier.v.Some? && latter.v.None?;
    r := if needToMerge then earlier else latter;
  }

  // ---------- pass 2 ----------

  /** What has been stored behind `from`, followed by what `rest` will decode to, is what `b` decodes to. */
  ghost predicate StoredSoFar(all: Option<seq<Value>>, a: seq<Value>, from: nat, count: nat, rest: Option<seq<Value>>)
  {
    && from + count <= |a| && (all.Some? <==> rest.Some?)
    && (all.Some? ==> all.value == a[from..from + count] + rest.value)
  }

  lemma StoreNext(all: Option<seq<Value>>, a: seq<Value>, from: nat, count: nat, v: Value, rest: seq<Value>)
    requires StoredSoFar(all, a, from, count, Some([v] + rest)) && from + count < |a|
    ensures StoredSoFar(all, a[from + count := v], from, count + 1, Some(rest))
    ensures a[from + count := v][..from] == a[..from]
  {
    var a' := a[from + count := v];
    assert a'[from..from + count + 1] == a[from..from + count] + [v];
    ConcatAssociates(a[from..from + count], [v], rest);
  }

  /** The varint loops: every round consumes one terminator, so no round stores past the reserved room. */
  method FillVarints(t: FieldType, b: seq<byte>, a: array<Value>, from: nat) returns (ok: bool, count: nat)
    requires WireOf(t) == VARINT && from + Terminators(b) <= a.Length
    modifies a
    ensures ok <==> Varints(t, b).Some?
    ensures ok ==> count == |Varints(t, b).value| && from + count <= a.Length
                   && a[from..from + count] == Varints(t, b).value
    ensures a[..from] == old(a[..from])
  {
    hide Varints, Terminators, DecodeVarint;
    var at := 0;
    count := 0;
    assert b[0..] == b;
    while at < |b|
      invariant 0 <= at <= |b| && count + Terminators(b[at..]) == Terminators(b)
      invariant StoredSoFar(Varints(t, b), a[..], from, count, Varints(t, b[at..]))
      invariant a[..from] == old(a[..from])
      decreases |b| - at
    {
      var n := FindTerminator(b[at..], 10);
      NextVarint(t, b, at, n);
      if n == 0 { return false, count; }
      var v := ReadVarint(t, b[at..][..n]);
      if Varints(t, b[at + n..]).Some? {
        StoreNext(Varints(t, b), a[..], from, count, Num(v), Varints(t, b[at + n..]).value);
      }
      a[from + count] := Num(v);
      count := count + 1;
      at := at + n;
    }
    NoVarints(t, b[at..]);
    ok := true;
  }

  /** One round of the loop over a packed payload of varints. */
  lemma NextVarint(t: FieldType, b: seq<byte>, at: nat, n: nat)
    requires WireOf(t) == VARINT && at < |b| && n == TerminatedLength(b[at..], 10)
    ensures n == 0 ==> Varints(t, b[at..]).None?
    ensures n > 0 ==> Terminators(b[at..]) == 1 + Terminators(b[at + n..])
    ensures n > 0 ==>
              var rest := Varints(t, b[at + n..]);
              Varints(t, b[at..]) ==
                if rest.Some? then Some([Num(DecodeVarint(t, b[at..][..n]))] + rest.value) else None
  {
    if n > 0 {
      TerminatorsSkip(b[at..], 10);
      assert b[at..][n..] == b[at + n..];
    }
  }

  lemma NoVarints(t: FieldType, b: seq<byte>)
    requires WireOf(t) == VARINT && b == []
    ensures Varints(t, b) == Some([])
  {
  }

  method FillBools(b: seq<byte>, a: array<Value>, from: nat) returns (ok: bool, count: nat)
    requires from + |b| <= a.Length
    modifies a
    ensures ok <==> Bools(b).Some?
    ensures ok ==> count == |Bools(b).value| == |b| && a[from..from + count] == Bools(b).value
    ensures a[..from] == old(a[..from])
  {
    count := |b|;
    var i := 0;
    assert b[0..] == b;
    while i < count
      invariant 0 <= i <= count == |b|
      invariant StoredSoFar(Bools(b), a[..], from, i, Bools(b[i..]))
      invariant a[..from] == old(a[..from])
    {
      if b[i] > 1 { return false, count; }
      assert b[i..][1..] == b[i + 1..];
      if Bools(b[i + 1..]).Some? {
        StoreNext(Bools(b), a[..], from, i, Num(b[i]), Bools(b[i + 1..]).value);
      }
      a[from + i] := Num(b[i]);
      i := i + 1;
    }
    assert b[i..] == [];
    ok := true;
  }

  /** On this little-endian target the words are copied as they stand. */
  method FillWords(t: FieldType, b: seq<byte>, k: nat, a: array<Value>, from: nat) returns (count: nat)
    requires (WireOf(t) == BITS32 && k == 4) || (WireOf(t) == BITS64 && k == 8)
    requires from + |b| / k <= a.Length
    modifies a
    ensures count == |Chunks(t, b, k)| && from + count <= a.Length && a[from..from + count] == Chunks(t, b, k)
    ensures a[..from] == old(a[..from])
  {
    ChunksFill(t, b, k);
    count := |b| / k;
    assert count == Words(b, k);
    hide Chunks, DecodeFixed, Words;
    var i, at := 0, 0;
    assert b[0..] == b;
    while i < count
      invariant 0 <= i <= count && at <= |b| && count - i == Words(b[at..], k)
      invariant StoredSoFar(Some(Chunks(t, b, k)), a[..], from, i, Some(Chunks(t, b[at..], k)))
      invariant a[..from] == old(a[..from])
    {
      hide StoredSoFar;
      var rest := b[at..];
      NextWord(b, k, at);
      FirstChunk(t, rest, k);
      StoreNext(Some(Chunks(t, b, k)), a[..], from, i, Num(DecodeFixed(t, rest[..k])), Chunks(t, b[at + k..], k));
      a[from + i] := Num(DecodeFixed(t, rest[..k]));
      i, at := i + 1, at + k;
    }
    NoWord(t, b[at..], k);
  }

  /** How many words of `k` bytes there are. */
  ghost function Words(b: seq<byte>, k: nat): nat
    requires k > 0
  {
    |b| / k
  }

  lemma NoWord(t: FieldType, b: seq<byte>, k: nat)
    requires (WireOf(t) == BITS32 && k == 4) || (WireOf(t) == BITS64 && k == 8)
    requires Words(b, k) == 0
    ensures Chunks(t, b, k) == []
  {
  }

  lemma FirstChunk(t: FieldType, b: seq<byte>, k: nat)
    requires (WireOf(t) == BITS32 && k == 4) || (WireOf(t) == BITS64 && k == 8)
    requires |b| >= k
    ensures Chunks(t, b, k) == [Num(DecodeFixed(t, b[..k]))] + Chunks(t, b[k..], k)
  {
  }

  lemma NextWord(b: seq<byte>, k: nat, at: nat)
    requires (k == 4 || k == 8) && at <= |b| && Words(b[at..], k) > 0
    ensures at + k <= |b| && |b[at..]| >= k && b[at..][k..] == b[at + k..]
    ensures Words(b[at + k..], k) == Words(b[at..], k) - 1
  {
  }

  method FillPacked(t: FieldType, b: seq<byte>, a: array<Value>, from: nat) returns (ok: bool, count: nat)
    requires CountPacked(t, b).Some? && from + CountPacked(t, b).value <= a.Length
    modifies a
    ensures ok <==> ParsePacked(t, b).Some?
    ensures ok ==> count == |ParsePacked(t, b).value| && from + count <= a.Length
                   && a[from..from + count] == ParsePacked(t, b).value
    ensures a[..from] == old(a[..from])
  {
    if t == Bool {
      ok, count := FillBools(b, a, from);
    } else if WireOf(t) == VARINT {
      ok, count := FillVarints(t, b, a, from);
    } else {
      count := FillWords(t, b, if WireOf(t) == BITS32 then 4 else 8, a, from);
      ok := true;
    }
  }

  /** parse_packed_repeated_member: the counter moves only once the whole payload has been stored. */
  method PushPacked(fs: seq<Field>, i: nat, b: seq<byte>, builder: Builder, ghost x: Message) returns (ok: bool)
    requires builder.Valid(fs) && builder.Holds(fs, x) && i < |fs| && fs[i].rule == Repeated
    requires CountPacked(fs[i].ty, b).Some?
    requires builder.counts[i] + CountPacked(fs[i].ty, b).value <= builder.elems[i].Length
    modifies builder.counts, builder.elems[i]
    ensures ok <==> ParsePacked(fs[i].ty, b).Some?
    ensures ok ==> builder.Valid(fs)
    ensures ok ==> var n := |ParsePacked(fs[i].ty, b).value|;
                   builder.counts[..] == old(builder.counts[..])[i := old(builder.counts[i]) + n]
    ensures ok ==> builder.Holds(fs, x.(slots := x.slots[i := Many(x.slots[i].vs + ParsePacked(fs[i].ty, b).value)]))
  {
    hide ParsePacked, CountPacked, FieldOk;
    var count;
    ghost var before := builder.elems[i][..builder.counts[i]];
    ok, count := FillPacked(fs[i].ty, b, builder.elems[i], builder.counts[i]);
    if !ok { return; }
    ghost var from := builder.counts[i];
    builder.counts[i] := builder.counts[i] + count;
    assert builder.elems[i][..from + count] == builder.elems[i][..from] + builder.elems[i][from..from + count];
  }

  /** parse_required_member for one scanned member. */
  method ReadValue(s: Schema, f: Field, m: Scanned) returns (v: Option<Value>)
    requires SchemaOk(s) && TablesOk(s) && m.pref <= |m.data| && (m.wire == VARINT ==> 1 <= |m.data| <= 10)
    requires f.ty == Msg ==> f.sub < |s|
    ensures v == ParseValue(s, f, m)
    decreases |m.data|, 4
  {
    if IsScalar(f.ty) {
      var n := ReadScalar(f.ty, m.wire, m.data);
      return if n.None? then None else Some(Num(n.value));
    }
    if m.wire != LENGTH_PREFIXED { return None; }
    if f.ty == Msg {
      var sub := MessageUnpack(s, f.sub, m.data[m.pref..]);
      return if sub.None? then None else Some(Sub(sub.value));
    }
    v := Some(Data(m.data[m.pref..]));
  }

  ghost predicate TablesOk(s: Schema)
  {
    forall i | 0 <= i < |s| :: RangesDescribe(s[i])
  }

  /** A varint member holds one to ten bytes. */
  ghost predicate VarintSized(m: Scanned)
  {
    m.wire == VARINT ==> 1 <= |m.data| <= 10
  }

  /** parse_member on the first of `ms`. The storage it needs has been set aside; it never needs more. */
  method FillMember(s: Schema, fs: seq<Field>, builder: Builder, ms: seq<Scanned>, ghost x: Message)
    returns (ok: bool)
    requires SchemaOk(s) && TablesOk(s) && forall i | 0 <= i < |fs| :: FieldOk(s, fs[i])
    requires Bounded(fs, ms) && ms != [] && CountOf(fs, ms[0]).Some? && VarintSized(ms[0])
    requires builder.Valid(fs) && builder.Holds(fs, x) && builder.Room(fs, ms)
    modifies builder, builder.counts, builder.ones, builder.elems, builder.unknown
    ensures ok <==> ParseMember(s, fs, x, ms[0]).Some?
    ensures ok ==> builder.SameStorage() && builder.Valid(fs)
                   && builder.Holds(fs, ParseMember(s, fs, x, ms[0]).value) && builder.Room(fs, ms[1..])
    decreases |ms[0].data|, 6
  {
    hide FieldOk, Unpack, ParseValue, ParsePacked, CountPacked;
    var m := ms[0];
    if m.field.None? {
      builder.AddUnknown(fs, Unknown(m.tag, m.wire, m.data), x);
      return true;
    }
    var i := m.field.value;
    if fs[i].rule == Repeated && ReadsPacked(fs[i], m.wire) {
      ok := PushPacked(fs, i, m.data[m.pref..], builder, x);
      if ok { PackedCountsAgree(fs[i].ty, m.data[m.pref..]); }
    } else {
      ok := FillSingle(s, fs, builder, ms, x);
    }
  }

  /** A member that holds one value. */
  method FillSingle(s: Schema, fs: seq<Field>, builder: Builder, ms: seq<Scanned>, ghost x: Message) returns (ok: bool)
    requires SchemaOk(s) && TablesOk(s) && forall i | 0 <= i < |fs| :: FieldOk(s, fs[i])
    requires Bounded(fs, ms) && ms != [] && CountOf(fs, ms[0]).Some? && VarintSized(ms[0])
    requires builder.Valid(fs) && builder.Holds(fs, x) && builder.Room(fs, ms)
    requires ms[0].field.Some?
    requires var f := fs[ms[0].field.value]; !(f.rule == Repeated && ReadsPacked(f, ms[0].wire))
    modifies builder, builder.counts, builder.ones, builder.elems, builder.unknown
    ensures ok <==> ParseMember(s, fs, x, ms[0]).Some?
    ensures ok ==> builder.SameStorage() && builder.Valid(fs)
                   && builder.Holds(fs, ParseMember(s, fs, x, ms[0]).value) && builder.Room(fs, ms[1..])
    decreases |ms[0].data|, 5
  {
    hide Unpack, ParseValue, ParsePacked, CountPacked;
    var m := ms[0];
    var i := m.field.value;
    assert FieldOk(s, fs[i]);
    var v := ReadValue(s, fs[i], m);
    ok := v.Some?;
    if ok {
      if fs[i].rule == Repeated {
        builder.Push(fs, i, v.value, x);
      } else {
        builder.SetOne(s, fs, i, v.value, x);
      }
    }
  }

  lemma {:induction false} ScanSizes(fs: seq<Field>, b: seq<byte>)
    requires Scan(fs, b).Some?
    ensures forall k | 0 <= k < |Scan(fs, b).value| ::
              VarintSized(Scan(fs, b).value[k]) && |Scan(fs, b).value[k].data| < |b|
    decreases |b|
  {
    if b != [] { ScanSizes(fs, b[ScanOne(fs, b).value.1..]); }
  }

  /** The test of the required bitmap. */
  method CheckRequired(fs: seq<Field>, seen: array<bool>, ghost ms: seq<Scanned>) returns (ok: bool)
    requires seen.Length == |fs|
    requires forall i | 0 <= i < |fs| && fs[i].rule == Required ::
               seen[i] <==> exists k | 0 <= k < |ms| :: ms[k].field == Some(i)
    ensures ok <==> RequiredSeen(fs, ms)
  {
    var f := 0;
    while f < |fs|
      invariant 0 <= f <= |fs|
      invariant forall i | 0 <= i < f && fs[i].rule == Required && fs[i].dflt.None? :: seen[i]
    {
      if fs[f].rule == Required && fs[f].dflt.None? && !seen[f] { return false; }
      f := f + 1;
    }
    ok := true;
  }

  /** All the members in order; stops at the first that does not parse. */
  method FillPass(s: Schema, d: Desc, builder: Builder, ms: seq<Scanned>, ghost x0: Message, ghost size: nat)
    returns (ok: bool)
    requires SchemaOk(s) && TablesOk(s) && DescOk(s, d) && Bounded(d.fields, ms) && AllCount(d.fields, ms)
    requires forall k | 0 <= k < |ms| :: VarintSized(ms[k]) && |ms[k].data| < size
    requires builder.Valid(d.fields) && builder.Holds(d.fields, x0) && builder.Room(d.fields, ms)
    modifies builder, builder.counts, builder.ones, builder.elems, builder.unknown
    ensures ok <==> ParseAll(s, d.fields, x0, ms).Some?
    ensures ok ==> builder.Valid(d.fields) && builder.Holds(d.fields, ParseAll(s, d.fields, x0, ms).value)
                   && builder.Room(d.fields, [])
    decreases size, 1
  {
    ghost var x := x0;
    var k := 0;
    assert ms[0..] == ms;
    while k < |ms|
      invariant 0 <= k <= |ms| && builder.SameStorage()
      invariant builder.Valid(d.fields) && builder.Holds(d.fields, x) && builder.Room(d.fields, ms[k..])
      invariant ParseAll(s, d.fields, x0, ms) == ParseAll(s, d.fields, x, ms[k..])
    {
      assert ms[k..][0] == ms[k] && ms[k..][1..] == ms[k + 1..];
      ok := FillMember(s, d.fields, builder, ms[k..], x);
      if !ok { return; }
      x := ParseMember(s, d.fields, x, ms[k]).value;
      k := k + 1;
    }
    assert ms[k..] == [];
    ok := true;
  }

  /** The finished message: every allocated element has been filled. */
  method Finish(d: Desc, desc: nat, builder: Builder, ghost x: Message) returns (r: Message)
    requires builder.Valid(d.fields) && builder.Holds(d.fields, x) && builder.Room(d.fields, []) && x.desc == desc
    ensures r == x
  {
    var slots := [];
    var i := 0;
    while i < |d.fields|
      invariant 0 <= i <= |d.fields| && slots == x.slots[..i]
    {
      if d.fields[i].rule == Repeated {
        assert builder.counts[i] == builder.elems[i].Length;
        assert builder.elems[i][..] == builder.elems[i][..builder.counts[i]];
        assert x.slots[i].Many?;
        slots := slots + [Many(builder.elems[i][..])];
      } else {
        assert x.slots[i].One?;
        slots := slots + [One(builder.ones[i])];
      }
      assert x.slots[..i + 1] == x.slots[..i] + [x.slots[i]];
      i := i + 1;
    }
    r := Message(desc, slots, builder.unknown[..]);
  }

  lemma {:induction false} ParseKeepsDesc(s: Schema, fs: seq<Field>, x: Message, ms: seq<Scanned>)
    requires |x.slots| == |fs| && Bounded(fs, ms) && ParseAll(s, fs, x, ms).Some?
    ensures ParseAll(s, fs, x, ms).value.desc == x.desc
    decreases |ms|
  {
    if ms != [] { ParseKeepsDesc(s, fs, ParseMember(s, fs, x, ms[0]).value, ms[1..]); }
  }

  method MessageUnpack(s: Schema, desc: nat, b: seq<byte>) returns (rv: Option<Message>)
    requires SchemaOk(s) && TablesOk(s) && desc < |s|
    ensures rv == Unpack(s, desc, b)
    decreases |b|, 3
  {
    hide Scan, ScanOne, CountOf, ParseMember, FieldOk, TableOk, InRangeAt, ParseAll, InitialSlots, SlabSize, DescOk,
      RequiredSeen, Initial;
    var d := s[desc];
    var slabs := new SlabList();
    var counts := new nat[|d.fields|](_ => 0);
    var seen := new bool[|d.fields|](_ => false);
    var ok, nUnknown := ScanPass(s, d, b, slabs, counts, seen);
    if !ok { return None; }
    var ms := slabs.members;
    ok := CheckRequired(d.fields, seen, ms);
    if !ok { return None; }
    var builder := new Builder(d.fields, ms, counts, nUnknown, desc);
    ghost var x0 := Message(desc, InitialSlots(d.fields), []);
    ScanSizes(d.fields, b);
    ok := FillPass(s, d, builder, ms, x0, |b|);
    if !ok { return None; }
    ParseKeepsDesc(s, d.fields, x0, ms);
    var r := Finish(d, desc, builder, ParseAll(s, d.fields, x0, ms).value);
    rv := Some(r);
  }
}
