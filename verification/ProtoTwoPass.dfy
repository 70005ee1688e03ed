/** What pass 1 reserves is what pass 2 fills, for every descriptor and every byte string. */
module ProtoTwoPass {
  import opened Bytes
  import opened Base128
  import opened ProtoModel
  import opened ProtoScan
  import opened ProtoParse

  /** The varint that a scan takes off contains exactly one terminator. */
  lemma {:induction false} TerminatorsSkip(b: seq<byte>, max: nat)
    requires TerminatedLength(b, max) > 0
    ensures Terminators(b) == 1 + Terminators(b[TerminatedLength(b, max)..])
  {
    if b[0] >= 128 {
      TerminatorsSkip(b[1..], max - 1);
      assert b[1..][TerminatedLength(b[1..], max - 1)..] == b[TerminatedLength(b, max)..];
    }
  }

  lemma {:induction false} VarintsFill(t: FieldType, b: seq<byte>)
    requires WireOf(t) == VARINT && Varints(t, b).Some?
    ensures |Varints(t, b).value| == Terminators(b)
    decreases |b|
  {
    if b != [] {
      var n := TerminatedLength(b, 10);
      TerminatorsSkip(b, 10);
      VarintsFill(t, b[n..]);
    }
  }

  lemma {:induction false} BoolsFill(b: seq<byte>)
    requires Bools(b).Some?
    ensures |Bools(b).value| == |b|
  {
    if b != [] { BoolsFill(b[1..]); }
  }

  lemma {:induction false} ChunksFill(t: FieldType, b: seq<byte>, k: nat)
    requires (WireOf(t) == BITS32 && k == 4) || (WireOf(t) == BITS64 && k == 8)
    ensures |Chunks(t, b, k)| == |b| / k
    decreases |b|
  {
    if |b| >= k { ChunksFill(t, b[k..], k); }
  }

  /** count_packed_elements predicts what parse_packed_repeated_member stores. */
  lemma PackedCountsAgree(t: FieldType, b: seq<byte>)
    requires ParsePacked(t, b).Some? && CountPacked(t, b).Some?
    ensures |ParsePacked(t, b).value| == CountPacked(t, b).value
  {
    if t == Bool { BoolsFill(b); }
    else if WireOf(t) == VARINT { VarintsFill(t, b); }
    else if WireOf(t) == BITS32 { ChunksFill(t, b, 4); }
    else { ChunksFill(t, b, 8); }
  }

  /** One member adds to its own field what pass 1 reserved for it, and nothing to any other. */
  lemma MemberFills(s: Schema, fs: seq<Field>, x: Message, m: Scanned, i: nat)
    requires SlotKinds(fs, x.slots) && i < |fs|
    requires m.pref <= |m.data| && (m.field.Some? ==> m.field.value < |fs|)
    requires CountOf(fs, m).Some? && ParseMember(s, fs, x, m).Some?
    ensures var y := ParseMember(s, fs, x, m).value;
            && SlotKinds(fs, y.slots)
            && |Elements(y.slots[i])| == |Elements(x.slots[i])| + Share(fs, m, i)
            && |y.unknown| == |x.unknown| + (if m.field.None? then 1 else 0)
  {
    if m.field == Some(i) && fs[i].rule == Repeated && ReadsPacked(fs[i], m.wire) {
      PackedCountsAgree(fs[i].ty, m.data[m.pref..]);
    }
  }

  /** Over all members: on success every reserved element has been filled, and not one more. */
  lemma {:induction false} TwoPassAgreement(s: Schema, fs: seq<Field>, x: Message, ms: seq<Scanned>, i: nat)
    requires SlotKinds(fs, x.slots) && i < |fs| && Bounded(fs, ms) && AllCount(fs, ms)
    requires ParseAll(s, fs, x, ms).Some?
    ensures var y := ParseAll(s, fs, x, ms).value;
            && |Elements(y.slots[i])| == |Elements(x.slots[i])| + Reserved(fs, ms, i)
            && |y.unknown| == |x.unknown| + ReservedUnknown(ms)
    decreases |ms|
  {
    if ms != [] {
      MemberFills(s, fs, x, ms[0], i);
      TwoPassAgreement(s, fs, ParseMember(s, fs, x, ms[0]).value, ms[1..], i);
    }
  }
}
