/** The loops that the parser reads bytes with, each proved against the function that says what it means. */
module ProtoReaders {
  import opened Bytes
  import opened Base128
  import opened ProtoModel
  import opened ProtoScan
  import opened ProtoParse

  /** scan_varint and its three siblings in the scan: look for a terminator among the first `max` bytes. */
  method FindTerminator(b: seq<byte>, max: nat) returns (r: nat)
    ensures r == TerminatedLength(b, max)
  {
    var n := if |b| < max then |b| else max;
    var i := 0;
    while i < n && b[i] >= 128
      invariant 0 <= i <= n
      invariant forall k | 0 <= k < i :: b[k] >= 128
    {
      i := i + 1;
    }
    TerminatorUnique(b, max, i);
    r := if i == n then 0 else i + 1;
  }

  lemma TerminatorUnique(b: seq<byte>, max: nat, i: nat)
    requires i <= |b| && i <= max && forall k | 0 <= k < i :: b[k] >= 128
    ensures i < |b| && i < max && b[i] < 128 ==> TerminatedLength(b, max) == i + 1
    ensures i == |b| || i == max ==> TerminatedLength(b, max) == 0
  {
    var t := TerminatedLength(b, max);
    if t > 0 && i < t - 1 { assert b[i] >= 128; }
  }

  /** parse_tag_and_wiretype: four bits from the first byte, seven from each of up to four more. */
  method ParseTagAndWiretype(b: seq<byte>) returns (used: nat, tag: nat, wire: nat)
    requires b != []
    ensures used == 0 <==> ParseTag(b).None?
    ensures used > 0 ==> ParseTag(b) == Some(TagInfo(tag, wire, used))
  {
    tag := Low7(b[0]) / 8;
    wire := Low7(b[0]) % 8;
    var scale := 16;
    if b[0] < 128 {
      TerminatorUnique(b, 5, 0);
      FirstTagByte(b);
      return 1, tag, wire;
    }
    used := 1;
    FirstTagByte(b);
    while used < 5 && used < |b|
      invariant 1 <= used <= 5 && used <= |b|
      invariant forall k | 0 <= k < used :: b[k] >= 128
      invariant 8 * scale == Pow128(used) && tag == VarintValue(b[..used]) / 8
    {
      NextTagByte(b, used, scale);
      tag := tag + Low7(b[used]) * scale;
      if b[used] < 128 {
        TerminatorUnique(b, 5, used);
        used := used + 1;
        return;
      }
      scale := scale * 128;
      used := used + 1;
    }
    TerminatorUnique(b, 5, used);
    used := 0;
  }

  lemma FirstTagByte(b: seq<byte>)
    requires b != []
    ensures VarintValue(b[..1]) == Low7(b[0]) && Pow128(1) == 128
  {
    assert b[..1][1..] == [];
  }

  lemma NextTagByte(b: seq<byte>, i: nat, scale: nat)
    requires 1 <= i < |b| && 8 * scale == Pow128(i)
    ensures VarintValue(b[..i + 1]) / 8 == VarintValue(b[..i]) / 8 + Low7(b[i]) * scale
    ensures 8 * (scale * 128) == Pow128(i + 1)
  {
    assert b[..i + 1] == b[..i] + [b[i]];
    VarintValueSnoc(b[..i], b[i]);
    EightTimes(Low7(b[i]), scale);
  }

  lemma EightTimes(x: nat, y: nat)
    ensures x * (8 * y) == 8 * (x * y)
  {
  }

  /** scan_length_prefixed_data; a result of 0 is an error. */
  method ScanLengthPrefixed(b: seq<byte>) returns (total: nat, prefixLen: nat)
    ensures total == 0 <==> PayloadOf(LENGTH_PREFIXED, b).None?
    ensures total > 0 ==> PayloadOf(LENGTH_PREFIXED, b) == Some(PayloadInfo(total, prefixLen))
  {
    var hdrMax := if |b| < 5 then |b| else 5;
    var val, scale, i := 0, 1, 0;
    prefixLen := 0;
    assert b[..0] == [];
    while i < hdrMax
      invariant 0 <= i <= hdrMax
      invariant forall k | 0 <= k < i :: b[k] >= 128
      invariant scale == Pow128(i) && val == VarintValue(b[..i])
    {
      assert b[..i + 1] == b[..i] + [b[i]];
      VarintValueSnoc(b[..i], b[i]);
      val := val + Low7(b[i]) * scale;
      scale := scale * 128;
      if b[i] < 128 { break; }
      i := i + 1;
    }
    TerminatorUnique(b, 5, i);
    if i == hdrMax { return 0, 0; }
    prefixLen := i + 1;
    val := val % TWO32;
    if prefixLen + val > |b| { return 0, prefixLen; }
    total := prefixLen + val;
  }

  /** max_b128_numbers. */
  method CountTerminators(b: seq<byte>) returns (r: nat)
    ensures r == Terminators(b)
  {
    r := 0;
    var i := 0;
    assert b[0..] == b;
    while i < |b|
      invariant 0 <= i <= |b|
      invariant r + Terminators(b[i..]) == Terminators(b)
    {
      assert b[i..][1..] == b[i + 1..];
      if b[i] < 128 { r := r + 1; }
      i := i + 1;
    }
  }

  method CountPackedElements(t: FieldType, b: seq<byte>) returns (r: Option<nat>)
    ensures r == CountPacked(t, b)
  {
    match t
    case SFixed32 | Fixed32 | Float => r := if |b| % 4 != 0 then None else Some(|b| / 4);
    case SFixed64 | Fixed64 | Double => r := if |b| % 8 != 0 then None else Some(|b| / 8);
    case Enum | Int32 | SInt32 | UInt32 | Int64 | SInt64 | UInt64 =>
      var n := CountTerminators(b);
      r := Some(n);
    case Bool => r := Some(|b|);
    case Str | Binary | Msg => r := None;
  }

  /** The varint cases of parse_required_member and of the packed loops. */
  method ReadVarint(t: FieldType, b: seq<byte>) returns (n: int)
    requires WireOf(t) == VARINT && 1 <= |b| <= 10
    ensures n == DecodeVarint(t, b)
  {
    ParseUint32IsLowWord(b);
    if t == UInt32 {
      n := ParseUint32(b);
    } else if t == SInt32 {
      n := Unzigzag32(ParseUint32(b));
    } else if t == Int32 || t == Enum {
      n := Signed32(ParseUint32(b));
    } else if t == Bool {
      var any := ReadBoolean(b);
      n := if any then 1 else 0;
    } else {
      var w := ParseUint64(b);
      if t == Int64 { n := Signed64(w); } else if t == SInt64 { n := Unzigzag64(w); } else { n := w; }
    }
  }

  method ReadBoolean(b: seq<byte>) returns (any: bool)
    ensures any == AnyBit(b)
  {
    var i := 0;
    assert b[0..] == b;
    while i < |b|
      invariant 0 <= i <= |b|
      invariant AnyBit(b[i..]) == AnyBit(b)
    {
      if Low7(b[i]) != 0 { return true; }
      assert b[i..][1..] == b[i + 1..];
      i := i + 1;
    }
    any := false;
  }

  /** The scalar cases of parse_required_member. */
  method ReadScalar(t: FieldType, wire: nat, b: seq<byte>) returns (n: Option<int>)
    requires wire == VARINT ==> 1 <= |b| <= 10
    ensures n == ParseScalar(t, wire, b)
  {
    if t == Bool {
      var any := ReadBoolean(b);
      return Some(if any then 1 else 0);
    }
    if wire != WireOf(t) { return None; }
    if wire == VARINT {
      var v := ReadVarint(t, b);
      n := Some(v);
    } else if (wire == BITS32 && |b| == 4) || (wire == BITS64 && |b| == 8) {
      n := Some(DecodeFixed(t, b));
    } else {
      n := None;
    }
  }
}
