/** What the MQTT readers make of their input, said without the writers. */
module MqttMeaning {
  import opened Bytes
  import opened Base128
  import opened MqttModel
  import opened MqttConnect
  import MqttReader

  // ---------- numbers, strings, lengths ----------

  /** The bit fields of the first byte. */
  lemma FirstByteMeaning(h: byte)
    ensures var i: int := h;
            KindOf(h) == i / 16 && DupOf(h) == i / 8 % 2 && QosOf(h) == i / 2 % 4 && RetainOf(h) == i % 2
  {
  }

  /** The more significant byte first; a string is as long as its two bytes say, if that much is there. */
  lemma StringMeaning(r: seq<byte>)
    ensures |r| < 2 ==> ReadString(r).None?
    ensures |r| >= 2 ==>
              var n := 256 * (r[0] as int) + r[1] as int;
              && ReadU16(r) == n
              && ReadString(r) == if n <= |r| - 2 then Some((r[2..2 + n], r[2 + n..])) else None
  {
  }

  lemma OneGroup(b: seq<byte>, max: nat)
    requires b != [] && max > 0
    ensures TerminatedLength(b, max) ==
            if b[0] < 128 then 1
            else if TerminatedLength(b[1..], max - 1) == 0 then 0 else 1 + TerminatedLength(b[1..], max - 1)
    ensures VarintValue(b) == (b[0] % 128) as int + 128 * VarintValue(b[1..])
  {
  }

  lemma Groups(b: seq<byte>)
    ensures VarintValue([]) == 0
    ensures |b| >= 1 ==> VarintValue(b[..1]) == (b[0] % 128) as int
    ensures |b| >= 2 ==> VarintValue(b[..2]) == (b[0] % 128) as int + 128 * ((b[1] % 128) as int)
    ensures |b| >= 3 ==>
              VarintValue(b[..3]) == (b[0] % 128) as int + 128 * ((b[1] % 128) as int) + 16384 * ((b[2] % 128) as int)
    ensures |b| >= 4 ==>
              VarintValue(b[..4]) == (b[0] % 128) as int + 128 * ((b[1] % 128) as int) + 16384 * ((b[2] % 128) as int)
                                     + 2097152 * ((b[3] % 128) as int)
  {
    hide VarintValue, GroupSum;
    assert VarintValue([]) == 0 by { NoGroups(); }
    if |b| >= 1 { FirstGroups(b, 1); }
    if |b| >= 2 { FirstGroups(b, 2); }
    if |b| >= 3 { FirstGroups(b, 3); }
    if |b| >= 4 { FirstGroups(b, 4); }
  }

  lemma NoGroups()
    ensures VarintValue([]) == 0
  {
  }

  lemma FirstGroups(b: seq<byte>, k: nat)
    requires 1 <= k <= 4 && k <= |b|
    ensures VarintValue(b[..k]) ==
            (b[0] % 128) as int + (if k >= 2 then 128 * ((b[1] % 128) as int) else 0)
            + (if k >= 3 then 16384 * ((b[2] % 128) as int) else 0)
            + (if k >= 4 then 2097152 * ((b[3] % 128) as int) else 0)
  {
    hide VarintValue;
    SumOfGroups(b, 0, k);
    assert b[..k] == b[0..k];
    if k == 4 { assert GroupSum(b, 3, 4) == (b[3] % 128) as int; }
  }

  function GroupSum(b: seq<byte>, i: nat, k: nat): nat
    requires i <= k <= |b|
    decreases k - i
  {
    if i == k then 0 else (b[i] % 128) as int + 128 * GroupSum(b, i + 1, k)
  }

  lemma {:induction false} SumOfGroups(b: seq<byte>, i: nat, k: nat)
    requires i <= k <= |b|
    ensures VarintValue(b[i..k]) == GroupSum(b, i, k)
    decreases k - i
  {
    if i < k {
      assert b[i..k][1..] == b[i + 1..k];
      SumOfGroups(b, i + 1, k);
    }
  }

  /**
   The remaining length: up to four bytes, seven bits each, until one has no high bit; a field that is cut short or goes
   on after four bytes is counted one byte too long.
   */
  lemma LengthMeaning(b: seq<byte>, k: nat)
    requires k <= 4 && k <= |b| && forall i :: 0 <= i < k ==> b[i] >= 128
    ensures k < 4 && k < |b| && b[k] < 128 ==>
              DecodeLength(b).0 == k + 1 && DecodeLength(b).1 == VarintValue(b[..k + 1])
    ensures k == 4 ==> DecodeLength(b).0 == 5 && DecodeLength(b).1 == VarintValue(b[..4])
    ensures k < 4 && k == |b| ==> DecodeLength(b).0 == k + 1 && DecodeLength(b).1 == VarintValue(b)
  {
    var t := TerminatedLength(b, 4);
    assert b[..|b|] == b;
  }

  // ---------- CONNECT ----------

  /** Name and version agree as far as the name goes. */
  predicate Accepted(name: seq<byte>, version: byte)
  {
    || (version == 3 && forall i :: 0 <= i < |name| && i < 6 ==> name[i] == [77, 81, 73, 115, 100, 112][i])
    || (version == 4 && forall i :: 0 <= i < |name| && i < 4 ==> name[i] == [77, 81, 84, 84][i])
  }

  lemma VersionMeaning(name: seq<byte>, version: byte)
    ensures CheckVersion(name, version) <==> Accepted(name, version)
  {
    if version == 3 { PrefixAgrees(name, NAME3); }
    if version == 4 { PrefixAgrees(name, NAME4); }
  }

  lemma PrefixAgrees(name: seq<byte>, expected: seq<byte>)
    ensures NameFits(name, expected) <==> forall i :: 0 <= i < |name| && i < |expected| ==> name[i] == expected[i]
  {
    var n := if |name| < |expected| then |name| else |expected|;
    if NameFits(name, expected) {
      forall i | 0 <= i < |name| && i < |expected| ensures name[i] == expected[i] {
        assert name[..n][i] == expected[..n][i];
      }
    }
  }

  /** What the flags announce, in the order in which it is read; what is left of `r`, or None. */
  function Strings(flags: nat, r: seq<byte>): Option<seq<seq<byte>>>
  {
    match ReadString(r)
    case None => None
    case Some((client, r)) => Announced(flags, 0, [client], r)
  }

  /** Will topic and message by bit 2, user name by bit 7, password by bit 6. */
  function Announced(flags: nat, at: nat, got: seq<seq<byte>>, r: seq<byte>): Option<seq<seq<byte>>>
    decreases 4 - at
  {
    if at >= 4 then Some(got)
    else if at < 2 && flags / 4 % 2 == 0 then Announced(flags, at + 1, got, r)
    else if at == 2 && flags / 128 % 2 == 0 then if flags / 64 % 2 == 1 then None else Some(got)
    else if at == 3 && flags / 64 % 2 == 0 then Some(got)
    else if at >= 2 && |r| < 3 then None
    else match ReadString(r)
      case None => None
      case Some((text, r)) => Announced(flags, at + 1, got + [text], r)
  }

  /** A CONNECT is accepted exactly if type, name and version are right and all the strings announced are there. */
  lemma ConnectMeaning(d: ConnectData, b: seq<byte>, len: nat)
    requires ConnectReadable(b, len)
    ensures (b[0] as int) / 16 != 1 ==> ParseConnect(d, b, len).None?
    ensures (b[0] as int) / 16 == 1 ==>
              var start := 1 + DecodeLength(b[1..]).0;
              if start > len || ReadString(b[start..len]).None? then ParseConnect(d, b, len).None?
              else
                var (name, rest) := ReadString(b[start..len]).value;
                var at := len - |rest|;
                && at < |b|
                && (ParseConnect(d, b, len).Some? <==>
                      && Accepted(name, b[at]) && at + 4 <= len
                      && Strings(b[at + 1], b[at + 4..len]).Some?)
                && (ParseConnect(d, b, len).Some? ==>
                      var o, flags := ParseConnect(d, b, len).value, b[at + 1] as int;
                      && o.clean as int == flags / 2 % 2 && o.keepAlive == 256 * (b[at + 2] as int) + b[at + 3] as int
                      && Strings(flags, b[at + 4..len]).value == TextsOf(o, flags)
                      && o.version == d.version
                      && (o.willFlag != 0 <==> flags / 4 % 2 == 1)
                      && (flags / 4 % 2 == 1 ==>
                            o.will.qos as int == flags / 8 % 4 && o.will.retained as int == flags / 32 % 2)
                      && (flags / 128 % 2 == 0 ==> o.username == d.username)
                      && (flags / 64 % 2 == 0 ==> o.password == d.password))
  {
    hide ReadString, DecodeLength, NameFits, ReadU16, Strings, ParseStrings, TextsOf;
    var start := 1 + DecodeLength(b[1..]).0;
    if (b[0] as int) / 16 == 1 && start <= len && ReadString(b[start..len]).Some? {
      var (name, rest) := ReadString(b[start..len]).value;
      var at := len - |rest|;
      VersionMeaning(name, b[at]);
      if CheckVersion(name, b[at]) && at + 4 <= len {
        var d' := d.(clean := Bit(b[at + 1], 2), keepAlive := ReadU16(b[at + 2..]));
        StringsMeaning(d', b[at + 1], b[at + 4..len]);
        StringMeaning(b[at + 2..]);
      }
    }
  }

  /** The strings of the structure that these flags announce. */
  function TextsOf(o: ConnectData, flags: nat): seq<seq<byte>>
  {
    [Content(o.client)]
    + (if flags / 4 % 2 == 1 then [Content(o.will.topic), Content(o.will.message)] else [])
    + (if flags / 128 % 2 == 1 then [Content(o.username)] else [])
    + (if flags / 128 % 2 == 1 && flags / 64 % 2 == 1 then [Content(o.password)] else [])
  }

  lemma StringsMeaning(d: ConnectData, flags: byte, r: seq<byte>)
    ensures ParseStrings(d, flags, r).Some? <==> Strings(flags, r).Some?
    ensures ParseStrings(d, flags, r).Some? ==>
              var o, f := ParseStrings(d, flags, r).value, flags as int;
              && Strings(f, r).value == TextsOf(o, f) && o.clean == d.clean && o.keepAlive == d.keepAlive
              && o.version == d.version && (o.willFlag != 0 <==> f / 4 % 2 == 1)
              && (f / 4 % 2 == 1 ==> o.will.qos as int == f / 8 % 4 && o.will.retained as int == f / 32 % 2)
              && (f / 128 % 2 == 0 ==> o.username == d.username)
              && (f / 64 % 2 == 0 ==> o.password == d.password)
  {
    hide ReadString;
    assert forall c :: Content(FromWire(c)) == c;
    hide Content;
  }

  // ---------- calls that have to be made again ----------

  function Zeros(plan: seq<int>): nat
  {
    if plan == [] then 0 else (if plan[0] == 0 then 1 else 0) + Zeros(plan[1..])
  }

  function Bytes1(plan: seq<int>): nat
  {
    if plan == [] then 0 else (if plan[0] > 0 then 1 else 0) + Bytes1(plan[1..])
  }

  /** How many of the answers are "call again" until `left` bytes have come, one byte at a time. */
  lemma {:induction false} AgainsMeaning(plan: seq<int>, left: nat, k: nat)
    requires MqttReader.NoFailures(plan) && k <= |plan|
    requires Bytes1(plan[..k]) <= left && (Bytes1(plan[..k]) == left || k == |plan|)
    requires k > 0 && Bytes1(plan[..k]) == left ==> plan[k - 1] > 0
    ensures MqttReader.Agains(plan, left) == Zeros(plan[..k])
    decreases |plan|
  {
    if k > 0 {
      assert plan[..k][1..] == plan[1..][..k - 1];
      if left > 0 {
        AgainsMeaning(plan[1..], if plan[0] > 0 then left - 1 else left, k - 1);
      } else {
        LastCounts(plan[..k]);
      }
    }
  }

  lemma {:induction false} LastCounts(plan: seq<int>)
    requires plan != [] && plan[|plan| - 1] > 0
    ensures Bytes1(plan) > 0
  {
    if |plan| > 1 { LastCounts(plan[1..]); }
  }

  /** The first byte has come with the first answer that is not "call again", unless that is a failure. */
  lemma {:induction false} HeaderMeaning(plan: seq<int>, k: nat)
    requires k <= |plan| && forall i :: 0 <= i < k ==> plan[i] == 0
    ensures k == |plan| ==> MqttReader.AfterHeader(plan) == Some([])
    ensures k < |plan| && plan[k] > 0 ==> MqttReader.AfterHeader(plan) == Some(plan[k + 1..])
    ensures k < |plan| && plan[k] < 0 ==> MqttReader.AfterHeader(plan) == None
    decreases k
  {
    if k > 0 {
      HeaderMeaning(plan[1..], k - 1);
      assert k < |plan| ==> plan[1..][k..] == plan[k + 1..];
    }
  }

  /** The announced length of a CONNECT, by its version. */
  lemma ConnectLengthMeaning(o: ConnectData)
    ensures var strings := StringLength(o.client) + 2
                           + (if o.willFlag == 0 then 0
                              else StringLength(o.will.topic) + StringLength(o.will.message) + 4)
                           + (if Given(o.username) then StringLength(o.username) + 2 else 0)
                           + (if Given(o.password) then StringLength(o.password) + 2 else 0);
            ConnectLength(o) == strings + if o.version == 3 then 12 else if o.version == 4 then 10 else 0
  {
  }
}
