/** The MQTT 3.1.1 packets that the Paho code writes and reads, as byte strings. */
module MqttModel {
  import opened Bytes
  import opened Base128

  const CONNECT: nat := 1
  const PUBLISH: nat := 3
  const PUBREL: nat := 6
  const SUBSCRIBE: nat := 8
  const SUBACK: nat := 9
  const UNSUBSCRIBE: nat := 10

  const BUFFER_TOO_SHORT: int := -2

  /** What the four-byte remaining length field can hold. */
  const LENGTH_LIMIT: nat := 0x1000_0000

  /** An MQTTString: a C string, a length-delimited one, or both, or neither. */
  datatype MqttString = MqttString(cstring: Option<seq<byte>>, lenstring: Option<seq<byte>>)

  /** MQTTstrlen looks at the C string first. */
  function StringLength(m: MqttString): nat
  {
    if m.cstring.Some? then |m.cstring.value| else if m.lenstring.Some? then |m.lenstring.value| else 0
  }

  /** writeMQTTString looks at the length-delimited one first. */
  function Content(m: MqttString): seq<byte>
  {
    if m.lenstring.Some? && |m.lenstring.value| > 0 then m.lenstring.value
    else if m.cstring.Some? then m.cstring.value
    else []
  }

  /** Both look at the same thing if only one of the two forms carries anything. */
  predicate OneForm(m: MqttString)
  {
    m.cstring.None? || m.lenstring.None? || m.lenstring.value == []
  }

  /** The announced length is the written one exactly if the two forms do not both count and differ in length. */
  lemma LengthMatchesContent(m: MqttString)
    ensures StringLength(m) == |Content(m)| <==>
            OneForm(m) || |m.cstring.value| == |m.lenstring.value|
  {
  }

  function FromWire(d: seq<byte>): MqttString
  {
    MqttString(None, Some(d))
  }

  // ---------- pieces ----------

  /** One byte, as writeChar cuts it out of an int. */
  function Char(c: int): (r: seq<byte>)
    ensures |r| == 1
  {
    [c % 256]
  }

  function U16(n: nat): (r: seq<byte>)
    ensures |r| == 2
  {
    [n / 256 % 256, n % 256]
  }

  function Str16(d: seq<byte>): (r: seq<byte>)
    ensures |r| == 2 + |d|
  {
    U16(|d|) + d
  }

  /** The bit fields of the first byte; values wider than their field are cut off. */
  function Header(kind: int, dup: int, qos: int, retain: int): byte
  {
    kind % 16 * 16 + dup % 2 * 8 + qos % 4 * 2 + retain % 2
  }

  function KindOf(h: byte): nat { var i: int := h; i / 16 }

  function DupOf(h: byte): nat { var i: int := h; i / 8 % 2 }

  function QosOf(h: byte): nat { var i: int := h; i / 2 % 4 }

  function RetainOf(h: byte): nat { var i: int := h; i % 2 }

  lemma HeaderSum(kind: nat, dup: nat, qos: nat, retain: nat)
    requires kind < 16 && dup < 2 && qos < 4 && retain < 2
    ensures Header(kind, dup, qos, retain) as int == kind * 16 + dup * 8 + qos * 2 + retain
  {
  }

  lemma HeaderFields(kind: nat, dup: nat, qos: nat, retain: nat)
    requires kind < 16 && dup < 2 && qos < 4 && retain < 2
    ensures var h := Header(kind, dup, qos, retain);
            KindOf(h) == kind && DupOf(h) == dup && QosOf(h) == qos && RetainOf(h) == retain
  {
    hide Header;
    var h: int := Header(kind, dup, qos, retain);
    HeaderSum(kind, dup, qos, retain);
    Fields(h, kind, dup, qos, retain);
  }

  lemma Fields(h: int, kind: int, dup: int, qos: int, retain: int)
    requires h == kind * 16 + dup * 8 + qos * 2 + retain
    requires 0 <= kind < 16 && 0 <= dup < 2 && 0 <= qos < 4 && 0 <= retain < 2
    ensures h / 16 == kind && h / 8 % 2 == dup && h / 2 % 4 == qos && h % 2 == retain
  {
    assert h / 8 == kind * 2 + dup;
    assert h / 2 == (kind * 2 + dup) * 4 + qos;
  }

  lemma HeaderRebuilt(h: byte)
    ensures h == Header(KindOf(h), DupOf(h), QosOf(h), RetainOf(h))
  {
    hide Header;
    var i: int := h;
    var kind, rest := i / 16, i % 16;
    var dup, low := rest / 8, rest % 8;
    Fields(i, kind, dup, low / 2, low % 2);
    HeaderSum(kind, dup, low / 2, low % 2);
  }

  /** A packet: first byte, remaining length, and that many bytes. */
  function Packet(h: byte, body: seq<byte>): (r: seq<byte>)
    ensures |r| == 1 + |Varint(|body|)| + |body|
  {
    [h] + Varint(|body|) + body
  }

  /** MQTTPacket_len. */
  function PacketLength(remLen: nat): nat
  {
    var n := remLen + 1;
    if n < 128 then n + 1 else if n < 16384 then n + 2 else if n < 2097151 then n + 3 else n + 4
  }

  /**
   The estimate is the size of the packet, except that it is one too many at four lengths, because the header byte
   is counted before the comparison, and one too few from 2^28 on, where the field would need a fifth byte.
   */
  lemma PacketLengthExact(remLen: nat)
    requires remLen < 0x8000_0000
    ensures var size := 1 + |Varint(remLen)| + remLen;
            PacketLength(remLen) ==
              if remLen == 127 || remLen == 16383 || remLen == 2097150 || remLen == 2097151 then size + 1
              else if remLen >= LENGTH_LIMIT then size - 1
              else size
  {
    UInt64SizeIsLength(remLen);
  }

  // ---------- reading ----------

  /**
   What MQTTPacket_decode makes of the bytes that come: its count and the value. The count goes up before every
   byte asked for, so a field that is cut short, or is still going on after four bytes, is counted one too long.
   */
  function DecodeLength(b: seq<byte>): (r: (nat, nat))
  {
    var n := LengthBytes(b);
    (if TerminatedLength(b, 4) > 0 then n else n + 1, VarintValue(b[..n]))
  }

  /** How many bytes that takes from the source. */
  function LengthBytes(b: seq<byte>): (n: nat)
    ensures n <= |b| && n <= 4
  {
    var t := TerminatedLength(b, 4);
    if t > 0 then t else if |b| < 4 then |b| else 4
  }

  /** The buffer holds a whole packet: the remaining length field ends in time, and what it announces is there. */
  predicate Framed(b: seq<byte>)
  {
    && |b| >= 2
    && var t := TerminatedLength(b[1..], 4);
       t > 0 && 1 + t + VarintValue(b[1..][..t]) <= |b|
  }

  function BodyStart(b: seq<byte>): (r: nat)
    requires Framed(b)
    ensures r <= |b|
  {
    1 + TerminatedLength(b[1..], 4)
  }

  function BodyEnd(b: seq<byte>): (r: nat)
    requires Framed(b)
    ensures BodyStart(b) <= r <= |b|
  {
    BodyStart(b) + VarintValue(b[1..][..TerminatedLength(b[1..], 4)])
  }

  function Body(b: seq<byte>): (r: seq<byte>)
    requires Framed(b)
    ensures |r| == BodyEnd(b) - BodyStart(b)
  {
    b[BodyStart(b)..BodyEnd(b)]
  }

  /** A written packet is framed as it was written, whatever comes after it in the buffer. */
  lemma PacketIsFramed(h: byte, body: seq<byte>, rest: seq<byte>)
    requires |body| < LENGTH_LIMIT
    ensures var b := Packet(h, body) + rest;
            Framed(b) && b[0] == h && Body(b) == body && BodyEnd(b) == |Packet(h, body)|
            && BodyStart(b) == 1 + |Varint(|body|)| && b[BodyStart(b)..] == body + rest
  {
    var b, v := Packet(h, body) + rest, Varint(|body|);
    assert b[1..] == v + (body + rest);
    UInt64SizeIsLength(|body|);
    VarintTerminates(|body|, body + rest, 4);
    VarintRoundTrip(|body|);
    assert b[1..][..|v|] == v;
    assert b[1 + |v|..1 + |v| + |body|] == body;
    assert b[1 + |v|..] == body + rest;
  }

  function ReadU16(r: seq<byte>): nat
    requires |r| >= 2
  {
    var hi: int, lo: int := r[0], r[1];
    256 * hi + lo
  }

  lemma U16RoundTrip(n: nat, rest: seq<byte>)
    requires n < 0x1_0000
    ensures ReadU16(U16(n) + rest) == n
  {
  }

  /** readMQTTLenString: the string and what follows it. */
  function ReadString(r: seq<byte>): (s: Option<(seq<byte>, seq<byte>)>)
    ensures s.Some? ==> |s.value.0| + |s.value.1| + 2 == |r|
  {
    if |r| > 1 && ReadU16(r) <= |r| - 2 then Some((r[2..2 + ReadU16(r)], r[2 + ReadU16(r)..])) else None
  }

  lemma StringRoundTrip(d: seq<byte>, rest: seq<byte>)
    requires |d| < 0x1_0000
    ensures ReadString(Str16(d) + rest) == Some((d, rest))
  {
    var r := Str16(d) + rest;
    assert r == U16(|d|) + (d + rest);
    U16RoundTrip(|d|, d + rest);
    assert r[2..2 + |d|] == d && r[2 + |d|..] == rest;
  }

  /** Only what Str16 writes is read as a string. */
  lemma StringReadBack(r: seq<byte>)
    requires ReadString(r).Some?
    ensures var (d, rest) := ReadString(r).value; |d| < 0x1_0000 && r == Str16(d) + rest
  {
    U16ReadBack(r);
    var n := ReadU16(r);
    assert r == r[..2] + r[2..2 + n] + r[2 + n..];
  }

  lemma U16ReadBack(r: seq<byte>)
    requires |r| >= 2
    ensures ReadU16(r) < 0x1_0000 && r[..2] == U16(ReadU16(r))
  {
    var hi: int, lo: int := r[0], r[1];
    assert (256 * hi + lo) / 256 == hi;
  }
}
