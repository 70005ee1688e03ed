/** The helpers of MQTTPacket.c that every packet writer and reader is made of. */
module MqttPacket {
  import opened Bytes
  import opened Base128
  import opened MqttModel

  // ---------- writers ----------

  method WriteChar(buf: array<byte>, at: nat, c: int) returns (next: nat)
    requires at < buf.Length
    modifies buf
    ensures next == at + 1 && buf[..] == Splice(old(buf[..]), at, Char(c))
  {
    buf[at] := c % 256;
    next := at + 1;
  }

  method WriteInt(buf: array<byte>, at: nat, n: nat) returns (next: nat)
    requires at + 2 <= buf.Length
    modifies buf
    ensures next == at + 2 && buf[..] == Splice(old(buf[..]), at, U16(n))
  {
    ghost var was := buf[..];
    next := WriteChar(buf, at, n / 256);
    next := WriteChar(buf, next, n % 256);
    SpliceAppend(was, at, Char(n / 256), Char(n % 256));
  }

  method WriteBytes(buf: array<byte>, at: nat, d: seq<byte>) returns (next: nat)
    requires at + 2 + |d| <= buf.Length
    modifies buf
    ensures next == at + 2 + |d| && buf[..] == Splice(old(buf[..]), at, Str16(d))
  {
    ghost var was := buf[..];
    next := WriteInt(buf, at, |d|);
    CopyIn(d, buf, next);
    SpliceAppend(was, at, U16(|d|), d);
    next := next + |d|;
  }

  method WriteString(buf: array<byte>, at: nat, m: MqttString) returns (next: nat)
    requires at + 2 + |Content(m)| <= buf.Length
    modifies buf
    ensures next == at + 2 + |Content(m)| && buf[..] == Splice(old(buf[..]), at, Str16(Content(m)))
  {
    if m.lenstring.Some? && |m.lenstring.value| > 0 {
      next := WriteBytes(buf, at, m.lenstring.value);
    } else if m.cstring.Some? {
      next := WriteBytes(buf, at, m.cstring.value);
    } else {
      next := WriteInt(buf, at, 0);
      assert Str16([]) == U16(0);
    }
  }

  lemma LengthByte(n: nat)
    ensures Varint(n) == Char(n % 128 + if n / 128 > 0 then 128 else 0) + if n / 128 > 0 then Varint(n / 128) else []
    ensures n / 128 > 0 ==> n / 128 < n
  {
  }

  method EncodeLength(buf: array<byte>, at: nat, length: nat) returns (rc: nat)
    requires at + |Varint(length)| <= buf.Length
    modifies buf
    ensures rc == |Varint(length)| && buf[..] == Splice(old(buf[..]), at, Varint(length))
  {
    hide Written, Splice, Varint, Char;
    ghost var was, all := buf[..], Varint(length);
    WrittenStart(was, at, all);
    var left: nat := length;
    rc := 0;
    while true
      invariant Written(was, buf[..], at, all, rc, Varint(left))
      decreases left
    {
      LengthByte(left);
      ghost var rest := if left / 128 > 0 then Varint(left / 128) else [];
      var d := left % 128;
      left := left / 128;
      if left > 0 { d := d + 128; }
      WrittenStep(was, buf[..], at, all, rc, Char(d), rest);
      var _ := WriteChar(buf, at + rc, d);
      rc := rc + 1;
      if left == 0 { break; }
    }
    WrittenEnd(was, buf[..], at, all, rc);
  }

  // ---------- writing a packet piece by piece ----------

  method PutChar(buf: array<byte>, at: nat, c: int, ghost was: seq<byte>, ghost all: seq<byte>, ghost rest: seq<byte>)
    returns (next: nat)
    requires Written(was, buf[..], 0, all, at, Char(c) + rest)
    modifies buf
    ensures Written(was, buf[..], 0, all, next, rest)
  {
    WrittenStep(was, buf[..], 0, all, at, Char(c), rest);
    next := WriteChar(buf, at, c);
  }

  method PutInt(buf: array<byte>, at: nat, n: nat, ghost was: seq<byte>, ghost all: seq<byte>, ghost rest: seq<byte>)
    returns (next: nat)
    requires Written(was, buf[..], 0, all, at, U16(n) + rest)
    modifies buf
    ensures Written(was, buf[..], 0, all, next, rest)
  {
    WrittenStep(was, buf[..], 0, all, at, U16(n), rest);
    next := WriteInt(buf, at, n);
  }

  method PutString(buf: array<byte>, at: nat, m: MqttString, ghost was: seq<byte>, ghost all: seq<byte>,
                   ghost rest: seq<byte>) returns (next: nat)
    requires Written(was, buf[..], 0, all, at, Str16(Content(m)) + rest)
    modifies buf
    ensures Written(was, buf[..], 0, all, next, rest)
  {
    hide Content;
    WrittenStep(was, buf[..], 0, all, at, Str16(Content(m)), rest);
    next := WriteString(buf, at, m);
  }

  method PutBytes(buf: array<byte>, at: nat, d: seq<byte>, ghost was: seq<byte>, ghost all: seq<byte>)
    returns (next: nat)
    requires Written(was, buf[..], 0, all, at, d)
    modifies buf
    ensures next == |all| && buf[..] == Splice(was, 0, all)
  {
    assert d == d + [];
    WrittenStep(was, buf[..], 0, all, at, d, []);
    CopyIn(d, buf, at);
    next := at + |d|;
    WrittenEnd(was, buf[..], 0, all, next);
  }

  /** The first byte and the remaining length field, as every serializer starts. */
  method PutFixedHeader(buf: array<byte>, h: byte, remLen: nat, ghost body: seq<byte>) returns (next: nat)
    requires |body| == remLen && |Packet(h, body)| <= buf.Length
    modifies buf
    ensures Written(old(buf[..]), buf[..], 0, Packet(h, body), next, body)
  {
    ghost var was, all := buf[..], Packet(h, body);
    WrittenStart(was, 0, all);
    assert all == Char(h) + (Varint(remLen) + body);
    next := PutChar(buf, 0, h, was, all, Varint(remLen) + body);
    WrittenStep(was, buf[..], 0, all, next, Varint(remLen), body);
    var n := EncodeLength(buf, next, remLen);
    next := next + n;
  }

  // ---------- a source of bytes ----------

  function Smaller(a: int, b: int): int { if a < b then a else b }

  /** What a source answers to a request for `n` bytes: an error, "call again" (0), or how many it hands over. */
  function Granted(plan: seq<int>, n: nat, available: nat): (r: int)
    ensures -1 <= r <= n && r <= available
  {
    if plan == [] then Smaller(n, available)
    else if plan[0] < 0 then -1
    else Smaller(plan[0], Smaller(n, available))
  }

  /**
   The callback that the readers fetch their bytes with. `plan` limits the answers to come, one by one;
   when it is used up, every request is answered with all there is.
   */
  class Feed {
    const data: seq<byte>
    var pos: nat
    var plan: seq<int>

    constructor (data: seq<byte>, plan: seq<int>)
      ensures this.data == data && this.plan == plan && pos == 0
    {
      this.data := data;
      this.plan := plan;
      pos := 0;
    }

    ghost predicate Valid()
      reads this
    {
      pos <= |data|
    }

    ghost function Rest(): seq<byte>
      requires Valid()
      reads this
    {
      data[pos..]
    }

    method Get(n: nat) returns (rc: int, got: seq<byte>)
      requires Valid()
      modifies this
      ensures Valid()
      ensures rc == Granted(old(plan), n, |old(Rest())|)
      ensures plan == if old(plan) == [] then [] else old(plan)[1..]
      ensures got == if rc < 0 then [] else old(Rest())[..rc]
      ensures Rest() == old(Rest())[|got|..]
    {
      rc := Smaller(n, |data| - pos);
      if plan != [] {
        rc := if plan[0] < 0 then -1 else Smaller(plan[0], rc);
        plan := plan[1..];
      }
      got := [];
      if rc > 0 {
        got := data[pos..pos + rc];
        pos := pos + rc;
      }
    }
  }

  // ---------- readers ----------

  /** One more group of a length field that has not ended. */
  lemma {:induction false} DecodeMore(b: seq<byte>, n: nat)
    requires n < |b| && n < 4 && forall i :: 0 <= i < n ==> b[i] >= 128
    ensures b[n] < 128 ==> TerminatedLength(b, 4) == n + 1
    ensures VarintValue(b[..n + 1]) == VarintValue(b[..n]) + Low7(b[n]) * Pow128(n)
  {
    VarintValueSnoc(b[..n], b[n]);
    assert b[..n + 1] == b[..n] + [b[n]];
  }

  lemma DecodeUnended(b: seq<byte>, n: nat)
    requires n <= |b| && n <= 4 && (n == 4 || n == |b|) && forall i :: 0 <= i < n ==> b[i] >= 128
    ensures DecodeLength(b) == (n + 1, VarintValue(b[..n])) && LengthBytes(b) == n
  {
  }

  method Decode(src: Feed) returns (len: nat, value: nat)
    requires src.Valid() && src.plan == []
    modifies src
    ensures src.Valid() && src.plan == []
    ensures (len, value) == DecodeLength(old(src.Rest()))
    ensures src.Rest() == old(src.Rest())[LengthBytes(old(src.Rest()))..]
  {
    ghost var b := src.Rest();
    var multiplier: nat := 1;
    len, value := 0, 0;
    while true
      invariant src.Valid() && src.plan == []
      invariant len <= 4 && len <= |b| && src.Rest() == b[len..]
      invariant multiplier == Pow128(len) && value == VarintValue(b[..len])
      invariant forall i :: 0 <= i < len ==> b[i] >= 128
      decreases 4 - len
    {
      len := len + 1;
      if len > 4 {
        DecodeUnended(b, 4);
        return;
      }
      var rc, c := src.Get(1);
      if rc != 1 {
        DecodeUnended(b, len - 1);
        return;
      }
      DecodeMore(b, len - 1);
      value := value + Low7(c[0]) * multiplier;
      multiplier := multiplier * 128;
      if c[0] < 128 { return; }
    }
  }

  method DecodeBuf(b: seq<byte>, at: nat) returns (len: nat, value: nat)
    requires at <= |b|
    ensures (len, value) == DecodeLength(b[at..])
  {
    var src := new Feed(b[at..], []);
    len, value := Decode(src);
  }

  method ReadInt(b: seq<byte>, at: nat) returns (n: nat, next: nat)
    requires at + 2 <= |b|
    ensures n == ReadU16(b[at..]) && next == at + 2
  {
    var hi: int, lo: int := b[at], b[at + 1];
    n := 256 * hi + lo;
    next := at + 2;
  }

  /** On failure the cursor is past the length, if there was room for one. */
  method ReadLenString(b: seq<byte>, at: nat, end: nat) returns (ok: bool, m: MqttString, next: nat)
    requires end <= |b|
    ensures ok <==> at <= end && ReadString(b[at..end]).Some?
    ensures ok ==> var (d, rest) := ReadString(b[at..end]).value;
                   m == FromWire(d) && next == end - |rest| && b[next..end] == rest
    ensures at <= end ==> at <= next <= end
  {
    ok, m, next := false, MqttString(None, None), at;
    if end - at > 1 {
      ghost var r := b[at..end];
      var len;
      len, next := ReadInt(b, at);
      assert len == ReadU16(r);
      if next + len <= end {
        m := FromWire(b[next..next + len]);
        SliceOfSlice(b, at, end, 2, 2 + len);
        SliceOfSlice(b, at, end, 2 + len, end - at);
        next := next + len;
        ok := true;
      }
    }
  }
}
