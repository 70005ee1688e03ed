/** NAIS frames: the header writer and reader of nais.c, and marshall and unmarshall of nais.py. */
module NaisFrame {
  import opened Bytes
  import opened Base128

  const RECORD_START: byte := 0x1E
  const RECORD_END: byte := 0x17

  /** Message types. */
  const PROFILE_TYPE: byte := 1
  const CONFIG_TYPE: byte := 2
  const ACK_TYPE: byte := 3
  const SECRET_TYPE: byte := 4
  const COMMAND_TYPE: byte := 5
  const EVENT_TYPE: byte := 6

  /** Offsets into a frame. */
  const SLINE: nat := 2
  const DLINE: nat := 3

  datatype Head = Head(kind: byte, sline: byte, dline: byte, flags: byte)

  function HeadBytes(h: Head, n: nat): seq<byte>
  {
    [h.kind, h.sline, h.dline, h.flags] + Varint(n)
  }

  /** What stands between the delimiters. */
  function Content(h: Head, payload: seq<byte>): seq<byte>
  {
    HeadBytes(h, |payload|) + payload
  }

  function Frame(h: Head, payload: seq<byte>): (f: seq<byte>)
    ensures |f| == 6 + |Varint(|payload|)| + |payload|
  {
    [RECORD_START] + Content(h, payload) + [RECORD_END]
  }

  // ---------- nais.c ----------

  /** The do-while loop of nais_setup_header, from offset 5 on. */
  method PutLength(msgLen: nat, buff: array<byte>) returns (hlen: nat)
    requires 5 + |Varint(msgLen)| <= buff.Length
    modifies buff
    ensures hlen == 5 + |Varint(msgLen)| && buff[..] == Splice(old(buff[..]), 5, Varint(msgLen))
  {
    ghost var was, field := buff[..], Varint(msgLen);
    hlen := 6;
    var at, len := 5, msgLen;
    WrittenStart(was, 5, field);
    while true
      invariant hlen == at + 1 && at >= 5
      invariant Written(was, buff[..], 5, field, at - 5, Varint(len))
      decreases len
    {
      ghost var now, more := buff[..], len >= 128;
      ghost var d: byte := if more then len % 128 + 128 else len;
      WrittenStep(was, now, 5, field, at - 5, [d], if more then Varint(len / 128) else []);
      buff[at] := len % 128;
      len := len / 128;
      if len > 0 {
        hlen := hlen + 1;
        buff[at] := buff[at] + 128;
      }
      assert buff[..] == Splice(now, at, [d]);
      at := at + 1;
      if len == 0 { break; }
    }
    WrittenEnd(was, buff[..], 5, field, at - 5);
  }

  method PutFixed(kind: byte, dline: byte, flags: byte, buff: array<byte>)
    requires 5 <= buff.Length
    modifies buff
    ensures buff[..] == Splice(old(buff[..]), 0, [RECORD_START, kind, 0, dline, flags])
  {
    buff[0], buff[1], buff[2], buff[3], buff[4] := RECORD_START, kind, 0, dline, flags;
  }

  /** The header, and the end delimiter behind the room left for `msgLen` bytes of payload. */
  method SetupHeader(kind: byte, dline: byte, flags: byte, msgLen: nat, buff: array<byte>) returns (hlen: nat)
    requires 6 + |Varint(msgLen)| + msgLen <= buff.Length
    modifies buff
    ensures hlen == 5 + |Varint(msgLen)|
    ensures var head := [RECORD_START] + HeadBytes(Head(kind, 0, dline, flags), msgLen);
            buff[..] == Splice(Splice(old(buff[..]), 0, head), hlen + msgLen, [RECORD_END])
  {
    hide Varint, Splice;
    ghost var was, front: seq<byte> := buff[..], [RECORD_START, kind, 0, dline, flags];
    PutFixed(kind, dline, flags, buff);
    hlen := PutLength(msgLen, buff);
    SpliceAppend(was, 0, front, Varint(msgLen));
    assert front + Varint(msgLen) == [RECORD_START] + HeadBytes(Head(kind, 0, dline, flags), msgLen);
    ghost var headed := buff[..];
    EndInPlace(headed, hlen + msgLen);
    buff[msgLen + hlen] := RECORD_END;
  }

  lemma EndInPlace(s: seq<byte>, at: nat)
    requires at < |s|
    ensures s[at := RECORD_END] == Splice(s, at, [RECORD_END])
  {
  }

  lemma SplicesCommute(s: seq<byte>, at: nat, a: seq<byte>, later: nat, b: seq<byte>)
    requires at + |a| <= later && later + |b| <= |s|
    ensures Splice(Splice(s, later, b), at, a) == Splice(Splice(s, at, a), later, b)
  {
    assert Splice(s, later, b) == s[..at] + s[at..at + |a|] + (s[at + |a|..later] + b + s[later + |b|..]);
    assert Splice(s, at, a) == s[..at] + a + s[at + |a|..later] + s[later..later + |b|] + s[later + |b|..];
  }

  /** Once the payload is in its place, the frame is complete. */
  lemma PayloadCompletesFrame(was: seq<byte>, h: Head, payload: seq<byte>)
    requires |Frame(h, payload)| <= |was|
    ensures var hlen := 5 + |Varint(|payload|)|;
            var headed := Splice(was, 0, [RECORD_START] + HeadBytes(h, |payload|));
            Splice(Splice(headed, hlen + |payload|, [RECORD_END]), hlen, payload) == Splice(was, 0, Frame(h, payload))
  {
    hide Varint, Splice;
    var hlen := 5 + |Varint(|payload|)|;
    var front := [RECORD_START] + HeadBytes(h, |payload|);
    SplicesCommute(Splice(was, 0, front), hlen, payload, hlen + |payload|, [RECORD_END]);
    SpliceAppend(was, 0, front, payload);
    SpliceAppend(was, 0, front + payload, [RECORD_END]);
    assert Frame(h, payload) == front + payload + [RECORD_END];
  }

  /** What nais_unmarshall can read: its four fixed bytes, and a length field that fits an int. */
  predicate HeaderThere(data: seq<byte>)
  {
    |data| >= 5 && TerminatedLength(data[4..], 4) > 0
  }

  /** The start of the payload, and its announced length. */
  function PayloadAt(data: seq<byte>): (nat, nat)
    requires HeaderThere(data)
  {
    var t := TerminatedLength(data[4..], 4);
    (4 + t, VarintValue(data[4..][..t]))
  }

  /** The header part of nais_unmarshall: the destination of a reply is the line the packet came from. */
  method ReadHeader(data: seq<byte>) returns (kind: byte, dline: byte, flags: byte, len: nat, cptr: nat)
    requires HeaderThere(data)
    ensures kind == data[0] && dline == data[1] && flags == data[3]
    ensures (cptr, len) == PayloadAt(data)
  {
    kind, dline, flags := data[0], data[1], data[3];
    cptr, len := 3, 0;
    var multiplier: nat := 1;
    ghost var b, t := data[4..], TerminatedLength(data[4..], 4);
    while true
      invariant 3 <= cptr < 3 + t
      invariant multiplier == Pow128(cptr - 3) && len == VarintValue(b[..cptr - 3])
      decreases t + 3 - cptr
    {
      cptr := cptr + 1;
      VarintValueSnoc(b[..cptr - 4], b[cptr - 4]);
      assert b[..cptr - 3] == b[..cptr - 4] + [b[cptr - 4]];
      len := len + Low7(data[cptr]) * multiplier;
      multiplier := multiplier * 128;
      if data[cptr] < 128 { break; }
    }
    cptr := cptr + 1;
  }

  /** The reader finds what the writer put in, with the lines exchanged, whatever follows in the buffer. */
  lemma HeaderRoundTrip(h: Head, payload: seq<byte>, rest: seq<byte>)
    requires |payload| < 0x1000_0000
    ensures var data := Content(h, payload) + rest;
            && HeaderThere(data)
            && data[0] == h.kind && data[1] == h.sline && data[3] == h.flags
            && PayloadAt(data).1 == |payload|
            && PayloadAt(data).0 + |payload| <= |data|
            && data[PayloadAt(data).0..][..|payload|] == payload
  {
    var data, v := Content(h, payload) + rest, Varint(|payload|);
    assert data[4..] == v + (payload + rest);
    UInt64SizeIsLength(|payload|);
    VarintTerminates(|payload|, payload + rest, 4);
    VarintRoundTrip(|payload|);
    assert data[4..][..|v|] == v;
    assert data[4 + |v|..] == payload + rest;
  }

  // ---------- nais.py ----------

  /** The length field as the loop in marshall writes it: none at all for an empty payload. */
  function PyLength(n: nat): seq<byte>
  {
    if n == 0 then [] else Varint(n)
  }

  lemma PyLengthStep(n: nat)
    requires n > 0
    ensures PyLength(n) == [if n / 128 > 0 then 128 + n % 128 else n] + PyLength(n / 128)
  {
  }

  method Marshall(kind: byte, dline: byte, payload: seq<byte>) returns (packet: seq<byte>)
    ensures packet == [RECORD_START, kind, 0, dline, 0] + PyLength(|payload|) + payload + [RECORD_END]
  {
    packet := [RECORD_START, kind, 0, dline, 0];
    ghost var front := packet;
    var n: int := |payload|;
    while n > 0
      invariant n >= 0 && packet + PyLength(n) == front + PyLength(|payload|)
    {
      hide PyLength;
      PyLengthStep(n);
      ghost var d: byte := if n / 128 > 0 then 128 + n % 128 else n;
      ConcatAssociates(packet, [d], PyLength(n / 128));
      if n / 128 > 0 {
        packet := packet + [128 + n % 128];
      } else {
        packet := packet + [n];
      }
      n := n / 128;
    }
    assert packet + PyLength(n) == packet;
    packet := packet + payload;
    packet := packet + [RECORD_END];
  }

  /** The two writers agree exactly on payloads that are not empty. */
  lemma PythonWritesWhatCWrites(kind: byte, dline: byte, payload: seq<byte>)
    ensures [RECORD_START, kind, 0, dline, 0] + PyLength(|payload|) + payload + [RECORD_END]
            == Frame(Head(kind, 0, dline, 0), payload)
            <==> payload != []
  {
    var py := [RECORD_START, kind, 0, dline, 0] + PyLength(|payload|) + payload + [RECORD_END];
    if payload == [] {
      assert |py| == 6;
    } else {
      var head := HeadBytes(Head(kind, 0, dline, 0), |payload|);
      assert [RECORD_START] + head == [RECORD_START, kind, 0, dline, 0] + Varint(|payload|);
    }
  }

  predicate IsProtobuf(pkt: seq<byte>)
  {
    |pkt| > 0 && pkt[0] == RECORD_START
  }

  /** The framing part of unmarshall; without a last length byte the source raises an index error. */
  method Unmarshall(packet: seq<byte>) returns (kind: byte, payload: seq<byte>)
    requires |packet| > 5 && TerminatedLength(packet[5..], |packet|) > 0
    ensures var hlen := 5 + TerminatedLength(packet[5..], |packet|);
            kind == packet[1] && payload == if hlen <= |packet| - 1 then packet[hlen..|packet| - 1] else []
  {
    var hlen := 6;
    kind := packet[1];
    var i := 5;
    ghost var b, t := packet[5..], TerminatedLength(packet[5..], |packet|);
    while packet[i] >= 128
      invariant 5 <= i < 5 + t && hlen == i + 1
      decreases 5 + t - i
    {
      assert b[i - 5] == packet[i];
      i := i + 1;
      hlen := hlen + 1;
    }
    assert b[i - 5] == packet[i];
    payload := if hlen <= |packet| - 1 then packet[hlen..|packet| - 1] else [];
  }

  lemma UnmarshallRoundTrip(h: Head, payload: seq<byte>)
    ensures var p := Frame(h, payload);
            && |p| > 5 && TerminatedLength(p[5..], |p|) > 0 && p[1] == h.kind
            && 5 + TerminatedLength(p[5..], |p|) <= |p| - 1
            && p[5 + TerminatedLength(p[5..], |p|)..|p| - 1] == payload
  {
    var p, v := Frame(h, payload), Varint(|payload|);
    assert p[5..] == v + (payload + [RECORD_END]);
    VarintTerminates(|payload|, payload + [RECORD_END], |p|);
    assert p[5 + |v|..|p| - 1] == payload;
  }
}
