/** MQTTSubscribeClient.c and MQTTSubscribeServer.c: SUBSCRIBE and SUBACK. */
module MqttSubscribe {
  import opened Bytes
  import opened MqttModel
  import opened MqttPacket

  function Contents(topics: seq<MqttString>): (r: seq<seq<byte>>)
    ensures |r| == |topics|
  {
    seq(|topics|, i requires 0 <= i < |topics| => Content(topics[i]))
  }

  /** A list of topic filters, each with its requested QoS. */
  function Filters(topics: seq<seq<byte>>, qoss: seq<int>): seq<byte>
    requires |topics| == |qoss|
  {
    if topics == [] then []
    else Str16(topics[0]) + (Char(qoss[0]) + Filters(topics[1..], qoss[1..]))
  }

  function SubscribeBody(id: nat, topics: seq<seq<byte>>, qoss: seq<int>): seq<byte>
    requires |topics| == |qoss|
  {
    U16(id) + Filters(topics, qoss)
  }

  function SubscribePacket(dup: int, id: nat, topics: seq<seq<byte>>, qoss: seq<int>): seq<byte>
    requires |topics| == |qoss|
  {
    Packet(Header(SUBSCRIBE, dup, 1, 0), SubscribeBody(id, topics, qoss))
  }

  predicate AllConsistent(topics: seq<MqttString>)
  {
    forall i :: 0 <= i < |topics| ==> StringLength(topics[i]) == |Content(topics[i])|
  }

  // ---------- writing ----------

  method SubscribeLength(topics: seq<MqttString>, ghost qoss: seq<int>) returns (len: nat)
    requires |topics| == |qoss| && AllConsistent(topics)
    ensures len == 2 + |Filters(Contents(topics), qoss)|
  {
    len := 2;
    ghost var c := Contents(topics);
    for i := 0 to |topics|
      invariant len + |Filters(c[i..], qoss[i..])| == 2 + |Filters(c, qoss)|
    {
      len := len + 2 + StringLength(topics[i]) + 1;
      assert c[i..][1..] == c[i + 1..] && qoss[i..][1..] == qoss[i + 1..];
    }
  }

  method SerializeSubscribe(buf: array<byte>, buflen: nat, dup: byte, packetid: nat, topics: seq<MqttString>,
                            qoss: seq<int>) returns (rc: int)
    requires buflen <= buf.Length && packetid < 0x1_0000
    requires |topics| == |qoss| && AllConsistent(topics)
    requires |SubscribeBody(packetid, Contents(topics), qoss)| < LENGTH_LIMIT
    modifies buf
    ensures var p := SubscribePacket(dup, packetid, Contents(topics), qoss);
            if PacketLength(|SubscribeBody(packetid, Contents(topics), qoss)|) > buflen then
              rc == -2 && buf[..] == old(buf[..])
            else
              rc == |p| && |p| <= buflen && buf[..] == Splice(old(buf[..]), 0, p)
  {
    hide Header, Content, Written, Splice;
    var remLen := SubscribeLength(topics, qoss);
    if PacketLength(remLen) > buflen {
      return BUFFER_TOO_SHORT;
    }
    PacketLengthExact(remLen);
    var h := Header(SUBSCRIBE, dup, 1, 0);
    ghost var was, c := buf[..], Contents(topics);
    ghost var p := Packet(h, SubscribeBody(packetid, c, qoss));
    var at := PutFixedHeader(buf, h, remLen, SubscribeBody(packetid, c, qoss));
    at := PutInt(buf, at, packetid, was, p, Filters(c, qoss));
    for i := 0 to |topics|
      invariant Written(was, buf[..], 0, p, at, Filters(c[i..], qoss[i..]))
    {
      assert c[i..][1..] == c[i + 1..] && qoss[i..][1..] == qoss[i + 1..];
      ghost var rest := Filters(c[i + 1..], qoss[i + 1..]);
      at := PutString(buf, at, topics[i], was, p, Char(qoss[i]) + rest);
      at := PutChar(buf, at, qoss[i], was, p, rest);
    }
    WrittenEnd(was, buf[..], 0, p, at);
    rc := at;
  }

  // ---------- reading ----------

  datatype Subscriptions = Subscriptions(topics: seq<seq<byte>>, qoss: seq<int>, ok: bool)

  /** The filters up to the end, or up to the first that is cut off. */
  function ReadFilters(r: seq<byte>): (l: Subscriptions)
    ensures |l.topics| == |l.qoss|
  {
    if r == [] then Subscriptions([], [], true)
    else match ReadString(r)
      case None => Subscriptions([], [], false)
      case Some((topic, rest)) =>
        if rest == [] then Subscriptions([], [], false)
        else
          var l := ReadFilters(rest[1..]);
          Subscriptions([topic] + l.topics, [rest[0]] + l.qoss, l.ok)
  }

  /** What follows the packet id; nothing at all if the packet ends inside its id. */
  function AfterId(body: seq<byte>): seq<byte>
  {
    if |body| < 2 then [] else body[2..]
  }

  /** The output arrays must take what is read, and the filter on which reading fails. */
  predicate RoomFor(l: Subscriptions, room: nat)
  {
    |l.topics| + (if l.ok then 0 else 1) <= room
  }

  /** One round of the loop: what is left of `all` after `count` filters is what the rest `r` holds. */
  lemma FilterStep(all: Subscriptions, count: nat, r: seq<byte>)
    requires |all.topics| == |all.qoss| && count <= |all.topics| && r != []
    requires ReadFilters(r) == Subscriptions(all.topics[count..], all.qoss[count..], all.ok)
    ensures if ReadString(r).None? || ReadString(r).value.1 == [] then count == |all.topics| && !all.ok
            else
              var (topic, rest) := ReadString(r).value;
              && count < |all.topics| && all.topics[count] == topic && all.qoss[count] == rest[0]
              && ReadFilters(rest[1..]) == Subscriptions(all.topics[count + 1..], all.qoss[count + 1..], all.ok)
  {
    hide ReadString;
    if ReadString(r).Some? && ReadString(r).value.1 != [] {
      var l := ReadFilters(ReadString(r).value.1[1..]);
      assert all.topics[count..] == [ReadString(r).value.0] + l.topics;
      assert all.topics[count..][1..] == all.topics[count + 1..] && all.qoss[count..][1..] == all.qoss[count + 1..];
    }
  }

  lemma EmptyFilters(r: seq<byte>)
    requires r == []
    ensures ReadFilters(r) == Subscriptions([], [], true)
  {
  }

  method ReadFilterLoop(b: seq<byte>, at: nat, end: nat, topics: array<MqttString>, qoss: array<int>)
    returns (ok: bool, count: nat)
    requires at <= end <= |b|
    requires RoomFor(ReadFilters(b[at..end]), topics.Length) && RoomFor(ReadFilters(b[at..end]), qoss.Length)
    modifies topics, qoss
    ensures var l := ReadFilters(b[at..end]);
            && ok == l.ok && count == |l.topics|
            && (forall i :: 0 <= i < count ==> topics[i] == FromWire(l.topics[i]) && qoss[i] == l.qoss[i])
            && (forall i :: count < i < topics.Length ==> topics[i] == old(topics[i]))
            && (forall i :: count <= i < qoss.Length ==> qoss[i] == old(qoss[i]))
  {
    hide ReadFilters, ReadString;
    ghost var l := ReadFilters(b[at..end]);
    var cur := at;
    count := 0;
    assert l.topics[0..] == l.topics && l.qoss[0..] == l.qoss;
    while cur < end
      invariant cur <= end && count <= |l.topics|
      invariant ReadFilters(b[cur..end]) == Subscriptions(l.topics[count..], l.qoss[count..], l.ok)
      invariant forall i :: 0 <= i < count ==> topics[i] == FromWire(l.topics[i]) && qoss[i] == l.qoss[i]
      invariant forall i :: count <= i < topics.Length ==> topics[i] == old(topics[i])
      invariant forall i :: count <= i < qoss.Length ==> qoss[i] == old(qoss[i])
      decreases end - cur
    {
      ghost var r := b[cur..end];
      FilterStep(l, count, r);
      var good, m, next := ReadLenString(b, cur, end);
      topics[count] := m;
      if !good || next >= end {
        return false, count;
      }
      ghost var rest := ReadString(r).value.1;
      assert rest == b[next..end] && rest[1..] == b[next + 1..end];
      qoss[count] := b[next];
      cur := next + 1;
      count := count + 1;
    }
    EmptyFilters(b[cur..end]);
    ok := true;
  }

  /** The packet id is fetched without a check; the buffer must reach that far. */
  method DeserializeSubscribe(b: seq<byte>, topics: array<MqttString>, qoss: array<int>)
    returns (rc: int, dup: nat, packetid: nat, count: nat)
    requires Framed(b) && BodyStart(b) + 2 <= |b|
    requires var l := ReadFilters(AfterId(Body(b))); RoomFor(l, topics.Length) && RoomFor(l, qoss.Length)
    modifies topics, qoss
    ensures var l := ReadFilters(AfterId(Body(b)));
            if KindOf(b[0]) != SUBSCRIBE then
              rc == -1 && topics[..] == old(topics[..]) && qoss[..] == old(qoss[..])
            else
              && rc == (if l.ok then 1 else BodyStart(b) - 1)
              && dup == DupOf(b[0]) && packetid == ReadU16(b[BodyStart(b)..]) && count == |l.topics|
              && (forall i :: 0 <= i < count ==> topics[i] == FromWire(l.topics[i]) && qoss[i] == l.qoss[i])
              && (forall i :: count < i < topics.Length ==> topics[i] == old(topics[i]))
              && (forall i :: count <= i < qoss.Length ==> qoss[i] == old(qoss[i]))
  {
    rc, dup, packetid, count := -1, 0, 0, 0;
    if KindOf(b[0]) != SUBSCRIBE {
      return;
    }
    dup := DupOf(b[0]);
    var n, mylen := DecodeBuf(b, 1);
    rc := n;
    var cur, end := 1 + n, 1 + n + mylen;
    assert cur == BodyStart(b) && end == BodyEnd(b);
    packetid, cur := ReadInt(b, cur);
    if cur <= end {
      SliceOfSlice(b, 1 + n, end, 2, mylen);
      assert b[cur..end] == AfterId(Body(b));
      var ok;
      ok, count := ReadFilterLoop(b, cur, end, topics, qoss);
      if !ok { return; }
    }
    rc := 1;
  }

  // ---------- the round trip ----------

  predicate TopicsOk(topics: seq<seq<byte>>)
  {
    forall i :: 0 <= i < |topics| ==> |topics[i]| < 0x1_0000
  }

  predicate QossOk(qoss: seq<int>)
  {
    forall i :: 0 <= i < |qoss| ==> 0 <= qoss[i] < 256
  }

  lemma {:induction false} FiltersRoundTrip(topics: seq<seq<byte>>, qoss: seq<int>)
    requires |topics| == |qoss| && TopicsOk(topics) && QossOk(qoss)
    ensures ReadFilters(Filters(topics, qoss)) == Subscriptions(topics, qoss, true)
  {
    hide ReadFilters, Str16;
    if topics == [] {
      EmptyFilters([]);
    } else {
      FiltersRoundTrip(topics[1..], qoss[1..]);
      FilterOnTop(topics[0], qoss[0], Filters(topics[1..], qoss[1..]));
      assert [topics[0]] + topics[1..] == topics && [qoss[0]] + qoss[1..] == qoss;
    }
  }

  lemma FilterOnTop(topic: seq<byte>, qos: byte, rest: seq<byte>)
    requires |topic| < 0x1_0000
    ensures var l := ReadFilters(rest);
            ReadFilters(Str16(topic) + (Char(qos) + rest)) == Subscriptions([topic] + l.topics, [qos] + l.qoss, l.ok)
  {
    hide ReadString, Str16, Char;
    var tail := Char(qos) + rest;
    StringRoundTrip(topic, tail);
    CharOfByte(qos);
    assert tail[0] == qos && tail[1..] == rest;
    FirstFilter(Str16(topic) + tail, topic, tail);
  }

  lemma FirstFilter(r: seq<byte>, topic: seq<byte>, tail: seq<byte>)
    requires r != [] && ReadString(r) == Some((topic, tail)) && tail != []
    ensures var l := ReadFilters(tail[1..]);
            ReadFilters(r) == Subscriptions([topic] + l.topics, [tail[0]] + l.qoss, l.ok)
  {
    hide ReadString;
  }

  /** Nothing but such a list is read to the end. */
  lemma {:induction false} FiltersReadBack(r: seq<byte>)
    requires ReadFilters(r).ok
    ensures var l := ReadFilters(r); TopicsOk(l.topics) && QossOk(l.qoss) && r == Filters(l.topics, l.qoss)
  {
    if r != [] {
      StringReadBack(r);
      var (topic, rest) := ReadString(r).value;
      var l, tail := ReadFilters(r), ReadFilters(rest[1..]);
      FiltersReadBack(rest[1..]);
      CharOfByte(rest[0]);
      hide ReadString, Str16, Char;
      assert l.topics == [topic] + tail.topics && l.qoss == [rest[0]] + tail.qoss;
      hide ReadFilters;
      assert l.topics[1..] == tail.topics && l.qoss[1..] == tail.qoss;
      assert rest == Char(rest[0]) + rest[1..];
    }
  }

  lemma CharOfByte(b: byte)
    ensures Char(b) == [b]
  {
  }

  /** Deserialising a serialised SUBSCRIBE gives back all that went in, in arrays just large enough. */
  lemma SubscribeRoundTrip(dup: nat, id: nat, topics: seq<seq<byte>>, qoss: seq<int>, after: seq<byte>)
    requires dup < 2 && id < 0x1_0000 && |topics| == |qoss| && TopicsOk(topics) && QossOk(qoss)
    requires |SubscribeBody(id, topics, qoss)| < LENGTH_LIMIT
    ensures var b := SubscribePacket(dup, id, topics, qoss) + after;
            && Framed(b) && BodyStart(b) + 2 <= |b|
            && KindOf(b[0]) == SUBSCRIBE && DupOf(b[0]) == dup && ReadU16(b[BodyStart(b)..]) == id
            && ReadFilters(AfterId(Body(b))) == Subscriptions(topics, qoss, true)
            && RoomFor(ReadFilters(AfterId(Body(b))), |topics|)
  {
    var h, body := Header(SUBSCRIBE, dup, 1, 0), SubscribeBody(id, topics, qoss);
    var b := Packet(h, body) + after;
    HeaderFields(SUBSCRIBE, dup, 1, 0);
    PacketIsFramed(h, body, after);
    ConcatAssociates(U16(id), Filters(topics, qoss), after);
    U16RoundTrip(id, Filters(topics, qoss) + after);
    assert body[2..] == Filters(topics, qoss);
    FiltersRoundTrip(topics, qoss);
  }

  /** An accepted body is one that some call would have written, or is shorter than its packet id. */
  lemma SubscribeReadBack(body: seq<byte>)
    ensures var l := ReadFilters(AfterId(body));
            l.ok <==> |body| < 2 || exists id, topics, qoss ::
              id < 0x1_0000 && |topics| == |qoss| && TopicsOk(topics) && QossOk(qoss)
              && body == SubscribeBody(id, topics, qoss)
  {
    var l := ReadFilters(AfterId(body));
    if l.ok && |body| >= 2 {
      FiltersReadBack(body[2..]);
      U16ReadBack(body);
      assert body == body[..2] + body[2..];
      assert body == SubscribeBody(ReadU16(body), l.topics, l.qoss);
    }
    if |body| >= 2 {
      forall id, topics, qoss | id < 0x1_0000 && |topics| == |qoss| && TopicsOk(topics) && QossOk(qoss)
                                && body == SubscribeBody(id, topics, qoss)
        ensures l.ok
      {
        assert body[2..] == Filters(topics, qoss);
        FiltersRoundTrip(topics, qoss);
      }
    }
  }

  // ---------- SUBACK ----------

  function Grants(qoss: seq<int>): (r: seq<byte>)
    ensures |r| == |qoss|
  {
    seq(|qoss|, i requires 0 <= i < |qoss| => qoss[i] % 256)
  }

  function SubackPacket(id: nat, qoss: seq<int>): seq<byte>
  {
    Packet(Header(SUBACK, 0, 0, 0), U16(id) + Grants(qoss))
  }

  /** The size test leaves out the header, so the buffer has to have room for the whole packet. */
  method SerializeSuback(buf: array<byte>, buflen: nat, packetid: nat, qoss: seq<int>) returns (rc: int)
    requires buflen <= buf.Length && packetid < 0x1_0000
    requires buflen >= 2 + |qoss| ==> |SubackPacket(packetid, qoss)| <= buf.Length
    modifies buf
    ensures if buflen < 2 + |qoss| then rc == -2 && buf[..] == old(buf[..])
            else
              && rc == |SubackPacket(packetid, qoss)|
              && buf[..] == Splice(old(buf[..]), 0, SubackPacket(packetid, qoss))
  {
    hide Header, Written, Splice;
    if buflen < 2 + |qoss| {
      return BUFFER_TOO_SHORT;
    }
    var h := Header(SUBACK, 0, 0, 0);
    ghost var was, g := buf[..], Grants(qoss);
    ghost var p := Packet(h, U16(packetid) + g);
    var at := PutFixedHeader(buf, h, 2 + |qoss|, U16(packetid) + g);
    at := PutInt(buf, at, packetid, was, p, g);
    assert g[0..] == g;
    for i := 0 to |qoss|
      invariant Written(was, buf[..], 0, p, at, g[i..])
    {
      assert g[i..] == Char(qoss[i]) + g[i + 1..];
      at := PutChar(buf, at, qoss[i], was, p, g[i + 1..]);
    }
    assert g[|qoss|..] == [];
    WrittenEnd(was, buf[..], 0, p, at);
    rc := at;
  }

  /** The test against `maxcount` comes before the increment: one entry more than that is taken. */
  method DeserializeSuback(b: seq<byte>, maxcount: nat, granted: array<int>)
    returns (rc: int, packetid: nat, count: nat)
    requires Framed(b)
    requires Smaller(|Body(b)| - 2, maxcount + 1) <= granted.Length
    modifies granted
    ensures if KindOf(b[0]) != SUBACK then rc == 0 && granted[..] == old(granted[..])
            else if |Body(b)| < 2 then rc == BodyStart(b) - 1 && granted[..] == old(granted[..])
            else
              && packetid == ReadU16(Body(b))
              && count == Smaller(|Body(b)| - 2, maxcount + 1)
              && rc == (if |Body(b)| - 2 <= maxcount + 1 then 1 else -1)
              && (forall i :: 0 <= i < count ==> granted[i] == Body(b)[2 + i])
              && (forall i :: count <= i < granted.Length ==> granted[i] == old(granted[i]))
  {
    rc, packetid, count := 0, 0, 0;
    if KindOf(b[0]) != SUBACK {
      return;
    }
    var n, mylen := DecodeBuf(b, 1);
    rc := n;
    var cur: int, end: int := 1 + n, 1 + n + mylen;
    assert cur == BodyStart(b) && end == BodyEnd(b);
    if end - cur < 2 {
      return;
    }
    ghost var body := Body(b);
    packetid, cur := ReadInt(b, cur);
    while cur < end
      invariant cur == end - |body| + 2 + count && cur <= end && count <= maxcount + 1
      invariant forall i :: 0 <= i < count ==> granted[i] == body[2 + i]
      invariant forall i :: count <= i < granted.Length ==> granted[i] == old(granted[i])
    {
      if count > maxcount {
        rc := -1;
        return;
      }
      granted[count] := b[cur];
      cur, count := cur + 1, count + 1;
    }
    rc := 1;
  }

  /** So the round trip holds for up to `maxcount + 1` entries, and is refused from there on. */
  lemma SubackRoundTrip(id: nat, qoss: seq<int>, after: seq<byte>)
    requires id < 0x1_0000 && QossOk(qoss) && 2 + |qoss| < LENGTH_LIMIT
    ensures var b := SubackPacket(id, qoss) + after;
            && Framed(b) && KindOf(b[0]) == SUBACK && |Body(b)| == 2 + |qoss| && ReadU16(Body(b)) == id
            && forall i :: 0 <= i < |qoss| ==> Body(b)[2 + i] == qoss[i]
  {
    var h, body := Header(SUBACK, 0, 0, 0), U16(id) + Grants(qoss);
    HeaderFields(SUBACK, 0, 0, 0);
    PacketIsFramed(h, body, after);
    U16RoundTrip(id, Grants(qoss));
    var b := SubackPacket(id, qoss) + after;
    forall i | 0 <= i < |qoss| ensures Body(b)[2 + i] == qoss[i] {
      assert Body(b)[2 + i] == Grants(qoss)[i];
    }
  }
}
