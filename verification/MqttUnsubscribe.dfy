/** MQTTUnsubscribeClient.c and MQTTUnsubscribeServer.c: topic filters without a QoS. */
module MqttUnsubscribe {
  import opened Bytes
  import opened MqttModel
  import opened MqttPacket
  import opened MqttSubscribe

  function Topics(topics: seq<seq<byte>>): seq<byte>
  {
    if topics == [] then [] else Str16(topics[0]) + Topics(topics[1..])
  }

  function UnsubscribeBody(id: nat, topics: seq<seq<byte>>): seq<byte>
  {
    U16(id) + Topics(topics)
  }

  function UnsubscribePacket(dup: int, id: nat, topics: seq<seq<byte>>): seq<byte>
  {
    Packet(Header(UNSUBSCRIBE, dup, 1, 0), UnsubscribeBody(id, topics))
  }

  // ---------- writing ----------

  method UnsubscribeLength(topics: seq<MqttString>) returns (len: nat)
    requires AllConsistent(topics)
    ensures len == 2 + |Topics(Contents(topics))|
  {
    len := 2;
    ghost var c := Contents(topics);
    for i := 0 to |topics|
      invariant len + |Topics(c[i..])| == 2 + |Topics(c)|
    {
      len := len + 2 + StringLength(topics[i]);
      assert c[i..][1..] == c[i + 1..];
    }
  }

  method SerializeUnsubscribe(buf: array<byte>, buflen: nat, dup: byte, packetid: nat, topics: seq<MqttString>)
    returns (rc: int)
    requires buflen <= buf.Length && packetid < 0x1_0000 && AllConsistent(topics)
    requires |UnsubscribeBody(packetid, Contents(topics))| < LENGTH_LIMIT
    modifies buf
    ensures var p := UnsubscribePacket(dup, packetid, Contents(topics));
            if PacketLength(|UnsubscribeBody(packetid, Contents(topics))|) > buflen then
              rc == -2 && buf[..] == old(buf[..])
            else
              rc == |p| && |p| <= buflen && buf[..] == Splice(old(buf[..]), 0, p)
  {
    hide Header, Content, Written, Splice;
    var remLen := UnsubscribeLength(topics);
    if PacketLength(remLen) > buflen {
      return BUFFER_TOO_SHORT;
    }
    PacketLengthExact(remLen);
    var h := Header(UNSUBSCRIBE, dup, 1, 0);
    ghost var was, c := buf[..], Contents(topics);
    ghost var p := Packet(h, UnsubscribeBody(packetid, c));
    var at := PutFixedHeader(buf, h, remLen, UnsubscribeBody(packetid, c));
    at := PutInt(buf, at, packetid, was, p, Topics(c));
    for i := 0 to |topics|
      invariant Written(was, buf[..], 0, p, at, Topics(c[i..]))
    {
      assert c[i..][1..] == c[i + 1..];
      at := PutString(buf, at, topics[i], was, p, Topics(c[i + 1..]));
    }
    WrittenEnd(was, buf[..], 0, p, at);
    rc := at;
  }

  // ---------- reading ----------

  /** The topics up to the end, or up to the first that is cut off. */
  function ReadTopics(r: seq<byte>): (l: (seq<seq<byte>>, bool))
  {
    if r == [] then ([], true)
    else match ReadString(r)
      case None => ([], false)
      case Some((topic, rest)) => var (topics, ok) := ReadTopics(rest); ([topic] + topics, ok)
  }

  lemma TopicStep(all: (seq<seq<byte>>, bool), count: nat, r: seq<byte>)
    requires count <= |all.0| && r != [] && ReadTopics(r) == (all.0[count..], all.1)
    ensures match ReadString(r)
            case None => count == |all.0| && !all.1
            case Some((topic, rest)) =>
              count < |all.0| && all.0[count] == topic && ReadTopics(rest) == (all.0[count + 1..], all.1)
  {
    hide ReadString;
    if ReadString(r).Some? {
      var (topic, rest) := ReadString(r).value;
      assert all.0[count..] == [topic] + ReadTopics(rest).0;
      assert all.0[count..][1..] == all.0[count + 1..];
    }
  }

  method ReadTopicLoop(b: seq<byte>, at: nat, end: nat, topics: array<MqttString>) returns (ok: bool, count: nat)
    requires at <= end <= |b|
    requires var (ts, good) := ReadTopics(b[at..end]); |ts| + (if good then 0 else 1) <= topics.Length
    modifies topics
    ensures var (ts, good) := ReadTopics(b[at..end]);
            && ok == good && count == |ts|
            && (forall i :: 0 <= i < count ==> topics[i] == FromWire(ts[i]))
            && (forall i :: count < i < topics.Length ==> topics[i] == old(topics[i]))
  {
    ghost var l := ReadTopics(b[at..end]);
    var cur := at;
    count := 0;
    assert l.0[0..] == l.0;
    while cur < end
      invariant cur <= end && count <= |l.0|
      invariant ReadTopics(b[cur..end]) == (l.0[count..], l.1)
      invariant forall i :: 0 <= i < count ==> topics[i] == FromWire(l.0[i])
      invariant forall i :: count <= i < topics.Length ==> topics[i] == old(topics[i])
      decreases end - cur
    {
      hide ReadTopics, ReadString;
      ghost var r := b[cur..end];
      TopicStep(l, count, r);
      var good, m, next := ReadLenString(b, cur, end);
      topics[count] := m;
      if !good {
        return false, count;
      }
      assert ReadString(r).value.1 == b[next..end];
      cur := next;
      count := count + 1;
    }
    ok := true;
  }

  method DeserializeUnsubscribe(b: seq<byte>, topics: array<MqttString>)
    returns (rc: int, dup: nat, packetid: nat, count: nat)
    requires Framed(b) && BodyStart(b) + 2 <= |b|
    requires var (ts, good) := ReadTopics(AfterId(Body(b))); |ts| + (if good then 0 else 1) <= topics.Length
    modifies topics
    ensures var (ts, good) := ReadTopics(AfterId(Body(b)));
            if KindOf(b[0]) != UNSUBSCRIBE then rc == 0 && topics[..] == old(topics[..])
            else
              && rc == (if good then 1 else BodyStart(b) - 1)
              && dup == DupOf(b[0]) && packetid == ReadU16(b[BodyStart(b)..]) && count == |ts|
              && (forall i :: 0 <= i < count ==> topics[i] == FromWire(ts[i]))
              && (forall i :: count < i < topics.Length ==> topics[i] == old(topics[i]))
  {
    rc, dup, packetid, count := 0, 0, 0, 0;
    if KindOf(b[0]) != UNSUBSCRIBE {
      return;
    }
    dup := DupOf(b[0]);
    var n, mylen := DecodeBuf(b, 1);
    rc := n;
    var cur, end := 1 + n, 1 + n + mylen;
    assert cur == BodyStart(b) && end == BodyEnd(b);
    packetid, cur := ReadInt(b, cur);
    if cur <= end {
      SliceOfSlice(b, 1 + n, end, 2, mylen);
      assert b[cur..end] == AfterId(Body(b));
      var ok;
      ok, count := ReadTopicLoop(b, cur, end, topics);
      if !ok { return; }
    }
    rc := 1;
  }

  // ---------- the round trip ----------

  lemma {:induction false} TopicsRoundTrip(topics: seq<seq<byte>>)
    requires TopicsOk(topics)
    ensures ReadTopics(Topics(topics)) == (topics, true)
  {
    hide ReadString, Str16;
    if topics != [] {
      StringRoundTrip(topics[0], Topics(topics[1..]));
      TopicsRoundTrip(topics[1..]);
      assert [topics[0]] + topics[1..] == topics;
    }
  }

  lemma {:induction false} TopicsReadBack(r: seq<byte>)
    requires ReadTopics(r).1
    ensures TopicsOk(ReadTopics(r).0) && r == Topics(ReadTopics(r).0)
  {
    if r != [] {
      StringReadBack(r);
      hide ReadString, Str16;
      var (topic, rest) := ReadString(r).value;
      TopicsReadBack(rest);
      assert ReadTopics(r).0[1..] == ReadTopics(rest).0;
    }
  }

  lemma UnsubscribeRoundTrip(dup: nat, id: nat, topics: seq<seq<byte>>, after: seq<byte>)
    requires dup < 2 && id < 0x1_0000 && TopicsOk(topics) && |UnsubscribeBody(id, topics)| < LENGTH_LIMIT
    ensures var b := UnsubscribePacket(dup, id, topics) + after;
            && Framed(b) && BodyStart(b) + 2 <= |b|
            && KindOf(b[0]) == UNSUBSCRIBE && DupOf(b[0]) == dup && ReadU16(b[BodyStart(b)..]) == id
            && ReadTopics(AfterId(Body(b))) == (topics, true)
  {
    var h, body := Header(UNSUBSCRIBE, dup, 1, 0), UnsubscribeBody(id, topics);
    var b := Packet(h, body) + after;
    HeaderFields(UNSUBSCRIBE, dup, 1, 0);
    PacketIsFramed(h, body, after);
    ConcatAssociates(U16(id), Topics(topics), after);
    U16RoundTrip(id, Topics(topics) + after);
    assert body[2..] == Topics(topics);
    TopicsRoundTrip(topics);
  }

  /** An accepted body is one that some call would have written, or is shorter than its packet id. */
  lemma UnsubscribeReadBack(body: seq<byte>)
    ensures ReadTopics(AfterId(body)).1 <==>
            |body| < 2 || exists id, topics :: id < 0x1_0000 && TopicsOk(topics) && body == UnsubscribeBody(id, topics)
  {
    var l := ReadTopics(AfterId(body));
    if l.1 && |body| >= 2 {
      TopicsReadBack(body[2..]);
      U16ReadBack(body);
      assert body == body[..2] + body[2..];
      assert body == UnsubscribeBody(ReadU16(body), l.0);
    }
    if |body| >= 2 {
      forall id, topics | id < 0x1_0000 && TopicsOk(topics) && body == UnsubscribeBody(id, topics)
        ensures l.1
      {
        assert body[2..] == Topics(topics);
        TopicsRoundTrip(topics);
      }
    }
  }
}
