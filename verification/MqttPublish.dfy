/** MQTTSerializePublish.c and MQTTDeserializePublish.c. */
module MqttPublish {
  import opened Bytes
  import opened Base128
  import opened MqttModel
  import opened MqttPacket

  // ---------- what a PUBLISH is ----------

  /** MQTTSerialize_publishLength. */
  function PublishLength(qos: int, topic: MqttString, payloadlen: nat): nat
  {
    2 + StringLength(topic) + payloadlen + if qos > 0 then 2 else 0
  }

  function PublishId(qos: int, id: nat): seq<byte>
  {
    if qos > 0 then U16(id) else []
  }

  function PublishBody(qos: int, id: nat, topic: seq<byte>, payload: seq<byte>): seq<byte>
  {
    Str16(topic) + (PublishId(qos, id) + payload)
  }

  function PublishPacket(dup: int, qos: int, retained: int, id: nat, topic: seq<byte>, payload: seq<byte>): seq<byte>
  {
    Packet(Header(PUBLISH, dup, qos, retained), PublishBody(qos, id, topic, payload))
  }

  /** Nothing is written unless the whole packet fits, by the size test that is one byte strict at four lengths. */
  method SerializePublish(buf: array<byte>, buflen: nat, dup: byte, qos: int, retained: byte, packetid: nat,
                          topic: MqttString, payload: seq<byte>) returns (rc: int)
    requires buflen <= buf.Length && packetid < 0x1_0000
    requires StringLength(topic) == |Content(topic)|
    requires PublishLength(qos, topic, |payload|) < LENGTH_LIMIT
    modifies buf
    ensures var p := PublishPacket(dup, qos, retained, packetid, Content(topic), payload);
            if PacketLength(PublishLength(qos, topic, |payload|)) > buflen then
              rc == -2 && buf[..] == old(buf[..])
            else
              rc == |p| && |p| <= buflen && buf[..] == Splice(old(buf[..]), 0, p)
  {
    hide Header, Content, Written, Splice;
    var remLen := PublishLength(qos, topic, |payload|);
    if PacketLength(remLen) > buflen {
      return BUFFER_TOO_SHORT;
    }
    PacketLengthExact(remLen);
    var h := Header(PUBLISH, dup, qos, retained);
    ghost var was, body := buf[..], PublishBody(qos, packetid, Content(topic), payload);
    ghost var p := Packet(h, body);
    var at := PutFixedHeader(buf, h, remLen, body);
    at := PutString(buf, at, topic, was, p, PublishId(qos, packetid) + payload);
    if qos > 0 {
      at := PutInt(buf, at, packetid, was, p, payload);
    } else {
      assert [] + payload == payload;
    }
    rc := PutBytes(buf, at, payload, was, p);
  }

  // ---------- reading ----------

  /** `start` and `len` delimit the payload in the buffer; `len` may come out negative. */
  datatype PublishRead =
    | WrongType
    | NoTopic
    | Got(dup: nat, qos: nat, retained: nat, id: Option<nat>, topic: seq<byte>, start: nat, len: int)

  /** The packet id is fetched without looking whether the packet still has two bytes; the buffer must. */
  predicate IdThere(b: seq<byte>)
  {
    && Framed(b)
    && (QosOf(b[0]) > 0 && ReadString(Body(b)).Some? ==> BodyEnd(b) - |ReadString(Body(b)).value.1| + 2 <= |b|)
  }

  function ParsePublish(b: seq<byte>): PublishRead
    requires IdThere(b)
  {
    if KindOf(b[0]) != PUBLISH then WrongType
    else match ReadString(Body(b))
      case None => NoTopic
      case Some((topic, rest)) =>
        var cur := BodyEnd(b) - |rest|;
        if QosOf(b[0]) > 0 then
          Got(DupOf(b[0]), QosOf(b[0]), RetainOf(b[0]), Some(ReadU16(b[cur..])), topic, cur + 2, |rest| - 2)
        else
          Got(DupOf(b[0]), QosOf(b[0]), RetainOf(b[0]), None, topic, cur, |rest|)
  }

  method DeserializePublish(b: seq<byte>)
    returns (rc: int, dup: nat, qos: nat, retained: nat, packetid: Option<nat>, topic: MqttString, payload: nat,
             payloadlen: int)
    requires IdThere(b)
    ensures match ParsePublish(b)
            case WrongType => rc == 0
            case NoTopic => rc == BodyStart(b) - 1
            case Got(d, q, r, id, t, start, len) =>
              rc == 1 && dup == d && qos == q && retained == r && packetid == id && topic == FromWire(t)
              && payload == start && payloadlen == len
  {
    rc, dup, qos, retained, packetid, payload, payloadlen := 0, 0, 0, 0, None, 0, 0;
    topic := MqttString(None, None);
    if KindOf(b[0]) != PUBLISH {
      return;
    }
    dup, qos, retained := DupOf(b[0]), QosOf(b[0]), RetainOf(b[0]);
    var n, mylen := DecodeBuf(b, 1);
    rc := n;
    var cur: int, end: int := 1 + n, 1 + n + mylen;
    assert cur == BodyStart(b) && end == BodyEnd(b);
    var ok;
    ok, topic, cur := ReadLenString(b, cur, end);
    if !ok || end - cur < 0 {
      return;
    }
    if qos > 0 {
      var id;
      id, cur := ReadInt(b, cur);
      packetid := Some(id);
    }
    payloadlen := end - cur;
    payload := cur;
    rc := 1;
  }

  // ---------- one is the inverse of the other ----------

  lemma PublishRoundTrip(dup: nat, qos: nat, retained: nat, id: nat, topic: seq<byte>, payload: seq<byte>,
                         after: seq<byte>)
    requires dup < 2 && qos < 4 && retained < 2 && id < 0x1_0000 && |topic| < 0x1_0000
    requires |PublishBody(qos, id, topic, payload)| < LENGTH_LIMIT
    ensures var p := PublishPacket(dup, qos, retained, id, topic, payload);
            var b := p + after;
            && IdThere(b)
            && ParsePublish(b) == Got(dup, qos, retained, if qos > 0 then Some(id) else None, topic,
                                      |p| - |payload|, |payload|)
            && b[|p| - |payload|..|p|] == payload
  {
    hide Header, KindOf, DupOf, QosOf, RetainOf, ReadString, Str16, Varint, ReadU16, Framed, Body, BodyEnd;
    var h, body := Header(PUBLISH, dup, qos, retained), PublishBody(qos, id, topic, payload);
    var p := Packet(h, body);
    var b, rest := p + after, PublishId(qos, id) + payload;
    HeaderFields(PUBLISH, dup, qos, retained);
    PacketIsFramed(h, body, after);
    StringRoundTrip(topic, rest);
    IdAndPayload(p, rest, after, qos, id, payload, [h] + Varint(|body|) + Str16(topic));
  }

  /** Where the packet id and the payload stand in the packet. */
  lemma IdAndPayload(p: seq<byte>, rest: seq<byte>, after: seq<byte>, qos: nat, id: nat, payload: seq<byte>,
                     front: seq<byte>)
    requires p == front + rest && rest == PublishId(qos, id) + payload && id < 0x1_0000
    ensures (p + after)[|p| - |payload|..|p|] == payload
    ensures qos > 0 ==> |rest| >= 2 && ReadU16((p + after)[|p| - |rest|..]) == id
  {
    if qos > 0 {
      assert (p + after)[|p| - |rest|..] == U16(id) + (payload + after);
      U16RoundTrip(id, payload + after);
    }
  }

  /**
   Whatever is accepted with a payload length that is not negative is the packet of what was read; the length is
   negative exactly if the packet ends in the middle of its own packet id.
   */
  lemma PublishReadBack(b: seq<byte>)
    requires IdThere(b) && ParsePublish(b).Got?
    ensures var g := ParsePublish(b);
            && (g.len < 0 <==> g.qos > 0 && |Body(b)| < 2 + |g.topic| + 2)
            && (g.len >= 0 ==>
                  var payload := b[g.start..g.start + g.len];
                  b[0] == Header(PUBLISH, g.dup, g.qos, g.retained)
                  && Body(b) == PublishBody(g.qos, if g.qos > 0 then g.id.value else 0, g.topic, payload))
  {
    hide Header, KindOf, DupOf, QosOf, RetainOf, ReadString, Str16, U16, ReadU16, Framed, Body, BodyEnd;
    var g, body := ParsePublish(b), Body(b);
    StringReadBack(body);
    HeaderRebuilt(b[0]);
    var rest := ReadString(body).value.1;
    RestOfBody(b, BodyEnd(b) - |rest|, Str16(g.topic), rest);
    if g.qos > 0 && g.len >= 0 {
      IdReadBack(b, BodyEnd(b) - |rest|, BodyEnd(b));
    }
  }

  /** Such a packet: QoS 1, an empty topic, and one byte of the id; the second byte is taken from behind the packet. */
  lemma CutInItsId(after: byte)
    ensures var b: seq<byte> := [Header(PUBLISH, 0, 1, 0), 3, 0, 0, 7, after];
            && IdThere(b) && BodyEnd(b) == 5 && ParsePublish(b).Got? && ParsePublish(b).len == -1
            && ParsePublish(b).id == Some(7 * 256 + after)
  {
    var b: seq<byte> := [Header(PUBLISH, 0, 1, 0), 3, 0, 0, 7, after];
    HeaderFields(PUBLISH, 0, 1, 0);
    hide Header, KindOf, QosOf, DupOf, RetainOf;
    assert b[1..] == [3, 0, 0, 7, after] && b[1..][..1] == [3] && [3][1..] == [];
    assert TerminatedLength(b[1..], 4) == 1 && VarintValue([3]) == 3 + 128 * VarintValue([]);
    assert Body(b) == b[2..5] == [0, 0, 7];
    assert ReadU16([0, 0, 7]) == 0 && [0, 0, 7][2..] == [7];
    assert b[4..] == [7, after];
  }

  lemma RestOfBody(b: seq<byte>, cur: nat, front: seq<byte>, rest: seq<byte>)
    requires Framed(b) && Body(b) == front + rest && cur == BodyEnd(b) - |rest|
    ensures rest == b[cur..BodyEnd(b)]
  {
    assert Body(b)[|front|..] == rest;
  }

  lemma IdReadBack(b: seq<byte>, cur: nat, end: nat)
    requires cur + 2 <= end <= |b|
    ensures b[cur..end] == U16(ReadU16(b[cur..])) + b[cur + 2..end]
  {
    U16ReadBack(b[cur..]);
    assert b[cur..end] == b[cur..][..2] + b[cur + 2..end];
  }

  // ---------- acknowledgements ----------

  function AckPacket(kind: int, dup: int, id: nat): seq<byte>
  {
    Packet(Header(kind, dup, if kind == PUBREL then 1 else 0, 0), U16(id))
  }

  method SerializeAck(buf: array<byte>, buflen: nat, kind: byte, dup: byte, packetid: nat) returns (rc: int)
    requires buflen <= buf.Length && packetid < 0x1_0000
    modifies buf
    ensures if buflen < 4 then rc == -2 && buf[..] == old(buf[..])
            else rc == 4 && buf[..] == Splice(old(buf[..]), 0, AckPacket(kind, dup, packetid))
  {
    if buflen < 4 {
      return BUFFER_TOO_SHORT;
    }
    var h := Header(kind, dup, if kind == PUBREL then 1 else 0, 0);
    ghost var was, p := buf[..], AckPacket(kind, dup, packetid);
    assert |Varint(2)| == 1;
    var at := PutFixedHeader(buf, h, 2, U16(packetid));
    assert U16(packetid) == U16(packetid) + [];
    at := PutInt(buf, at, packetid, was, p, []);
    WrittenEnd(was, buf[..], 0, p, at);
    rc := at;
  }

  method DeserializeAck(b: seq<byte>) returns (rc: int, kind: nat, dup: nat, packetid: nat)
    requires Framed(b)
    ensures kind == KindOf(b[0]) && dup == DupOf(b[0])
    ensures if |Body(b)| < 2 then rc == BodyStart(b) - 1 else rc == 1 && packetid == ReadU16(Body(b))
  {
    kind, dup, packetid := KindOf(b[0]), DupOf(b[0]), 0;
    var n, mylen := DecodeBuf(b, 1);
    rc := n;
    var cur, end := 1 + n, 1 + n + mylen;
    if end - cur < 2 {
      return;
    }
    packetid, cur := ReadInt(b, cur);
    rc := 1;
  }

  lemma AckRoundTrip(kind: nat, dup: nat, id: nat, after: seq<byte>)
    requires kind < 16 && dup < 2 && id < 0x1_0000
    ensures var b := AckPacket(kind, dup, id) + after;
            && Framed(b) && KindOf(b[0]) == kind && DupOf(b[0]) == dup
            && |Body(b)| == 2 && ReadU16(Body(b)) == id
  {
    HeaderFields(kind, dup, if kind == PUBREL then 1 else 0, 0);
    PacketIsFramed(Header(kind, dup, if kind == PUBREL then 1 else 0, 0), U16(id), after);
    assert U16(id) == U16(id) + [];
    U16RoundTrip(id, []);
  }
}
