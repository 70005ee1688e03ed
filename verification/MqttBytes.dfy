/** The MQTT packets byte by byte, in the numbers of the standard (sections 2.2, 3.1, 3.3 to 3.10 of MQTT 3.1.1). */
module MqttBytes {
  import opened Bytes
  import opened Base128
  import opened MqttModel
  import MqttPublish
  import MqttSubscribe
  import MqttUnsubscribe
  import MqttConnect

  /** A string or a list of bytes behind its length, the more significant byte first. */
  function Text(d: seq<byte>): seq<byte>
    requires |d| < 0x1_0000
  {
    [|d| / 256, |d| % 256] + d
  }

  /** First byte, remaining length, body. */
  function Whole(first: byte, body: seq<byte>): seq<byte>
  {
    [first] + Varint(|body|) + body
  }

  lemma IntInBytes(n: nat)
    requires n < 0x1_0000
    ensures U16(n) == [n / 256, n % 256]
  {
  }

  lemma TextInBytes(d: seq<byte>)
    requires |d| < 0x1_0000
    ensures Str16(d) == Text(d)
  {
  }

  /** Which of the two forms of a string is written, and which one is counted. */
  lemma FormsOfString(c: seq<byte>, l: seq<byte>)
    ensures Content(MqttString(Some(c), None)) == c && StringLength(MqttString(Some(c), None)) == |c|
    ensures Content(MqttString(None, Some(l))) == l && StringLength(MqttString(None, Some(l))) == |l|
    ensures Content(MqttString(None, None)) == [] && StringLength(MqttString(None, None)) == 0
    ensures Content(MqttString(Some(c), Some(l))) == (if l == [] then c else l)
    ensures StringLength(MqttString(Some(c), Some(l))) == |c|
  {
  }

  // ---------- PUBLISH and the acknowledgements ----------

  lemma PublishBytes(dup: nat, qos: nat, retained: nat, id: nat, topic: seq<byte>, payload: seq<byte>)
    requires dup < 2 && qos < 4 && retained < 2 && id < 0x1_0000 && |topic| < 0x1_0000
    ensures MqttPublish.PublishPacket(dup, qos, retained, id, topic, payload) ==
            Whole(0x30 + 8 * dup + 2 * qos + retained,
                  Text(topic) + ((if qos > 0 then [id / 256, id % 256] else []) + payload))
  {
    HeaderSum(3, dup, qos, retained);
    TextInBytes(topic);
    IntInBytes(id);
  }

  /** PUBACK, PUBREC, PUBREL and PUBCOMP. */
  lemma AckBytes(dup: nat, id: nat)
    requires dup < 2 && id < 0x1_0000
    ensures MqttPublish.AckPacket(4, dup, id) == [0x40 + 8 * dup, 2, id / 256, id % 256]
    ensures MqttPublish.AckPacket(5, dup, id) == [0x50 + 8 * dup, 2, id / 256, id % 256]
    ensures MqttPublish.AckPacket(6, dup, id) == [0x62 + 8 * dup, 2, id / 256, id % 256]
    ensures MqttPublish.AckPacket(7, dup, id) == [0x70 + 8 * dup, 2, id / 256, id % 256]
  {
    IntInBytes(id);
    HeaderSum(4, dup, 0, 0);
    HeaderSum(5, dup, 0, 0);
    HeaderSum(6, dup, 1, 0);
    HeaderSum(7, dup, 0, 0);
    assert Varint(2) == [2];
  }

  // ---------- SUBSCRIBE, SUBACK, UNSUBSCRIBE ----------

  predicate ShortTexts(topics: seq<seq<byte>>)
  {
    forall i | 0 <= i < |topics| :: |topics[i]| < 0x1_0000
  }

  function FilterBytes(topics: seq<seq<byte>>, qoss: seq<byte>): seq<byte>
    requires |topics| == |qoss| && ShortTexts(topics)
  {
    if topics == [] then [] else Text(topics[0]) + ([qoss[0]] + FilterBytes(topics[1..], qoss[1..]))
  }

  function TopicBytes(topics: seq<seq<byte>>): seq<byte>
    requires ShortTexts(topics)
  {
    if topics == [] then [] else Text(topics[0]) + TopicBytes(topics[1..])
  }

  lemma {:induction false} FiltersInBytes(topics: seq<seq<byte>>, qoss: seq<byte>)
    requires |topics| == |qoss| && ShortTexts(topics)
    ensures MqttSubscribe.Filters(topics, qoss) == FilterBytes(topics, qoss)
    decreases |topics|
  {
    if topics != [] {
      TextInBytes(topics[0]);
      FiltersInBytes(topics[1..], qoss[1..]);
    }
  }

  lemma {:induction false} TopicsInBytes(topics: seq<seq<byte>>)
    requires ShortTexts(topics)
    ensures MqttUnsubscribe.Topics(topics) == TopicBytes(topics)
    decreases |topics|
  {
    if topics != [] {
      TextInBytes(topics[0]);
      TopicsInBytes(topics[1..]);
    }
  }

  lemma SubscribeBytes(dup: nat, id: nat, topics: seq<seq<byte>>, qoss: seq<byte>)
    requires dup < 2 && id < 0x1_0000 && |topics| == |qoss| && ShortTexts(topics)
    ensures MqttSubscribe.SubscribePacket(dup, id, topics, qoss) ==
            Whole(0x82 + 8 * dup, [id / 256, id % 256] + FilterBytes(topics, qoss))
  {
    hide Header, U16, Varint, Text, Str16, FilterBytes, MqttSubscribe.Filters;
    HeaderSum(8, dup, 1, 0);
    IntInBytes(id);
    FiltersInBytes(topics, qoss);
  }

  lemma UnsubscribeBytes(dup: nat, id: nat, topics: seq<seq<byte>>)
    requires dup < 2 && id < 0x1_0000 && ShortTexts(topics)
    ensures MqttUnsubscribe.UnsubscribePacket(dup, id, topics) ==
            Whole(0xA2 + 8 * dup, [id / 256, id % 256] + TopicBytes(topics))
  {
    hide Header, U16, Varint, Text, Str16;
    HeaderSum(10, dup, 1, 0);
    IntInBytes(id);
    TopicsInBytes(topics);
  }

  lemma SubackBytes(id: nat, qoss: seq<byte>)
    requires id < 0x1_0000
    ensures MqttSubscribe.SubackPacket(id, qoss) == Whole(0x90, [id / 256, id % 256] + qoss)
  {
    HeaderSum(9, 0, 0, 0);
    IntInBytes(id);
    assert MqttSubscribe.Grants(qoss) == qoss;
  }

  // ---------- CONNECT ----------

  /** The strings are short enough for their length bytes, and the numbers for their bits. */
  predicate Sized(o: MqttConnect.ConnectData)
  {
    && (o.version == 3 || o.version == 4) && o.keepAlive < 0x1_0000
    && o.clean < 2 && o.will.qos < 4 && o.will.retained < 2
    && |Content(o.client)| < 0x1_0000 && |Content(o.will.topic)| < 0x1_0000 && |Content(o.will.message)| < 0x1_0000
    && |Content(o.username)| < 0x1_0000 && |Content(o.password)| < 0x1_0000
  }

  predicate Has(m: MqttString)
  {
    m != MqttString(None, None)
  }

  function FlagBits(o: MqttConnect.ConnectData): nat
  {
    2 * o.clean + (if o.willFlag != 0 then 4 + 8 * o.will.qos + 32 * o.will.retained else 0)
    + (if Has(o.password) then 64 else 0) + (if Has(o.username) then 128 else 0)
  }

  /** The strings that the flags announce, in this order. */
  function Announced(o: MqttConnect.ConnectData): seq<byte>
    requires Sized(o)
  {
    (if o.willFlag != 0 then Text(Content(o.will.topic)) + Text(Content(o.will.message)) else [])
    + ((if Has(o.username) then Text(Content(o.username)) else [])
    + (if Has(o.password) then Text(Content(o.password)) else []))
  }

  /** Name and level of the protocol, flags, keep-alive, client identifier, and the strings announced. */
  lemma ConnectBytes(o: MqttConnect.ConnectData)
    requires Sized(o)
    ensures FlagBits(o) < 256
    ensures var name: seq<byte> := if o.version == 4 then [0, 4, 77, 81, 84, 84, 4]
                                   else [0, 6, 77, 81, 73, 115, 100, 112, 3];
            MqttConnect.ConnectPacket(o) ==
            Whole(0x10, name + [FlagBits(o), o.keepAlive / 256, o.keepAlive % 256] + Text(Content(o.client))
                        + Announced(o))
  {
    hide Content, Text, Header, Varint, MqttConnect.Settings, MqttConnect.ConnectBody, Announced, FlagBits;
    HeaderSum(1, 0, 0, 0);
    NameAndLevel(o);
    SettingsInBytes(o);
    var name: seq<byte> := if o.version == 4 then [0, 4, 77, 81, 84, 84, 4] else [0, 6, 77, 81, 73, 115, 100, 112, 3];
    assert name + ([FlagBits(o), o.keepAlive / 256, o.keepAlive % 256] + (Text(Content(o.client)) + Announced(o))) ==
           name + [FlagBits(o), o.keepAlive / 256, o.keepAlive % 256] + Text(Content(o.client)) + Announced(o);
  }

  lemma SettingsInBytes(o: MqttConnect.ConnectData)
    requires Sized(o)
    ensures FlagBits(o) < 256
    ensures MqttConnect.Settings(o) ==
            [FlagBits(o), o.keepAlive / 256, o.keepAlive % 256] + (Text(Content(o.client)) + Announced(o))
  {
    hide Content, Text, Str16, MqttConnect.Flags, MqttConnect.WillAndLogin, U16, Announced, FlagBits;
    IntInBytes(o.keepAlive);
    TextInBytes(Content(o.client));
    LoginBytes(o);
    FlagsInBits(o);
  }

  lemma NameAndLevel(o: MqttConnect.ConnectData)
    requires o.version == 3 || o.version == 4
    ensures MqttConnect.ConnectBody(o) ==
            (if o.version == 4 then [0, 4, 77, 81, 84, 84, 4] else [0, 6, 77, 81, 73, 115, 100, 112, 3])
            + MqttConnect.Settings(o)
  {
    hide MqttConnect.Settings, Str16;
    NamesInBytes();
  }

  lemma NamesInBytes()
    ensures Str16(MqttConnect.NAME4) == [0, 4, 77, 81, 84, 84]
    ensures Str16(MqttConnect.NAME3) == [0, 6, 77, 81, 73, 115, 100, 112]
  {
  }

  lemma FlagsInBits(o: MqttConnect.ConnectData)
    requires Sized(o)
    ensures MqttConnect.Flags(o) == FlagBits(o)
  {
  }

  lemma LoginBytes(o: MqttConnect.ConnectData)
    requires Sized(o)
    ensures MqttConnect.WillAndLogin(o) == Announced(o)
  {
    hide Content, Text, Str16;
    TextInBytes(Content(o.will.topic));
    TextInBytes(Content(o.will.message));
    TextInBytes(Content(o.username));
    TextInBytes(Content(o.password));
  }
}
