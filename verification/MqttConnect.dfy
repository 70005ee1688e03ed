/** MQTTConnectClient.c and MQTTConnectServer.c: the CONNECT packet. */
module MqttConnect {
  import opened Bytes
  import opened Base128
  import opened MqttModel
  import opened MqttPacket

  datatype Will = Will(topic: MqttString, message: MqttString, retained: byte, qos: byte)

  datatype ConnectData = ConnectData(version: byte, client: MqttString, keepAlive: nat, clean: byte, willFlag: byte,
                                     will: Will, username: MqttString, password: MqttString)

  /** "MQIsdp" and "MQTT". */
  const NAME3: seq<byte> := [77, 81, 73, 115, 100, 112]
  const NAME4: seq<byte> := [77, 81, 84, 84]

  predicate Given(m: MqttString)
  {
    m.cstring.Some? || m.lenstring.Some?
  }

  // ---------- what is written ----------

  /** MQTTSerialize_connectLength. */
  function ConnectLength(o: ConnectData): nat
  {
    (if o.version == 3 then 12 else if o.version == 4 then 10 else 0)
    + (StringLength(o.client) + 2)
    + (if o.willFlag != 0 then StringLength(o.will.topic) + 2 + StringLength(o.will.message) + 2 else 0)
    + (if Given(o.username) then StringLength(o.username) + 2 else 0)
    + (if Given(o.password) then StringLength(o.password) + 2 else 0)
  }

  function Flags(o: ConnectData): byte
  {
    o.clean % 2 * 2
    + (if o.willFlag != 0 then 4 + o.will.qos % 4 * 8 + o.will.retained % 2 * 32 else 0)
    + (if Given(o.password) then 64 else 0)
    + (if Given(o.username) then 128 else 0)
  }

  function IfGiven(m: MqttString, tail: seq<byte>): seq<byte>
  {
    if Given(m) then Str16(Content(m)) + tail else tail
  }

  function Login(o: ConnectData): seq<byte>
  {
    IfGiven(o.username, IfGiven(o.password, []))
  }

  function WillAndLogin(o: ConnectData): seq<byte>
  {
    if o.willFlag != 0 then Str16(Content(o.will.topic)) + (Str16(Content(o.will.message)) + Login(o)) else Login(o)
  }

  function Settings(o: ConnectData): seq<byte>
  {
    Char(Flags(o)) + (U16(o.keepAlive) + (Str16(Content(o.client)) + WillAndLogin(o)))
  }

  function ConnectBody(o: ConnectData): seq<byte>
  {
    if o.version == 4 then Str16(NAME4) + (Char(4) + Settings(o)) else Str16(NAME3) + (Char(3) + Settings(o))
  }

  function ConnectPacket(o: ConnectData): seq<byte>
  {
    Packet(Header(CONNECT, 0, 0, 0), ConnectBody(o))
  }

  predicate StringsConsistent(o: ConnectData)
  {
    && StringLength(o.client) == |Content(o.client)|
    && (o.willFlag != 0 ==> && StringLength(o.will.topic) == |Content(o.will.topic)|
                            && StringLength(o.will.message) == |Content(o.will.message)|)
    && (Given(o.username) ==> StringLength(o.username) == |Content(o.username)|)
    && (Given(o.password) ==> StringLength(o.password) == |Content(o.password)|)
  }

  /** The announced length is the written one for versions 3 and 4, and for no other. */
  lemma ConnectLengthExact(o: ConnectData)
    requires StringsConsistent(o)
    ensures ConnectLength(o) == |ConnectBody(o)| <==> o.version == 3 || o.version == 4
  {
    assert |ConnectBody(o)| == |Settings(o)| + if o.version == 4 then 7 else 9;
    assert |Settings(o)| == 1 + 2 + (2 + |Content(o.client)|) + |WillAndLogin(o)|;
    assert |Login(o)| == (if Given(o.username) then 2 + |Content(o.username)| else 0)
                         + (if Given(o.password) then 2 + |Content(o.password)| else 0);
  }

  method SerializeConnect(buf: array<byte>, buflen: nat, o: ConnectData) returns (rc: int)
    requires buflen <= buf.Length && o.keepAlive < 0x1_0000 && StringsConsistent(o)
    requires o.version == 3 || o.version == 4
    requires ConnectLength(o) < LENGTH_LIMIT
    modifies buf
    ensures if PacketLength(ConnectLength(o)) > buflen then rc == -2 && buf[..] == old(buf[..])
            else
              && rc == |ConnectPacket(o)| && |ConnectPacket(o)| <= buflen
              && buf[..] == Splice(old(buf[..]), 0, ConnectPacket(o))
  {
    hide Header, Content, Written, Splice, Flags, ConnectLength, StringsConsistent;
    var len := ConnectLength(o);
    if PacketLength(len) > buflen {
      return BUFFER_TOO_SHORT;
    }
    PacketLengthExact(len);
    ConnectLengthExact(o);
    ghost var was, p := buf[..], ConnectPacket(o);
    var at := PutFixedHeader(buf, Header(CONNECT, 0, 0, 0), len, ConnectBody(o));
    if o.version == 4 {
      at := PutText(buf, at, NAME4, was, p, Char(4) + Settings(o));
      at := PutChar(buf, at, 4, was, p, Settings(o));
    } else {
      at := PutText(buf, at, NAME3, was, p, Char(3) + Settings(o));
      at := PutChar(buf, at, 3, was, p, Settings(o));
    }
    at := PutSettings(buf, at, o, was, p);
    WrittenEnd(was, buf[..], 0, p, at);
    rc := at;
  }

  /** writeCString. */
  method PutText(buf: array<byte>, at: nat, d: seq<byte>, ghost was: seq<byte>, ghost all: seq<byte>,
                 ghost rest: seq<byte>) returns (next: nat)
    requires Written(was, buf[..], 0, all, at, Str16(d) + rest)
    modifies buf
    ensures Written(was, buf[..], 0, all, next, rest)
  {
    WrittenStep(was, buf[..], 0, all, at, Str16(d), rest);
    next := WriteBytes(buf, at, d);
  }

  method FlagBytes(o: ConnectData) returns (flags: int, withUser: bool, withPassword: bool)
    ensures flags == Flags(o) && withUser == Given(o.username) && withPassword == Given(o.password)
  {
    flags := o.clean % 2 * 2;
    if o.willFlag != 0 {
      flags := flags + 4 + o.will.qos % 4 * 8 + o.will.retained % 2 * 32;
    }
    withUser, withPassword := Given(o.username), Given(o.password);
    if withUser { flags := flags + 128; }
    if withPassword { flags := flags + 64; }
  }

  method PutSettings(buf: array<byte>, at: nat, o: ConnectData, ghost was: seq<byte>, ghost all: seq<byte>)
    returns (next: nat)
    requires Written(was, buf[..], 0, all, at, Settings(o))
    modifies buf
    ensures Written(was, buf[..], 0, all, next, [])
  {
    hide Content, Written, Str16, U16, Flags;
    var flags, withUser, withPassword := FlagBytes(o);
    next := PutChar(buf, at, flags, was, all, U16(o.keepAlive) + (Str16(Content(o.client)) + WillAndLogin(o)));
    next := PutInt(buf, next, o.keepAlive, was, all, Str16(Content(o.client)) + WillAndLogin(o));
    next := PutString(buf, next, o.client, was, all, WillAndLogin(o));
    if o.willFlag != 0 {
      next := PutString(buf, next, o.will.topic, was, all, Str16(Content(o.will.message)) + Login(o));
      next := PutString(buf, next, o.will.message, was, all, Login(o));
    }
    if withUser {
      next := PutString(buf, next, o.username, was, all, IfGiven(o.password, []));
    }
    if withPassword {
      next := PutString(buf, next, o.password, was, all, []);
    }
  }

  // ---------- what is read ----------

  function Bit(flags: byte, weight: nat): nat
    requires weight > 0
  {
    var i: int := flags;
    i / weight % 2
  }

  /** MQTTPacket_checkVersion compares only as much of the name as there is. */
  predicate NameFits(name: seq<byte>, expected: seq<byte>)
  {
    var n := if |name| < |expected| then |name| else |expected|;
    name[..n] == expected[..n]
  }

  predicate CheckVersion(name: seq<byte>, version: int)
  {
    (version == 3 && NameFits(name, NAME3)) || (version == 4 && NameFits(name, NAME4))
  }

  function ParseLogin(d: ConnectData, flags: byte, r: seq<byte>): Option<ConnectData>
  {
    if Bit(flags, 128) == 0 then
      if Bit(flags, 64) == 0 then Some(d) else None
    else if |r| < 3 then None
    else match ReadString(r)
      case None => None
      case Some((user, r)) =>
        var d := d.(username := FromWire(user));
        if Bit(flags, 64) == 0 then Some(d)
        else if |r| < 3 then None
        else match ReadString(r)
          case None => None
          case Some((password, _)) => Some(d.(password := FromWire(password)))
  }

  function ParseWill(d: ConnectData, flags: byte, r: seq<byte>): Option<ConnectData>
  {
    if Bit(flags, 4) == 0 then ParseLogin(d.(willFlag := 0), flags, r)
    else match ReadString(r)
      case None => None
      case Some((topic, r)) => match ReadString(r)
        case None => None
        case Some((message, r)) =>
          var i: int := flags;
          var w := Will(FromWire(topic), FromWire(message), Bit(flags, 32), i / 8 % 4);
          ParseLogin(d.(willFlag := 1, will := w), flags, r)
  }

  /** What is read after the flags and the keep-alive interval. */
  function ParseStrings(d: ConnectData, flags: byte, r: seq<byte>): Option<ConnectData>
  {
    match ReadString(r)
    case None => None
    case Some((client, r)) => ParseWill(d.(client := FromWire(client)), flags, r)
  }

  /** Offset of the version byte, if the protocol name can be read from the first `len` bytes. */
  function VersionAt(b: seq<byte>, len: nat): (v: Option<(seq<byte>, nat)>)
    requires 1 <= |b| && len <= |b|
    ensures v.Some? ==> v.value.1 <= len
  {
    var cur := 1 + DecodeLength(b[1..]).0;
    if cur > len then None
    else match ReadString(b[cur..len])
      case None => None
      case Some((name, rest)) => Some((name, len - |rest|))
  }

  /** The version, the flags and the interval are fetched without a check; the buffer must hold them. */
  predicate ConnectReadable(b: seq<byte>, len: nat)
  {
    && 1 <= |b| && len <= |b|
    && match VersionAt(b, len)
       case None => true
       case Some((name, at)) => at < |b| && (CheckVersion(name, b[at]) ==> at + 4 <= |b|)
  }

  /** The result for a structure that held `d` before: the version in it is not set. */
  function ParseConnect(d: ConnectData, b: seq<byte>, len: nat): Option<ConnectData>
    requires ConnectReadable(b, len)
  {
    if KindOf(b[0]) != CONNECT then None
    else match VersionAt(b, len)
      case None => None
      case Some((name, at)) =>
        if !CheckVersion(name, b[at]) || at + 4 > len then None
        else ParseStrings(d.(clean := Bit(b[at + 1], 2), keepAlive := ReadU16(b[at + 2..])), b[at + 1], b[at + 4..len])
  }

  method ReadLogin(data: ConnectData, flags: byte, b: seq<byte>, at: nat, end: nat) returns (rc: int, d: ConnectData)
    requires at <= end <= |b|
    ensures rc == if ParseLogin(data, flags, b[at..end]).Some? then 1 else 0
    ensures rc == 1 ==> ParseLogin(data, flags, b[at..end]) == Some(d)
  {
    hide ReadString;
    rc, d := 0, data;
    var cur, ok, m := at, false, data.username;
    if Bit(flags, 128) != 0 {
      if end - cur < 3 { return; }
      ok, m, cur := ReadLenString(b, cur, end);
      if !ok { return; }
      d := d.(username := m);
      if Bit(flags, 64) != 0 {
        if end - cur < 3 { return; }
        ok, m, cur := ReadLenString(b, cur, end);
        if !ok { return; }
        d := d.(password := m);
      }
    } else if Bit(flags, 64) != 0 {
      return;
    }
    rc := 1;
  }

  method ReadStrings(data: ConnectData, flags: byte, b: seq<byte>, at: nat, end: nat)
    returns (rc: int, d: ConnectData)
    requires at <= end <= |b|
    ensures rc == if ParseStrings(data, flags, b[at..end]).Some? then 1 else 0
    ensures rc == 1 ==> ParseStrings(data, flags, b[at..end]) == Some(d)
  {
    hide ReadString, ParseLogin;
    rc, d := 0, data;
    var ok, m, cur := ReadLenString(b, at, end);
    if !ok { return; }
    d := d.(client := m);
    if Bit(flags, 4) != 0 {
      var i: int := flags;
      d := d.(willFlag := 1, will := d.will.(qos := i / 8 % 4, retained := Bit(flags, 32)));
      ok, m, cur := ReadLenString(b, cur, end);
      if !ok { return; }
      d := d.(will := d.will.(topic := m));
      ok, m, cur := ReadLenString(b, cur, end);
      if !ok { return; }
      d := d.(will := d.will.(message := m));
    } else {
      d := d.(willFlag := 0);
    }
    rc, d := ReadLogin(d, flags, b, cur, end);
  }

  method DeserializeConnect(data: ConnectData, b: seq<byte>, len: nat) returns (rc: int, d: ConnectData)
    requires ConnectReadable(b, len)
    ensures rc == if ParseConnect(data, b, len).Some? then 1 else 0
    ensures rc == 1 ==> ParseConnect(data, b, len) == Some(d)
  {
    hide ReadString, ParseStrings, DecodeLength, NameFits;
    rc, d := 0, data;
    if KindOf(b[0]) != CONNECT {
      return;
    }
    var n, mylen := DecodeBuf(b, 1);
    var ok, name, cur := ReadLenString(b, 1 + n, len);
    if !ok || len - cur < 0 {
      return;
    }
    var version := b[cur];
    cur := cur + 1;
    if CheckVersion(name.lenstring.value, version) {
      var flags := b[cur];
      d := d.(clean := Bit(flags, 2));
      var interval;
      interval, cur := ReadInt(b, cur + 1);
      d := d.(keepAlive := interval);
      if cur > len { return; }
      rc, d := ReadStrings(d, flags, b, cur, len);
    }
  }

  // ---------- the round trip ----------

  /** Each string fits its two-byte length. */
  predicate StringsOk(o: ConnectData)
  {
    && |Content(o.client)| < 0x1_0000
    && (o.willFlag != 0 ==> |Content(o.will.topic)| < 0x1_0000 && |Content(o.will.message)| < 0x1_0000)
    && (Given(o.username) ==> |Content(o.username)| < 0x1_0000)
    && (Given(o.password) ==> |Content(o.password)| < 0x1_0000)
  }

  predicate FlagsOk(o: ConnectData)
  {
    o.clean < 2 && (o.willFlag != 0 ==> o.will.qos < 4 && o.will.retained < 2)
  }

  /**
   What the reader wants of the credentials: a password only together with a user name, and enough bytes to follow
   each of the two flags, which an empty user name has only if a password comes after it.
   */
  predicate LoginAccepted(o: ConnectData)
  {
    && (Given(o.password) ==> Given(o.username) && Content(o.password) != [])
    && (Given(o.username) && !Given(o.password) ==> Content(o.username) != [])
  }

  lemma FlagBits(o: ConnectData)
    ensures var f := Flags(o);
            && (Bit(f, 2) == o.clean % 2)
            && (Bit(f, 4) == if o.willFlag != 0 then 1 else 0)
            && (o.willFlag != 0 ==> Bit(f, 32) == o.will.retained % 2 && (f as int) / 8 % 4 == o.will.qos % 4)
            && (Bit(f, 64) == if Given(o.password) then 1 else 0)
            && (Bit(f, 128) == if Given(o.username) then 1 else 0)
  {
    FlagArithmetic(o.clean % 2, if o.willFlag != 0 then 1 else 0, if o.willFlag != 0 then o.will.qos % 4 else 0,
                   if o.willFlag != 0 then o.will.retained % 2 else 0, if Given(o.password) then 1 else 0,
                   if Given(o.username) then 1 else 0);
  }

  lemma FlagArithmetic(clean: nat, will: nat, qos: nat, retained: nat, password: nat, user: nat)
    requires clean < 2 && will < 2 && qos < 4 && retained < 2 && password < 2 && user < 2
    ensures var f := clean * 2 + will * 4 + qos * 8 + retained * 32 + password * 64 + user * 128;
            && f / 2 % 2 == clean && f / 4 % 2 == will && f / 8 % 4 == qos && f / 32 % 2 == retained
            && f / 64 % 2 == password && f / 128 % 2 == user
  {
    var f := clean * 2 + will * 4 + qos * 8 + retained * 32 + password * 64 + user * 128;
    assert f / 4 == will + qos * 2 + retained * 8 + password * 16 + user * 32;
    assert f / 8 == qos + retained * 4 + password * 8 + user * 16;
    assert f / 32 == retained + password * 2 + user * 4;
    assert f / 64 == password + user * 2;
  }

  /** A structure that held `d`, with the strings of `o` read into it. */
  function WithLogin(d: ConnectData, o: ConnectData): ConnectData
  {
    var d := if Given(o.username) then d.(username := FromWire(Content(o.username))) else d;
    if Given(o.password) then d.(password := FromWire(Content(o.password))) else d
  }

  function WithWill(d: ConnectData, o: ConnectData): ConnectData
  {
    if o.willFlag == 0 then d.(willFlag := 0)
    else d.(willFlag := 1, will := Will(FromWire(Content(o.will.topic)), FromWire(Content(o.will.message)),
                                        o.will.retained, o.will.qos))
  }

  function Reread(d: ConnectData, o: ConnectData): ConnectData
  {
    WithLogin(WithWill(d.(clean := o.clean, keepAlive := o.keepAlive, client := FromWire(Content(o.client))), o), o)
  }

  lemma LoginRoundTrip(d: ConnectData, o: ConnectData)
    requires StringsOk(o)
    ensures ParseLogin(d, Flags(o), Login(o)) == if LoginAccepted(o) then Some(WithLogin(d, o)) else None
  {
    hide Flags, Bit, Content, ReadString, Str16;
    FlagBits(o);
    var tail := IfGiven(o.password, []);
    if Given(o.username) { StringRoundTrip(Content(o.username), tail); }
    if Given(o.password) { StringRoundTrip(Content(o.password), []); }
  }

  lemma WillRoundTrip(d: ConnectData, o: ConnectData)
    requires StringsOk(o) && FlagsOk(o)
    ensures ParseWill(d, Flags(o), WillAndLogin(o)) == ParseLogin(WithWill(d, o), Flags(o), Login(o))
  {
    hide Flags, Bit, Content, ParseLogin, ReadString, Str16;
    FlagBits(o);
    if o.willFlag != 0 {
      StringRoundTrip(Content(o.will.topic), Str16(Content(o.will.message)) + Login(o));
      StringRoundTrip(Content(o.will.message), Login(o));
    }
  }

  lemma StringsRoundTrip(d: ConnectData, o: ConnectData)
    requires StringsOk(o) && FlagsOk(o)
    ensures ParseStrings(d, Flags(o), Str16(Content(o.client)) + WillAndLogin(o)) ==
            var d1 := d.(client := FromWire(Content(o.client)));
            if LoginAccepted(o) then Some(WithLogin(WithWill(d1, o), o)) else None
  {
    hide ReadString, Str16, WithLogin, WithWill, LoginAccepted, Flags, Content, ParseWill;
    var d1 := d.(client := FromWire(Content(o.client)));
    StringRoundTrip(Content(o.client), WillAndLogin(o));
    WillRoundTrip(d1, o);
    LoginRoundTrip(WithWill(d1, o), o);
  }

  /** The reader finds the version byte of a written packet. */
  lemma VersionFound(o: ConnectData, after: seq<byte>)
    requires |ConnectBody(o)| < LENGTH_LIMIT && (o.version == 3 || o.version == 4)
    ensures var p := ConnectPacket(o);
            && KindOf((p + after)[0]) == CONNECT
            && VersionAt(p + after, |p|) == Some((if o.version == 4 then NAME4 else NAME3, |p| - |Settings(o)| - 1))
  {
    hide Settings, Header, Packet, ReadString, Str16, Varint, VarintValue;
    var h, body, p := Header(CONNECT, 0, 0, 0), ConnectBody(o), ConnectPacket(o);
    HeaderFields(CONNECT, 0, 0, 0);
    PacketIsFramed(h, body, after);
    StringRoundTrip(if o.version == 4 then NAME4 else NAME3, Char(o.version) + Settings(o));
  }

  /** And what is behind it. */
  lemma SettingsFound(o: ConnectData, after: seq<byte>)
    requires (o.version == 3 || o.version == 4) && o.keepAlive < 0x1_0000
    ensures var p := ConnectPacket(o);
            var b, k := p + after, |p| - |Settings(o)|;
            && 1 <= k <= |p| - 3
            && b[k - 1] == o.version && b[k] == Flags(o) && ReadU16(b[k + 1..]) == o.keepAlive
            && b[k + 3..|p|] == Str16(Content(o.client)) + WillAndLogin(o)
  {
    hide Flags, Content, WillAndLogin, Header, Str16, Varint, U16, ReadU16;
    var name := if o.version == 4 then NAME4 else NAME3;
    var strings := Str16(Content(o.client)) + WillAndLogin(o);
    var front := [Header(CONNECT, 0, 0, 0)] + Varint(|ConnectBody(o)|) + Str16(name);
    KeepAliveBytes(o.keepAlive, strings + after);
    assert ConnectPacket(o) == front + ([o.version] + Settings(o)) by { FrontAndSettings(o); }
    SettingsAt(ConnectPacket(o), after, Flags(o), U16(o.keepAlive), strings, o.version, front);
    var p := ConnectPacket(o);
    hide ConnectPacket;
    assert |Settings(o)| == 3 + |strings|;
    hide Settings;
    var b, k := p + after, |p| - |Settings(o)|;
    assert ReadU16(b[k + 1..]) == o.keepAlive;
    assert b[k + 3..|p|] == strings;
  }

  lemma KeepAliveBytes(k: nat, rest: seq<byte>)
    requires k < 0x1_0000
    ensures |U16(k)| == 2 && ReadU16(U16(k) + rest) == k
  {
    U16RoundTrip(k, rest);
  }

  lemma FrontAndSettings(o: ConnectData)
    requires o.version == 3 || o.version == 4
    ensures var name := if o.version == 4 then NAME4 else NAME3;
            var front := [Header(CONNECT, 0, 0, 0)] + Varint(|ConnectBody(o)|) + Str16(name);
            ConnectPacket(o) == front + ([o.version] + Settings(o))
  {
    hide Flags, Settings, Header, Str16, Varint;
  }

  lemma SettingsAt(p: seq<byte>, after: seq<byte>, flags: byte, keep: seq<byte>, strings: seq<byte>, version: byte,
                   front: seq<byte>)
    requires p == front + ([version] + ([flags] + (keep + strings))) && |keep| == 2
    ensures var b, k := p + after, |p| - 3 - |strings|;
            && k >= 1 && b[k - 1] == version && b[k] == flags
            && b[k + 1..] == keep + (strings + after) && b[k + 3..|p|] == strings
  {
  }

  lemma CleanBit(o: ConnectData)
    requires FlagsOk(o)
    ensures Bit(Flags(o), 2) == o.clean
  {
    hide Flags, Bit;
    FlagBits(o);
  }

  lemma ConnectParses(d: ConnectData, o: ConnectData, after: seq<byte>)
    requires (o.version == 3 || o.version == 4) && o.keepAlive < 0x1_0000 && StringsOk(o) && FlagsOk(o)
    requires |ConnectBody(o)| < LENGTH_LIMIT
    ensures var p := ConnectPacket(o);
            && ConnectReadable(p + after, |p|)
            && ParseConnect(d, p + after, |p|) == if LoginAccepted(o) then Some(Reread(d, o)) else None
  {
    hide Flags, Bit, Content, ParseStrings, ReadString, Str16, Settings, ConnectPacket, VersionAt, WithLogin, WithWill,
         LoginAccepted, ReadU16, WillAndLogin, StringsOk, FlagsOk, ConnectBody, KindOf;
    VersionFound(o, after);
    SettingsFound(o, after);
    CleanBit(o);
    StringsRoundTrip(d.(clean := o.clean, keepAlive := o.keepAlive), o);
  }

  /** A CONNECT is accepted exactly if its credentials are, and then nothing in it is lost. */
  lemma ConnectRoundTrip(d: ConnectData, o: ConnectData, after: seq<byte>)
    requires (o.version == 3 || o.version == 4) && o.keepAlive < 0x1_0000 && StringsOk(o) && FlagsOk(o)
    requires |ConnectBody(o)| < LENGTH_LIMIT
    ensures var p := ConnectPacket(o);
            && ConnectReadable(p + after, |p|)
            && (ParseConnect(d, p + after, |p|).Some? <==> LoginAccepted(o))
            && (LoginAccepted(o) ==>
                  var r := ParseConnect(d, p + after, |p|).value;
                  && Content(r.client) == Content(o.client) && r.keepAlive == o.keepAlive && r.clean == o.clean
                  && (r.willFlag != 0 <==> o.willFlag != 0)
                  && (o.willFlag != 0 ==>
                        && r.will.qos == o.will.qos && r.will.retained == o.will.retained
                        && Content(r.will.topic) == Content(o.will.topic)
                        && Content(r.will.message) == Content(o.will.message))
                  && (if Given(o.username) then Content(r.username) == Content(o.username)
                      else r.username == d.username)
                  && (if Given(o.password) then Content(r.password) == Content(o.password)
                      else r.password == d.password))
  {
    ConnectParses(d, o, after);
    assert forall c :: Content(FromWire(c)) == c;
    hide Content, ParseConnect, ConnectReadable, LoginAccepted, StringsOk, ConnectBody, ConnectPacket;
  }
}
