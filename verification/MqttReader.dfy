/** MQTTPacket_read and MQTTPacket_readnb: fetching one packet, in one go or in whatever pieces it comes. */
module MqttReader {
  import opened Bytes
  import opened Base128
  import opened MqttModel
  import opened MqttPacket

  // ---------- in one go ----------

  /** The bytes that a blocking read leaves in the buffer for the input `r`. */
  function Fetched(r: seq<byte>): (p: Option<seq<byte>>)
    requires r != []
  {
    var used, size := 1 + LengthBytes(r[1..]), DecodeLength(r[1..]).1;
    if used + size <= |r| then Some(Packet(r[0], r[used..used + size])) else None
  }

  lemma FieldIsShort(b: seq<byte>)
    ensures DecodeLength(b).1 < LENGTH_LIMIT && |Varint(DecodeLength(b).1)| <= 4
  {
    var n := LengthBytes(b);
    ShortVarintValue(b[..n]);
    UInt64SizeIsLength(DecodeLength(b).1);
  }

  /** The first byte, and the remaining length in its shortest form. */
  method FetchHeader(src: Feed, buf: array<byte>) returns (rc: int, len: nat, remLen: nat)
    requires src.Valid() && src.plan == [] && 5 <= buf.Length
    modifies src, buf
    ensures src.Valid() && src.plan == []
    ensures var r := old(src.Rest());
            if r == [] then rc == -1
            else
              && rc == 0 && remLen == DecodeLength(r[1..]).1 && len == 1 + |Varint(remLen)|
              && src.Rest() == r[1 + LengthBytes(r[1..])..]
              && len <= buf.Length && buf[..] == Splice(old(buf[..]), 0, Char(r[0]) + Varint(remLen))
  {
    hide DecodeLength, LengthBytes, Char;
    rc, len, remLen := -1, 0, 0;
    ghost var r, was := src.Rest(), buf[..];
    var frc, c := src.Get(1);
    if frc != 1 {
      return;
    }
    FieldIsShort(r[1..]);
    len := WriteChar(buf, 0, c[0]);
    var used;
    used, remLen := Decode(src);
    SpliceAppend(was, 0, Char(r[0]), Varint(remLen));
    var n := EncodeLength(buf, len, remLen);
    len := len + n;
    rc := 0;
  }

  /** The source hands over all it has been asked for, or as much as there is. */
  method ReadPacket(src: Feed, buf: array<byte>, buflen: nat) returns (rc: int)
    requires src.Valid() && src.plan == [] && buflen <= buf.Length && 5 <= buf.Length
    modifies src, buf
    ensures src.Valid()
    ensures var r := old(src.Rest());
            if r == [] || Fetched(r).None? || |Fetched(r).value| > buflen then rc == -1
            else rc == KindOf(r[0]) && buf[..] == Splice(old(buf[..]), 0, Fetched(r).value)
  {
    hide DecodeLength, LengthBytes, Varint;
    ghost var r, was := src.Rest(), buf[..];
    var len, remLen;
    rc, len, remLen := FetchHeader(src, buf);
    if rc == -1 {
      return;
    }
    rc := -1;
    if remLen + len > buflen {
      return;
    }
    ghost var rest := src.Rest();
    var frc, c := src.Get(remLen);
    SpliceAppend(was, 0, Char(r[0]) + Varint(remLen), c);
    CopyIn(c, buf, len);
    if frc != remLen {
      return;
    }
    FetchedIs(r, remLen, c);
    assert buf[..|Char(r[0]) + Varint(remLen) + c|][0] == r[0];
    rc := KindOf(buf[0]);
  }

  lemma FetchedIs(r: seq<byte>, remLen: nat, c: seq<byte>)
    requires r != [] && remLen == DecodeLength(r[1..]).1
    requires var rest := r[1 + LengthBytes(r[1..])..]; remLen <= |rest| && c == rest[..remLen]
    ensures Fetched(r) == Some(Char(r[0]) + Varint(remLen) + c)
  {
    hide DecodeLength, LengthBytes, Varint;
    assert Char(r[0]) == [r[0]];
    var used := 1 + LengthBytes(r[1..]);
    assert c == r[used..used + remLen];
    assert Packet(r[0], c) == [r[0]] + Varint(remLen) + c;
  }

  // ---------- in pieces ----------

  /** A packet as it comes over the wire: its length field need not be the shortest one. */
  datatype Wire = Wire(h: byte, field: seq<byte>, body: seq<byte>, after: seq<byte>)

  ghost predicate WireOk(w: Wire)
  {
    && KindOf(w.h) > 0
    && 1 <= |w.field| <= 4 && TerminatedLength(w.field, 4) == |w.field|
    && VarintValue(w.field) == |w.body| > 0
  }

  function Input(w: Wire): seq<byte>
  {
    [w.h] + w.field + w.body + w.after
  }

  /** Read in one go, such an input yields the packet with its length in the shortest form. */
  lemma WireFetched(w: Wire)
    requires WireOk(w)
    ensures Fetched(Input(w)) == Some(Packet(w.h, w.body)) && Input(w)[0] == w.h
  {
    var r := Input(w);
    assert r[1..] == w.field + (w.body + w.after);
    TerminatedLengthPrefix(w.field, w.body + w.after, 4);
    assert r[1..][..|w.field|] == w.field;
    assert r[1 + |w.field|..1 + |w.field| + |w.body|] == w.body;
  }

  /** What is left of the source's plan once it has handed over the first byte; none if it fails before that. */
  function AfterHeader(plan: seq<int>): Option<seq<int>>
  {
    if plan == [] then Some([])
    else if plan[0] < 0 then None
    else if plan[0] == 0 then AfterHeader(plan[1..])
    else Some(plan[1..])
  }

  /** Calls to be made again while `left` bytes of the length field are to come; a failure costs too much. */
  function Agains(plan: seq<int>, left: nat): nat
  {
    if left == 0 || plan == [] then 0
    else if plan[0] < 0 then 5
    else if plan[0] == 0 then 1 + Agains(plan[1..], left)
    else Agains(plan[1..], left - 1)
  }

  function AfterLength(plan: seq<int>, left: nat): seq<int>
  {
    if left == 0 || plan == [] then plan
    else if plan[0] <= 0 then AfterLength(plan[1..], left)
    else AfterLength(plan[1..], left - 1)
  }

  predicate BodyArrives(plan: seq<int>, n: nat)
  {
    n == 0 || plan == [] || (plan[0] >= 0 && BodyArrives(plan[1..], n - Smaller(plan[0], n)))
  }

  ghost predicate LengthArrives(plan: seq<int>, left: nat, len: nat, w: Wire, buflen: nat)
  {
    len + left + Agains(plan, left) <= 4 && |Packet(w.h, w.body)| <= buflen
    && BodyArrives(AfterLength(plan, left), |w.body|)
  }

  /** Whether the packet gets through, as a function of what the source is going to answer. */
  ghost predicate Arrives(plan: seq<int>, w: Wire, buflen: nat)
  {
    && AfterHeader(plan).Some?
    && LengthArrives(AfterHeader(plan).value, |w.field|, 0, w, buflen)
  }

  predicate NoFailures(plan: seq<int>)
  {
    forall i :: 0 <= i < |plan| ==> plan[i] >= 0
  }

  /**
   Without failures the one thing that can go wrong is the length field: every call that has to be made again there
   counts as one of its four bytes.
   */
  lemma ArrivesUnlessHesitant(plan: seq<int>, w: Wire, buflen: nat)
    requires NoFailures(plan)
    ensures Arrives(plan, w, buflen) <==>
            && AfterHeader(plan).Some? && Agains(AfterHeader(plan).value, |w.field|) <= 4 - |w.field|
            && |Packet(w.h, w.body)| <= buflen
  {
    NoFailuresInHeader(plan);
    var rest := AfterHeader(plan).value;
    NoFailuresInLength(rest, |w.field|);
    NoFailuresInBody(AfterLength(rest, |w.field|), |w.body|);
  }

  lemma {:induction false} NoFailuresInHeader(plan: seq<int>)
    requires NoFailures(plan)
    ensures AfterHeader(plan).Some? && NoFailures(AfterHeader(plan).value)
  {
    if plan != [] && plan[0] == 0 { NoFailuresInHeader(plan[1..]); }
  }

  lemma {:induction false} NoFailuresInLength(plan: seq<int>, left: nat)
    requires NoFailures(plan)
    ensures NoFailures(AfterLength(plan, left))
  {
    if left > 0 && plan != [] { NoFailuresInLength(plan[1..], if plan[0] == 0 then left else left - 1); }
  }

  lemma {:induction false} NoFailuresInBody(plan: seq<int>, n: nat)
    requires NoFailures(plan)
    ensures BodyArrives(plan, n)
  {
    if n > 0 && plan != [] { NoFailuresInBody(plan[1..], n - Smaller(plan[0], n)); }
  }

  /** The first `n` bytes of the packet are in the buffer. */
  ghost predicate Received(w: Wire, was: seq<byte>, now: seq<byte>, n: nat)
  {
    n <= |Packet(w.h, w.body)| <= |was| && now == Splice(was, 0, Packet(w.h, w.body)[..n])
  }

  /** MQTTTransport, with the source that its `getfn` and `sck` stand for. */
  class Transport {
    const src: Feed
    var state: int
    var len: nat
    var remLen: nat
    var multiplier: nat
    ghost var got: nat

    constructor (src: Feed)
      ensures this.src == src && state == 0
    {
      this.src := src;
      state, len, remLen, multiplier, got := 0, 0, 0, 0, 0;
    }

    /** `got` bytes of the length field have been read. */
    ghost predicate InField(w: Wire)
      reads this, src
    {
      && src.Valid() && got < |w.field| && src.Rest() == w.field[got..] + (w.body + w.after)
      && len <= 4 && (len == 0 ==> got == 0)
      && (len > 0 ==> remLen == VarintValue(w.field[..got]) && multiplier == Pow128(got))
    }

    /** `got` bytes of the body have been read. */
    ghost predicate InBody(w: Wire)
      reads this, src
    {
      && src.Valid() && got < |w.body| && src.Rest() == w.body[got..] + w.after
      && remLen == |w.body| - got && len == 1 + |Varint(|w.body|)| + got
    }

    /** Between two calls, with the buffer that held `was` when the packet was begun. */
    ghost predicate InProgress(w: Wire, was: seq<byte>, now: seq<byte>, buflen: nat)
      reads this, src
    {
      && WireOk(w) && 5 <= |was| && buflen <= |was|
      && if state == 1 then InField(w) && now == Splice(was, 0, Char(w.h))
         else if state == 2 then
           InBody(w) && |Packet(w.h, w.body)| <= buflen && Received(w, was, now, len)
         else src.Valid() && src.Rest() == Input(w) && now == was
    }

    /** What will become of the packet. */
    ghost predicate WillArrive(w: Wire, buflen: nat)
      reads this, src
    {
      if state == 1 then got <= |w.field| && LengthArrives(src.plan, |w.field| - got, len, w, buflen)
      else if state == 2 then BodyArrives(src.plan, remLen)
      else Arrives(src.plan, w, buflen)
    }

    // ---------- the three stages ----------

    ghost predicate Groups(w: Wire)
      reads this, src
    {
      && src.Valid() && got < |w.field| && src.Rest() == w.field[got..] + (w.body + w.after)
      && remLen == VarintValue(w.field[..got]) && multiplier == Pow128(got)
    }

    /** Whether the packet arrives, if `tries` calls have been made for its length field. */
    ghost predicate Hopeful(w: Wire, tries: nat, buflen: nat)
      reads this, src
    {
      got <= |w.field| && LengthArrives(src.plan, |w.field| - got, tries, w, buflen)
    }

    /** One round of the loop in MQTTPacket_decodenb, after the call has been counted. */
    method ReadGroup(ghost w: Wire, ghost buflen: nat) returns (frc: int, more: bool)
      requires Groups(w) && WireOk(w) && len >= 1
      modifies src, this`remLen, this`multiplier, this`got
      ensures -1 <= frc <= 1 && (old(src.plan) == [] ==> frc == 1)
      ensures |src.plan| <= |old(src.plan)| && (frc == 0 ==> |src.plan| < |old(src.plan)|)
      ensures frc == -1 ==> !old(Hopeful(w, len - 1, buflen))
      ensures frc >= 0 ==> Hopeful(w, len, buflen) == old(Hopeful(w, len - 1, buflen))
      ensures frc == 0 ==> got == old(got) && Groups(w)
      ensures frc == 1 && more ==> Groups(w)
      ensures frc == 1 && !more ==>
                src.Valid() && got == |w.field| && remLen == |w.body| && src.Rest() == w.body + w.after
    {
      hide LengthArrives, Low7, VarintValue;
      StepArrives(src.plan, |w.field| - got, len - 1, w, buflen);
      FieldGrows(w, got);
      more := true;
      var c;
      frc, c := src.Get(1);
      if frc == 1 {
        remLen := remLen + Low7(c[0]) * multiplier;
        multiplier := multiplier * 128;
        got := got + 1;
        more := c[0] >= 128;
      }
    }

    /** MQTTPacket_decodenb. */
    method DecodeNb(ghost w: Wire, ghost buflen: nat) returns (rc: int)
      requires InField(w) && WireOk(w)
      modifies src, this`len, this`remLen, this`multiplier, this`got
      ensures -1 <= rc && |src.plan| <= |old(src.plan)| && (old(src.plan) == [] ==> rc != 0)
      ensures rc == 0 ==> InField(w) && |src.plan| < |old(src.plan)|
                          && Hopeful(w, len, buflen) == old(Hopeful(w, len, buflen))
      ensures rc > 0 ==> && src.Valid() && remLen == |w.body| && src.Rest() == w.body + w.after
                         && old(Hopeful(w, len, buflen))
                            == (|Packet(w.h, w.body)| <= buflen && BodyArrives(src.plan, |w.body|))
      ensures rc < 0 ==> !old(Hopeful(w, len, buflen))
    {
      hide LengthArrives, Packet, BodyArrives, VarintValue, Pow128, Agains, AfterLength, TerminatedLength;
      EmptyField(w.field);
      ghost var hopeful := Hopeful(w, len, buflen);
      rc := -1;
      if len == 0 {
        multiplier, remLen := 1, 0;
      }
      while true
        invariant Groups(w) && len <= 4 && (len == 0 ==> got == 0)
        invariant rc == -1 && |src.plan| <= |old(src.plan)|
        invariant Hopeful(w, len, buflen) == hopeful
        decreases 4 - len
      {
        StepArrives(src.plan, |w.field| - got, len, w, buflen);
        len := len + 1;
        if len > 4 {
          return;
        }
        var frc, more := ReadGroup(w, buflen);
        if frc == -1 {
          return;
        }
        if frc == 0 {
          rc := 0;
          return;
        }
        if !more {
          break;
        }
      }
      NowArrives(src.plan, len, w, buflen);
      rc := len;
    }

    /** Case 0 of the switch. */
    method HeaderStage(buf: array<byte>, ghost w: Wire, ghost was: seq<byte>, ghost buflen: nat) returns (frc: int)
      requires state == 0 && InProgress(w, was, buf[..], buflen)
      modifies this, src, buf
      ensures -1 <= frc && |src.plan| <= |old(src.plan)| && (frc == 0 ==> |src.plan| < |old(src.plan)|)
      ensures frc < 0 ==> !old(WillArrive(w, buflen))
      ensures frc >= 0 ==> InProgress(w, was, buf[..], buflen) && WillArrive(w, buflen) == old(WillArrive(w, buflen))
      ensures frc == 0 ==> state == 0
      ensures frc > 0 ==> state == 1
    {
      hide LengthArrives, KindOf, WireOk, Splice, Packet, Varint, Agains, Input;
      InputSplit(w);
      var c;
      frc, c := src.Get(1);
      if frc <= 0 {
        return;
      }
      var _ := WriteChar(buf, 0, c[0]);
      len, got := 0, 0;
      state := 1;
    }

    /** Case 1: the length goes back into the buffer in its shortest form. */
    method LengthStage(buf: array<byte>, buflen: nat, ghost w: Wire, ghost was: seq<byte>) returns (frc: int)
      requires state == 1 && InProgress(w, was, buf[..], buflen)
      modifies this, src, buf
      ensures -1 <= frc && |src.plan| <= |old(src.plan)| && (frc == 0 ==> |src.plan| < |old(src.plan)|)
      ensures frc < 0 ==> !old(WillArrive(w, buflen))
      ensures frc >= 0 ==> InProgress(w, was, buf[..], buflen) && WillArrive(w, buflen) == old(WillArrive(w, buflen))
      ensures frc == 0 ==> state == 1
      ensures frc > 0 ==> state == 2
    {
      hide LengthArrives, KindOf, TerminatedLength, VarintValue;
      frc := DecodeNb(w, buflen);
      if frc <= 0 {
        return;
      }
      HeaderInPlace(w, was);
      var n := EncodeLength(buf, 1, remLen);
      len := 1 + n;
      if remLen + len > buflen {
        return -1;
      }
      got := 0;
      assert w.body[0..] == w.body;
      state := 2;
    }

    /** The call of the source for the rest of the body. */
    method AskForRest(ghost w: Wire) returns (frc: int, c: seq<byte>)
      requires InBody(w)
      modifies src
      ensures -1 <= frc <= remLen && |src.plan| <= |old(src.plan)|
      ensures frc < 0 ==> !BodyArrives(old(src.plan), remLen)
      ensures frc >= 0 ==>
                && src.Valid() && src.Rest() == w.body[got + frc..] + w.after
                && c == w.body[got..got + frc]
                && BodyArrives(src.plan, remLen - frc) == BodyArrives(old(src.plan), remLen)
                && (frc < remLen ==> |src.plan| < |old(src.plan)|)
    {
      hide BodyArrives, Granted, Varint;
      BodyStep(src.plan, remLen, |src.Rest()|);
      ghost var n := Granted(src.plan, remLen, |src.Rest()|);
      if n >= 0 { BodySlices(w, got, n); }
      frc, c := src.Get(remLen);
    }

    /** As much of the rest as the source hands over. */
    method FetchBody(buf: array<byte>, ghost w: Wire, ghost was: seq<byte>) returns (frc: int)
      requires InBody(w) && Received(w, was, buf[..], len)
      modifies src, this`remLen, this`len, this`got, buf
      ensures -1 <= frc && |src.plan| <= |old(src.plan)|
      ensures frc < 0 ==> !BodyArrives(old(src.plan), old(remLen))
      ensures frc >= 0 ==>
                && BodyArrives(src.plan, remLen) == BodyArrives(old(src.plan), old(remLen))
                && got <= |w.body| && (remLen == 0 ==> frc > 0) && (remLen > 0 ==> |src.plan| < |old(src.plan)|)
                && src.Valid() && src.Rest() == w.body[got..] + w.after
                && remLen == |w.body| - got && len == 1 + |Varint(|w.body|)| + got
                && Received(w, was, buf[..], len)
    {
      hide BodyArrives, Splice, Received, Varint;
      var c;
      frc, c := AskForRest(w);
      if frc >= 0 {
        BodyGrows(w, was, buf[..], got, frc);
        CopyIn(c, buf, len);
        remLen := remLen - frc;
        len := len + frc;
        got := got + frc;
      }
    }

    /** Case 2. */
    method BodyStage(buf: array<byte>, ghost w: Wire, ghost was: seq<byte>, ghost buflen: nat) returns (frc: int)
      requires state == 2 && InProgress(w, was, buf[..], buflen)
      modifies this, src, buf
      ensures -1 <= frc && |src.plan| <= |old(src.plan)| && state == 2
      ensures frc < 0 ==> !old(WillArrive(w, buflen))
      ensures frc >= 0 && remLen > 0 ==>
                && InProgress(w, was, buf[..], buflen) && |src.plan| < |old(src.plan)|
                && WillArrive(w, buflen) == old(WillArrive(w, buflen))
      ensures frc >= 0 && remLen == 0 ==>
                && frc > 0 && old(WillArrive(w, buflen)) && src.Valid() && src.Rest() == w.after
                && |Packet(w.h, w.body)| <= |was| && buf[..] == Splice(was, 0, Packet(w.h, w.body))
    {
      hide KindOf, Varint, Splice, Received, LengthArrives, Arrives;
      frc := FetchBody(buf, w, was);
      AllReceived(w, was, buf[..]);
    }

    /**
     MQTTPacket_readnb: one call moves the packet on without changing its fate, or finishes it, or gives it up
     because it was never to arrive.
     */
    method ReadNb(buf: array<byte>, buflen: nat, ghost w: Wire, ghost was: seq<byte>) returns (rc: int)
      requires InProgress(w, was, buf[..], buflen)
      modifies this, src, buf
      ensures rc == 0 ==>
                && InProgress(w, was, buf[..], buflen) && |src.plan| < |old(src.plan)|
                && WillArrive(w, buflen) == old(WillArrive(w, buflen))
      ensures rc > 0 ==>
                && old(WillArrive(w, buflen)) && rc == KindOf(w.h) && state == 0
                && src.Valid() && src.Rest() == w.after
                && |Packet(w.h, w.body)| <= |was| && buf[..] == Splice(was, 0, Packet(w.h, w.body))
      ensures rc < 0 ==> rc == -1 && state == 0 && !old(WillArrive(w, buflen))
    {
      hide KindOf, Splice, Received, LengthArrives, Arrives, BodyArrives, InField, InBody, Input, Packet;
      var frc;
      if state != 1 && state != 2 {
        state := 0;
      }
      if state == 0 {
        frc := HeaderStage(buf, w, was, buflen);
        if frc == -1 { state := 0; return -1; }
        if frc == 0 { return 0; }
      }
      if state == 1 {
        frc := LengthStage(buf, buflen, w, was);
        if frc == -1 { state := 0; return -1; }
        if frc == 0 { return 0; }
      }
      frc := BodyStage(buf, w, was, buflen);
      if frc == -1 { state := 0; return -1; }
      if remLen > 0 { return 0; }
      rc := ReadKind(buf, w, was);
      state := 0;
    }

    method ReadKind(buf: array<byte>, ghost w: Wire, ghost was: seq<byte>) returns (rc: int)
      requires KindOf(w.h) > 0 && |Packet(w.h, w.body)| <= |was| && buf[..] == Splice(was, 0, Packet(w.h, w.body))
      ensures rc == KindOf(w.h) && rc > 0
    {
      hide KindOf;
      assert buf[..][0] == Packet(w.h, w.body)[0];
      rc := KindOf(buf[0]);
    }
  }

  lemma InputSplit(w: Wire)
    ensures |Input(w)| > 0 && Input(w)[..1] == [w.h] && Input(w)[1..] == w.field[0..] + (w.body + w.after)
    ensures WireOk(w) ==> |w.field| > 0
  {
  }

  lemma HeaderInPlace(w: Wire, was: seq<byte>)
    requires 5 <= |was| && WireOk(w)
    ensures var k := 1 + |Varint(|w.body|)|;
            && k <= |was|
            && (|Packet(w.h, w.body)| <= |was| ==>
                  Received(w, was, Splice(Splice(was, 0, Char(w.h)), 1, Varint(|w.body|)), k))
  {
    hide Varint, VarintValue, TerminatedLength;
    ShortVarintValue(w.field);
    UInt64SizeIsLength(|w.body|);
    SpliceAppend(was, 0, Char(w.h), Varint(|w.body|));
    assert Packet(w.h, w.body)[..1 + |Varint(|w.body|)|] == Char(w.h) + Varint(|w.body|);
  }

  lemma BodyStep(plan: seq<int>, n: nat, available: nat)
    requires 0 < n <= available
    ensures var g, next := Granted(plan, n, available), if plan == [] then [] else plan[1..];
            && (g < 0 ==> !BodyArrives(plan, n))
            && (g >= 0 ==> BodyArrives(plan, n) == BodyArrives(next, n - g))
            && (0 <= g < n ==> plan != [])
            && BodyArrives(next, 0)
  {
  }

  lemma BodySlices(w: Wire, j: nat, n: nat)
    requires j + n <= |w.body|
    ensures (w.body[j..] + w.after)[..n] == w.body[j..j + n]
    ensures (w.body[j..] + w.after)[n..] == w.body[j + n..] + w.after
  {
  }

  lemma BodyGrows(w: Wire, was: seq<byte>, now: seq<byte>, j: nat, n: nat)
    requires j + n <= |w.body|
    requires Received(w, was, now, 1 + |Varint(|w.body|)| + j)
    ensures var k := 1 + |Varint(|w.body|)| + j;
            k + n <= |now| && Received(w, was, Splice(now, k, w.body[j..j + n]), k + n)
  {
    var p, front := Packet(w.h, w.body), [w.h] + Varint(|w.body|);
    var k, piece := |front| + j, w.body[j..j + n];
    assert p == front + w.body;
    PrefixGrows(front, w.body, j, n);
    hide Varint, Splice, Packet;
    SpliceAppend(was, 0, p[..k], piece);
  }

  lemma PrefixGrows(front: seq<byte>, body: seq<byte>, j: nat, n: nat)
    requires j + n <= |body|
    ensures (front + body)[..|front| + j + n] == (front + body)[..|front| + j] + body[j..j + n]
  {
  }

  lemma AllReceived(w: Wire, was: seq<byte>, now: seq<byte>)
    ensures Received(w, was, now, |Packet(w.h, w.body)|) ==>
              |Packet(w.h, w.body)| <= |was| && now == Splice(was, 0, Packet(w.h, w.body))
  {
    hide Packet;
    var p := Packet(w.h, w.body);
    assert p[..|p|] == p;
  }

  /** What one more answer means for a length field of which `left` bytes are to come. */
  lemma StepArrives(plan: seq<int>, left: nat, len: nat, w: Wire, buflen: nat)
    requires left > 0
    ensures len >= 4 ==> !LengthArrives(plan, left, len, w, buflen)
    ensures var next := if plan == [] then [] else plan[1..];
            LengthArrives(plan, left, len, w, buflen) ==
              if plan == [] || plan[0] > 0 then LengthArrives(next, left - 1, len + 1, w, buflen)
              else plan[0] == 0 && LengthArrives(next, left, len + 1, w, buflen)
  {
    hide Packet, BodyArrives;
  }

  lemma NowArrives(plan: seq<int>, len: nat, w: Wire, buflen: nat)
    requires len <= 4
    ensures LengthArrives(plan, 0, len, w, buflen) == (|Packet(w.h, w.body)| <= buflen && BodyArrives(plan, |w.body|))
  {
  }

  lemma EmptyField(field: seq<byte>)
    ensures VarintValue(field[..0]) == 0 && Pow128(0) == 1
  {
  }

  lemma FieldGrows(w: Wire, g: nat)
    requires WireOk(w) && g < |w.field|
    ensures VarintValue(w.field[..g + 1]) == VarintValue(w.field[..g]) + Low7(w.field[g]) * Pow128(g)
    ensures g + 1 == |w.field| <==> w.field[g] < 128
    ensures g + 1 == |w.field| ==> VarintValue(w.field[..g + 1]) == |w.body|
    ensures (w.field[g..] + (w.body + w.after))[0] == w.field[g]
    ensures (w.field[g..] + (w.body + w.after))[1..] == w.field[g + 1..] + (w.body + w.after)
  {
    VarintValueSnoc(w.field[..g], w.field[g]);
    assert w.field[..g + 1] == w.field[..g] + [w.field[g]];
    if g + 1 == |w.field| { assert w.field[..g + 1] == w.field; }
  }

  /**
   Called again for as long as it answers 0, the non-blocking reader ends with what one blocking read of the whole
   input yields, in the same buffer, unless the source fails or hesitates too often in the length field.
   */
  method ReadInPieces(trp: Transport, buf: array<byte>, buflen: nat, ghost w: Wire) returns (rc: int)
    requires trp.state == 0 && trp.src.Valid() && trp.src.Rest() == Input(w)
    requires WireOk(w) && buflen <= buf.Length && 5 <= buf.Length
    modifies trp, trp.src, buf
    ensures if Arrives(old(trp.src.plan), w, buflen) then
              && rc == KindOf(w.h) && trp.src.Valid() && trp.src.Rest() == w.after
              && |Packet(w.h, w.body)| <= buf.Length
              && buf[..] == Splice(old(buf[..]), 0, Packet(w.h, w.body))
              && Fetched(old(trp.src.Rest())) == Some(Packet(w.h, w.body))
            else rc == -1
    ensures trp.state == 0
  {
    hide KindOf, Splice, Arrives, Input, Packet, Fetched;
    WireFetched(w);
    ghost var was, arrives := buf[..], Arrives(trp.src.plan, w, buflen);
    rc := 0;
    while rc == 0
      invariant rc == 0 ==> trp.InProgress(w, was, buf[..], buflen) && trp.WillArrive(w, buflen) == arrives
      invariant rc > 0 ==>
                  && arrives && rc == KindOf(w.h) && trp.src.Valid() && trp.src.Rest() == w.after
                  && |Packet(w.h, w.body)| <= |was| && buf[..] == Splice(was, 0, Packet(w.h, w.body))
      invariant rc < 0 ==> rc == -1 && !arrives
      invariant rc != 0 ==> trp.state == 0
      decreases if rc == 0 then 1 else 0, |trp.src.plan|
    {
      rc := trp.ReadNb(buf, buflen, w, was);
    }
  }
}
