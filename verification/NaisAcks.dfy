/** The acknowledgements of the board and the tape of the junction: what it takes of each, and what it leaves. */
module NaisAcks {
  import opened Bytes
  import opened Base128
  import opened NaisFrame
  import opened NaisTape
  import opened NaisMessages
  import opened NaisRemains
  import NaisRouting

  function AckFrame(dline: byte, id: byte, status: Option<int>): seq<byte>
    requires status.Some? ==> IsI32(status.value)
  {
    Frame(Head(ACK_TYPE, 0, dline, 0), AckBytes(id, status))
  }

  /** Neither the connection nor the message type is 30, and the status does not begin with a group of 30. */
  predicate NoThirty(dline: byte, id: byte, status: Option<int>)
    requires status.Some? ==> IsI32(status.value)
  {
    dline != 30 && id != 30 && (status.Some? ==> TopGroup(Extend64(status.value)) != 30)
  }

  lemma AckLayout(dline: byte, id: byte, status: Option<int>)
    requires status.Some? ==> IsI32(status.value)
    ensures var f, n := AckFrame(dline, id, status), |AckBytes(id, status)|;
            f == [RECORD_START, ACK_TYPE, 0, dline, 0, n] + AckBytes(id, status) + [RECORD_END] && n <= 14
  {
    AckEncodes(id, status);
    hide AckBytes;
    assert Varint(|AckBytes(id, status)|) == [|AckBytes(id, status)|];
  }

  /** An acknowledgement has a second start delimiter in it exactly if one of three numbers is 30. */
  lemma AckIsTidy(dline: byte, id: byte, status: Option<int>)
    requires status.Some? ==> IsI32(status.value)
    ensures OneStart(AckFrame(dline, id, status)) <==> NoThirty(dline, id, status)
  {
    hide AckFrame;
    var f, bytes := AckFrame(dline, id, status), AckBytes(id, status);
    AckLayout(dline, id, status);
    assert f[1..] == [ACK_TYPE, 0, dline, 0, |bytes|] + bytes + [RECORD_END];
    assert OneStart(f) <==> RECORD_START !in f[1..] by { StartIn(f); }
    StartInVarint(id);
    if status.Some? { StartInVarint(Extend64(status.value)); }
  }

  lemma StartIn(f: seq<byte>)
    requires f != []
    ensures OneStart(f) <==> RECORD_START !in f[1..]
  {
    if RECORD_START !in f[1..] {
      forall i | 1 <= i < |f| ensures f[i] != RECORD_START {
        assert f[1..][i - 1] == f[i];
      }
    }
  }

  /** The one acknowledgement of which the tape takes a part: for connection 30, of a long id, with status 23. */
  predicate Truncated(dline: byte, id: byte, status: Option<int>)
  {
    dline == 30 && id >= 128 && status == Some(23)
  }

  /** A status of five groups or more behind the id 30: its fourth group is taken for the start of a length. */
  predicate Deafening(id: byte, status: Option<int>)
    requires status.Some? ==> IsI32(status.value)
  {
    id == 30 && status.Some? && |Varint(Extend64(status.value))| >= 5
  }

  /**
   What the tape takes of an acknowledgement, exactly: all of it without a 30, eleven bytes of the exceptional one, and
   nothing of any other. After such a one the next frame is joined to it, or the tape is deaf.
   */
  lemma AckTakes(dline: byte, id: byte, status: Option<int>)
    requires status.Some? ==> IsI32(status.value)
    ensures var f := AckFrame(dline, id, status);
            && Taken(FRESH, f) == (if NoThirty(dline, id, status) then |f|
                                   else if Truncated(dline, id, status) then 11 else 0)
            && (Taken(FRESH, f) == 0 ==> if Deafening(id, status) then Deaf(f) else Open(f))
  {
    hide AckFrame, AckBytes, Taken, Open, Deaf, Begun, Varint, TopGroup;
    var f := AckFrame(dline, id, status);
    if NoThirty(dline, id, status) {
      AckIsTidy(dline, id, status);
      AckTaken(dline, id, status);
      AckLong(dline, id, status);
    } else {
      AckLong(dline, id, status);
      BegunAtFirst(f);
      if dline == 30 { LineBegins(id, status); }
      if id == 30 {
        IdBegins(dline, status);
        FromId(dline, status);
      } else if dline == 30 {
        FromLine(id, status);
      } else {
        FromFirst(dline, id, status.value);
      }
    }
  }

  lemma AckLong(dline: byte, id: byte, status: Option<int>)
    requires status.Some? ==> IsI32(status.value)
    ensures var f := AckFrame(dline, id, status); |f| >= 9 && f[0] == RECORD_START
  {
    AckLayout(dline, id, status);
    ShortId(id);
  }

  /** So it is recognised as it is exactly without a 30. */
  lemma AckRecognised(dline: byte, id: byte, status: Option<int>)
    requires status.Some? ==> IsI32(status.value)
    ensures Whole(AckFrame(dline, id, status)) <==> NoThirty(dline, id, status)
  {
    hide AckFrame, Taken, NoThirty;
    AckTakes(dline, id, status);
    if Truncated(dline, id, status) { TruncatedLength(id); }
    AckLong(dline, id, status);
  }

  lemma TruncatedLength(id: byte)
    requires id >= 128
    ensures AckFrame(30, id, Some(23)) ==
            [RECORD_START, ACK_TYPE, 0, 30, 0, 5, 8, id % 128 + 128, 1, 24, 23, RECORD_END]
  {
    AckLayout(30, id, Some(23));
    ShortId(id);
    assert Varint(23) == [23];
  }

  /** So the answer of the handler meets the condition of the routing theorem exactly without a 30. */
  lemma AnswerIsTidy(s: NaisRouting.Junction, line: nat, index: nat, h: nat, id: byte, status: Option<int>)
    requires status.Some? ==> IsI32(status.value)
    requires NaisRouting.Formed(s) && NaisRouting.Enabled(s, NaisRouting.Answer(line, index, h, AckBytes(id, status)))
    ensures NaisRouting.TidyEvent(s, NaisRouting.Answer(line, index, h, AckBytes(id, status))) <==>
            NoThirty(s.handed[h].content[SLINE - 1], id, status)
  {
    hide NaisRouting.Formed, AckBytes;
    var d := s.handed[h].content[SLINE - 1];
    assert NaisRouting.Ack(s.handed[h].content, AckBytes(id, status)) == AckFrame(d, id, status);
    AckIsTidy(d, id, status);
    AckRecognised(d, id, status);
    AckEncodes(id, status);
    if NoThirty(d, id, status) { NaisRouting.OneStartIsTidy(Head(ACK_TYPE, 0, d, 0), AckBytes(id, status)); }
  }

  lemma AckTaken(dline: byte, id: byte, status: Option<int>)
    requires status.Some? ==> IsI32(status.value)
    requires OneStart(AckFrame(dline, id, status))
    ensures Whole(AckFrame(dline, id, status))
  {
    AckEncodes(id, status);
    hide AckBytes;
    FrameTaken(Head(ACK_TYPE, 0, dline, 0), AckBytes(id, status), []);
  }

  // ---------- from start delimiter to start delimiter ----------

  lemma LineBegins(id: byte, status: Option<int>)
    requires status.Some? ==> IsI32(status.value)
    ensures Begun(AckFrame(30, id, status), 3)
  {
    hide AckFrame, AckBytes, Begun, TailTaken;
    var f := AckFrame(30, id, status);
    AckLayout(30, id, status);
    AckLong(30, id, status);
    BegunAtFirst(f);
    assert f[1..3] == [ACK_TYPE, 0];
    ShortTail(f[1..3]);
    Onward(f, 0, 3);
  }

  lemma ShortTail(g: seq<byte>)
    requires |g| <= 5
    ensures TailTaken(6, 1, g) == 0
  {
    TailIsLonger(6, 1, g);
  }

  lemma IdBegins(dline: byte, status: Option<int>)
    requires status.Some? ==> IsI32(status.value)
    requires Begun(AckFrame(dline, 30, status), if dline == 30 then 3 else 0)
    ensures Begun(AckFrame(dline, 30, status), 7)
  {
    hide AckFrame, AckBytes, Begun, TailTaken;
    var f, n := AckFrame(dline, 30, status), |AckBytes(30, status)|;
    AckLayout(dline, 30, status);
    IdBytes(status);
    assert f[7] == RECORD_START && f[4..7] == [0, n, 8] && f[1..7] == [ACK_TYPE, 0, dline, 0, n, 8];
    if dline == 30 {
      ShortTail(f[4..7]);
      Onward(f, 3, 7);
    } else {
      IdBehindFirst(f, dline, n);
    }
  }

  lemma IdBehindFirst(f: seq<byte>, dline: byte, n: nat)
    requires Begun(f, 0) && |f| > 7 && f[7] == RECORD_START && 2 <= n < 30 && dline != 30
    requires f[1..7] == [ACK_TYPE, 0, dline, 0, n, 8]
    ensures Begun(f, 7)
  {
    hide Begun, TailTaken;
    var g := f[1..7];
    assert forall i :: 0 <= i < 6 ==> g[i] != RECORD_START;
    assert f[0 + 5] == g[4] == n;
    ShortLength(g);
    Onward(f, 0, 7);
  }

  lemma IdBytes(status: Option<int>)
    requires status.Some? ==> IsI32(status.value)
    ensures AckBytes(30, status) == [8, 30] + if status.Some? then [24] + Varint(Extend64(status.value)) else []
    ensures 2 <= |AckBytes(30, status)| < 30
  {
    ShortId(30);
    AckEncodes(30, status);
  }

  lemma FromId(dline: byte, status: Option<int>)
    requires (status.Some? ==> IsI32(status.value)) && Begun(AckFrame(dline, 30, status), 7)
    ensures var f := AckFrame(dline, 30, status);
            Taken(FRESH, f) == 0 && if Deafening(30, status) then Deaf(f) else Open(f)
  {
    hide AckFrame, AckBytes, Begun, TailTaken, Taken, Open, Deaf, Varint, TopGroup;
    var f := AckFrame(dline, 30, status);
    AckLayout(dline, 30, status);
    IdBytes(status);
    if status.None? {
      assert f[8..] == [RECORD_END];
      ShortTail(f[8..]);
      ToTheEnd(f, 7);
    } else {
      var v := Varint(Extend64(status.value));
      assert f[8..] == [24] + v + [RECORD_END];
      StatusBehindId(f, v, Extend64(status.value));
    }
  }

  lemma StatusBehindId(f: seq<byte>, v: seq<byte>, e: nat)
    requires Begun(f, 7) && v == Varint(e) && |f| >= 8 && f[8..] == [24] + v + [RECORD_END]
    ensures Taken(FRESH, f) == 0 && if |v| >= 5 then Deaf(f) else Open(f)
  {
    hide Begun, TailTaken, Taken, Open, Deaf, Varint, TopGroup;
    StartInVarint(e);
    forall i | 0 <= i < |v| ensures v[i] >= 128 <==> i < |v| - 1 { VarintBytes(e, i); }
    assert |f| == |v| + 10;
    assert forall i :: 0 <= i < |v| ==> f[9 + i] == f[8..][1 + i] == v[i];
    if v[|v| - 1] == RECORD_START {
      StartBehindId(f, v);
    } else {
      if |v| >= 4 { LongStatusTail(e); } else { ShortTail(f[8..]); }
      ToTheEnd(f, 7);
    }
  }

  lemma StartBehindId(f: seq<byte>, v: seq<byte>)
    requires Begun(f, 7) && v != [] && |f| == |v| + 10 && f[8..] == [24] + v + [RECORD_END]
    requires forall i | 0 <= i < |v| :: (v[i] >= 128 <==> i < |v| - 1) && f[9 + i] == v[i]
    requires v[|v| - 1] == RECORD_START
    ensures Taken(FRESH, f) == 0 && if |v| >= 5 then Deaf(f) else Open(f)
  {
    hide Begun, TailTaken, Taken, Open, Deaf;
    var q := |f| - 2;
    var g := f[8..q];
    assert g == [24] + v[..|v| - 1];
    HighTail(g);
    assert f[q + 1..] == [RECORD_END] && f[q] == v[|v| - 1];
    assert |v| >= 4 ==> f[7 + 5] == v[3];
    if |v| >= 5 {
      DeafAtTheEnd(f, 7, q);
    } else {
      LateStart(f, 7, q);
    }
  }

  lemma HighTail(g: seq<byte>)
    requires forall i :: 4 <= i < |g| ==> g[i] >= 128
    ensures TailTaken(6, 1, g) == 0
  {
    assert |g| > 4 ==> forall i :: 0 <= i < |g| - 4 ==> g[4..][i] == g[4 + i];
  }

  /** The status with its tag. */
  function StatusBytes(status: Option<int>): seq<byte>
    requires status.Some? ==> IsI32(status.value)
  {
    if status.Some? then [24] + Varint(Extend64(status.value)) else []
  }

  lemma StatusLayout(status: Option<int>)
    requires status.Some? ==> IsI32(status.value)
    ensures var s := StatusBytes(status);
            && |s| <= 11 && (status.None? <==> s == []) && (s != [] ==> |s| >= 2 && s[0] == 24)
            && (RECORD_START in s <==> status.Some? && TopGroup(Extend64(status.value)) == 30)
            && (RECORD_START in s ==> s[|s| - 1] == RECORD_START && RECORD_START !in s[..|s| - 1])
            && (|s| >= 3 ==> s[1] >= 128)
            && (|s| == 2 ==> (s[1] == 23 <==> status == Some(23))) && (status == Some(23) ==> s == [24, 23])
  {
    if status.Some? {
      var e := Extend64(status.value);
      var v := Varint(e);
      Int32SizeIsLength(status.value);
      StartInVarint(e);
      forall i | 0 <= i < |v| ensures v[i] >= 128 <==> i < |v| - 1 { VarintBytes(e, i); }
      VarintRoundTrip(e);
      if |v| == 1 { OneByte(e); }
    }
  }

  lemma OneByte(e: nat)
    requires |Varint(e)| == 1
    ensures e < 128 && Varint(e) == [e]
  {
  }

  lemma FromLine(id: byte, status: Option<int>)
    requires (status.Some? ==> IsI32(status.value)) && id != 30 && Begun(AckFrame(30, id, status), 3)
    ensures var f := AckFrame(30, id, status);
            if Truncated(30, id, status) then Taken(FRESH, f) == 11 else Taken(FRESH, f) == 0 && Open(f)
  {
    hide AckFrame, AckBytes, Begun, TailTaken, Taken, Open, Deaf, Varint, TopGroup, StatusBytes;
    var f, s := AckFrame(30, id, status), StatusBytes(status);
    AckLayout(30, id, status);
    StatusLayout(status);
    ShortId(id);
    var front: seq<byte> := [0, |AckBytes(id, status)|, 8] + Varint(id);
    assert AckBytes(id, status) == [8] + Varint(id) + s by { SplitBytes(id, status); }
    assert f[4..] == front + s + [RECORD_END];
    LineCases(f, front, s, id);
  }

  lemma LineCases(f: seq<byte>, front: seq<byte>, s: seq<byte>, id: byte)
    requires Begun(f, 3) && |f| > 4 && f[4..] == front + s + [RECORD_END] && RECORD_START !in front
    requires |front| == (if id < 128 then 4 else 5) && (id >= 128 ==> front[4] == 1)
    requires |s| <= 11 && (s != [] ==> |s| >= 2 && s[0] == 24) && (|s| >= 3 ==> s[1] >= 128)
    requires RECORD_START in s ==> s[|s| - 1] == RECORD_START && RECORD_START !in s[..|s| - 1]
    ensures if id >= 128 && |s| == 2 && s[1] == RECORD_END then Taken(FRESH, f) == 11
            else Taken(FRESH, f) == 0 && Open(f)
  {
    hide Begun, TailTaken, Taken, Open, Deaf;
    var q := |f| - 2;
    if RECORD_START in s {
      assert f[4..q] == front + s[..|s| - 1] && f[q + 1..] == [RECORD_END] && f[q] == s[|s| - 1];
      LineTail(f[4..q], front, s[..|s| - 1], id);
      LateStart(f, 3, q);
    } else {
      assert f[4..] == front + (s + [RECORD_END]);
      LineTail(f[4..], front, s + [RECORD_END], id);
      assert RECORD_START !in f[4..];
      ToTheEnd(f, 3);
    }
  }

  /** A last start delimiter with nothing but the end behind it. */
  lemma LateStart(f: seq<byte>, p: nat, q: nat)
    requires Begun(f, p) && p < q == |f| - 2 && f[q] == RECORD_START && f[q + 1..] == [RECORD_END]
    requires NoStart(f[p + 1..q]) && TailTaken(6, 1, f[p + 1..q]) == 0 && (q - p <= 5 || f[p + 5] < 128)
    ensures Taken(FRESH, f) == 0 && Open(f)
  {
    hide Begun, TailTaken, Taken, Open, Deaf;
    Onward(f, p, q);
    ShortTail(f[q + 1..]);
    ToTheEnd(f, q);
  }

  lemma SplitBytes(id: byte, status: Option<int>)
    requires status.Some? ==> IsI32(status.value)
    ensures AckBytes(id, status) == [8] + Varint(id) + StatusBytes(status)
  {
  }

  /** What stands behind the id decides: 24 or 23 for a short one, the last group of the id for a long one. */
  lemma LineTail(g: seq<byte>, front: seq<byte>, rest: seq<byte>, id: byte)
    requires g == front + rest && |front| == (if id < 128 then 4 else 5) && |rest| <= 12
    requires id >= 128 ==> front[4] == 1
    requires id < 128 && rest != [] ==> rest[0] == 23 || rest[0] == 24
    ensures |g| > 4 ==> g[4] < 128
    ensures TailTaken(6, 1, g) == if id >= 128 && |rest| >= 2 && rest[1] == RECORD_END then 7 else 0
  {
    if |g| > 4 { ShortLength(g); } else { ShortTail(g); }
  }

  lemma FromFirst(dline: byte, id: byte, status: int)
    requires IsI32(status) && dline != 30 && id != 30 && TopGroup(Extend64(status)) == 30
    requires Begun(AckFrame(dline, id, Some(status)), 0)
    ensures Taken(FRESH, AckFrame(dline, id, Some(status))) == 0 && Open(AckFrame(dline, id, Some(status)))
  {
    hide AckFrame, AckBytes, Begun, TailTaken, Taken, Open, Deaf, Varint, TopGroup, StatusBytes;
    var f, s, n := AckFrame(dline, id, Some(status)), StatusBytes(Some(status)), |AckBytes(id, Some(status))|;
    AckLayout(dline, id, Some(status));
    StatusLayout(Some(status));
    ShortId(id);
    SplitBytes(id, Some(status));
    var q := |f| - 2;
    var front: seq<byte> := [ACK_TYPE, 0, dline, 0, n, 8] + Varint(id);
    assert f[1..q] == front + s[..|s| - 1] && f[q + 1..] == [RECORD_END] && f[q] == s[|s| - 1];
    assert RECORD_START !in front;
    ShortLength(f[1..q]);
    LateStart(f, 0, q);
  }

  lemma LongStatusTail(e: nat)
    requires |Varint(e)| >= 4
    ensures var g := [24] + Varint(e) + [RECORD_END]; TailTaken(6, 1, g) == 0
  {
    var v, q := Varint(e), e / 128 / 128 / 128;
    var g := [24] + v + [RECORD_END];
    ThreeGroups(e);
    assert g[4..] == Varint(q) + [RECORD_END];
    VarintTerminates(q, [RECORD_END], |g|);
    VarintRoundTrip(q);
    assert g[4..4 + |Varint(q)|] == Varint(q);
    assert Times(q, 1) == q;
  }

  lemma ThreeGroups(e: nat)
    requires |Varint(e)| >= 4
    ensures Varint(e)[3..] == Varint(e / 128 / 128 / 128) && e / 128 / 128 / 128 >= 1
  {
    hide Varint, TopGroup;
    StartInVarint(e);
    Quotients(e);
    var a, b := e / 128, e / 128 / 128;
    OneMore(e);
    OneMore(a);
    OneMore(b);
    var v := Varint(e);
    assert v[1..] == Varint(a) && v[1..][1..] == Varint(b) && v[1..][1..][1..] == Varint(b / 128);
    assert v[1..][1..] == v[2..] && v[2..][1..] == v[3..];
  }

  lemma Quotients(e: nat)
    requires e >= 128 * 128 * 128
    ensures e / 128 >= 128 * 128 && e / 128 / 128 >= 128 && e / 128 / 128 / 128 >= 1
  {
  }

  lemma OneMore(v: nat)
    requires v >= 128
    ensures Varint(v) == [v % 128 + 128] + Varint(v / 128)
  {
  }
}
