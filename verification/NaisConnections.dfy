/** Who is connected: what connecting and disconnecting change, and what gets written from then on. */
module NaisConnections {
  import opened NaisFrame
  import opened NaisRouting
  import NaisTape
  import NaisUart

  /** `a` stands in front of `b`. */
  predicate Ahead(writers: seq<nat>, a: nat, b: nat)
  {
    exists i, j :: 0 <= i < j < |writers| && writers[i] == a && writers[j] == b
  }

  /** The newcomer has the next number and stands behind the others of its line; all else is as it was. */
  lemma WhoConnects(s: Junction, line: nat)
    requires Inv(s) && line < |s.lines|
    ensures var next := Step(s, Connect(line));
            && next.sid == s.sid + 1 && |next.lines| == |s.lines|
            && next.lines[line].writers == s.lines[line].writers + [s.sid + 1]
            && next.lines[line].queue == s.lines[line].queue && next.lines[line].peers == s.lines[line].peers
            && (forall l :: 0 <= l < |s.lines| && l != line ==> next.lines[l] == s.lines[l])
            && next.wires == s.wires + [[]] && next.handed == s.handed && next.log == s.log
            && forall l :: 0 <= l < |s.lines| ==> s.sid + 1 !in s.lines[l].writers
  {
    forall l | 0 <= l < |s.lines| ensures s.sid + 1 !in s.lines[l].writers {
      assert LineFormed(s.lines[l], |s.lines|, s.sid);
    }
  }

  /** The connection that has gone is nowhere any more; every other one is where it was, in the same order. */
  lemma WhoDisconnects(s: Junction, line: nat, index: nat)
    requires Inv(s) && Connected(s, line, index)
    ensures var k, next := s.lines[line].writers[index], Step(s, Disconnect(line, index));
            && 1 <= k <= s.sid && Gone(next, k) && next.sid == s.sid && |next.lines| == |s.lines|
            && (forall x :: x != k ==> (x in next.lines[line].writers <==> x in s.lines[line].writers))
            && (forall x, y :: x != k && y != k ==>
                  (Ahead(next.lines[line].writers, x, y) <==> Ahead(s.lines[line].writers, x, y)))
            && next.lines[line].queue == s.lines[line].queue && next.lines[line].peers == s.lines[line].peers
            && next.lines[line].dispatchers == s.lines[line].dispatchers
            && (forall l :: 0 <= l < |s.lines| && l != line ==> next.lines[l] == s.lines[l])
            && next.wires == s.wires && next.handed == s.handed && next.log == s.log
  {
    hide LineFormed;
    var w, k := s.lines[line].writers, Conn(s, line, index);
    var next := Step(s, Disconnect(line, index));
    var v := next.lines[line].writers;
    LeftOut(w, index);
    forall l | 0 <= l < |s.lines| ensures k !in next.lines[l].writers {
      if l != line { assert Apart(s.lines[line], s.lines[l]); }
    }
  }

  lemma LeftOut(w: seq<nat>, i: nat)
    requires i < |w| && Distinct(w)
    ensures var v := w[..i] + w[i + 1..];
            && w[i] !in v && (forall x :: x != w[i] ==> (x in v <==> x in w))
            && forall x, y :: x != w[i] && y != w[i] ==> (Ahead(v, x, y) <==> Ahead(w, x, y))
  {
    var v := w[..i] + w[i + 1..];
    assert forall j :: 0 <= j < |v| ==> v[j] == w[if j < i then j else j + 1];
    assert forall j :: 0 <= j < |w| && j != i ==> w[j] == v[if j < i then j else j - 1];
    hide Distinct, Ahead;
    forall x, y | x != w[i] && y != w[i] ensures Ahead(v, x, y) <==> Ahead(w, x, y) {
      SameOrder(v, w, i, x, y);
    }
  }

  lemma SameOrder(v: seq<nat>, w: seq<nat>, i: nat, x: nat, y: nat)
    requires i < |w| && |v| == |w| - 1 && x != w[i] && y != w[i]
    requires forall j :: 0 <= j < |v| ==> v[j] == w[if j < i then j else j + 1]
    requires forall j :: 0 <= j < |w| && j != i ==> w[j] == v[if j < i then j else j - 1]
    ensures Ahead(v, x, y) <==> Ahead(w, x, y)
  {
    if Ahead(v, x, y) {
      var a, b :| 0 <= a < b < |v| && v[a] == x && v[b] == y;
      assert w[if a < i then a else a + 1] == x && w[if b < i then b else b + 1] == y;
    }
    if Ahead(w, x, y) {
      var a, b :| 0 <= a < b < |w| && w[a] == x && w[b] == y;
      assert v[if a < i then a else a - 1] == x && v[if b < i then b else b - 1] == y;
    }
  }

  // ---------- what is written from then on ----------

  /** Over every later run nothing is written to a connection that has gone. */
  lemma {:induction false} NothingToTheGone(s: Junction, es: seq<Event>, k: nat)
    requires Inv(s) && Possible(s, es) && Gone(s, k)
    ensures |s.log| <= |Run(s, es).log| && Gone(Run(s, es), k)
    ensures forall i :: |s.log| <= i < |Run(s, es).log| ==> Run(s, es).log[i].to != k
    decreases |es|
  {
    if es != [] {
      hide Gone;
      var next := Step(s, es[0]);
      StepKeepsInv(s, es[0]);
      GoneAfterStep(s, es[0], k);
      NotWritten(s, es[0], k);
      NothingToTheGone(next, es[1..], k);
      RunKeepsInv(next, es[1..]);
      assert forall i :: |s.log| <= i < |next.log| ==> Run(s, es).log[i] == next.log[i];
    }
  }

  lemma NotWritten(s: Junction, e: Event, k: nat)
    requires Inv(s) && Enabled(s, e) && Gone(s, k)
    ensures forall i :: |s.log| <= i < |Step(s, e).log| ==> Step(s, e).log[i].to != k
  {
    if e.Dispatch? { DispatchWrites(s, e.line, k); }
  }

  lemma DispatchWrites(s: Junction, line: nat, k: nat)
    requires Inv(s) && Enabled(s, Dispatch(line)) && k !in s.lines[line].writers
    ensures var next := Step(s, Dispatch(line));
            forall i :: |s.log| <= i < |next.log| ==> next.log[i].to != k
  {
    hide Inv, Distinct, AcceptAll;
    FormedByInv(s);
    var l := s.lines[line];
    assert LineFormed(l, |s.lines|, s.sid);
    if Stampable(l.queue[0]) {
      assert Step(s, Dispatch(line)).log == s.log + Writes(l.writers, l.queue[0]);
    }
  }

  /** So a connection is written to until it disconnects, and never after that. */
  lemma NothingAfterDisconnect(s: Junction, line: nat, index: nat, es: seq<Event>)
    requires Inv(s) && Connected(s, line, index) && Possible(s, [Disconnect(line, index)] + es)
    ensures var k, end := s.lines[line].writers[index], Run(s, [Disconnect(line, index)] + es);
            forall i :: |s.log| <= i < |end.log| ==> end.log[i].to != k
  {
    hide Inv, Gone, Step, Enabled, Formed;
    FormedByInv(s);
    var all := [Disconnect(line, index)] + es;
    assert all[0] == Disconnect(line, index) && all[1..] == es;
    WhoDisconnects(s, line, index);
    StepKeepsInv(s, all[0]);
    NothingToTheGone(Step(s, all[0]), es, s.lines[line].writers[index]);
  }

  /** Connection `k` is not the one that any of these events disconnects. */
  predicate Stays(s: Junction, es: seq<Event>, k: nat)
    requires Formed(s) && Possible(s, es)
    decreases |es|
  {
    es == [] || ((es[0].Disconnect? ==> Conn(s, es[0].line, es[0].index) != k) && Stays(Step(s, es[0]), es[1..], k))
  }

  lemma StepKeepsConnected(s: Junction, e: Event, line: nat, k: nat)
    requires Inv(s) && Enabled(s, e) && line < |s.lines| && k in s.lines[line].writers
    requires e.Disconnect? ==> Conn(s, e.line, e.index) != k
    ensures |Step(s, e).lines| == |s.lines| && k in Step(s, e).lines[line].writers
  {
    match e
    case Connect(l) => WhoConnects(s, l);
    case Disconnect(l, i) => WhoDisconnects(s, l, i);
    case Read(l, i) =>
      var c := Conn(s, l, i);
      assert LineFormed(s.lines[l], |s.lines|, s.sid);
      MessageOk(s, c);
      PutAllFormed(s.lines, s.lines[l].peers, Message(s, c), s.sid);
    case _ =>
  }

  /** Over every run in which it does not disconnect itself, a connection stays on its line. */
  lemma {:induction false} StaysConnected(s: Junction, es: seq<Event>, line: nat, k: nat)
    requires Inv(s) && Possible(s, es) && Stays(s, es, k) && line < |s.lines| && k in s.lines[line].writers
    ensures |Run(s, es).lines| == |s.lines| && k in Run(s, es).lines[line].writers
    decreases |es|
  {
    if es != [] {
      hide Inv, Step;
      StepKeepsInv(s, es[0]);
      StepKeepsConnected(s, es[0], line, k);
      StaysConnected(Step(s, es[0]), es[1..], line, k);
    }
  }

  /** And an answer to it is still written, once, whoever else has come or gone meanwhile. */
  lemma AnswerStillWritten(s: Junction, es: seq<Event>, line: nat, k: nat)
    requires Inv(s) && Orderly(s) && Possible(s, es) && AllTidy(s, es) && Stays(s, es, k)
    requires line < |s.lines| && k in s.lines[line].writers && Formed(Run(s, es))
    requires |Run(s, es).lines| == |s.lines| && Enabled(Run(s, es), Dispatch(line))
    requires var p := Run(s, es).lines[line].queue[0]; p.causes == {k} && Stampable(p)
    ensures var end := Run(s, es);
            var p := end.lines[line].queue[0];
            && WellSized(p.data)
            && Step(end, Dispatch(line)).log == end.log + [Write(k, Stamped(p), p.srcLine, {k})]
  {
    hide Inv, Orderly, Step, Formed;
    FormedByInv(s);
    StaysConnected(s, es, line, k);
    RunKeepsInv(s, es);
    RunKeepsOrder(s, es);
    AnswerWrittenOnce(Run(s, es), line);
    assert k in {k};
  }

  // ---------- packets ----------

  /** A frame gets its source written over its third byte, which takes a number below 256; text goes out as it is. */
  lemma PacketMeaning(p: Packet)
    requires WellSized(p.data)
    ensures var framed := p.data != [] && p.data[0] == 0x1E;
            && (Stampable(p) <==> !framed || p.srcLine <= 255)
            && DstLine(p) == (if framed then p.data[3] as int else 0)
            && (Stampable(p) ==> Stamped(p) == if framed then p.data[2 := p.srcLine] else p.data)
  {
  }

  /** What is read is what the tape takes off the wire, with the number of the connection it was read from. */
  lemma WhatIsRead(s: Junction, line: nat, index: nat)
    requires Inv(s) && Enabled(s, Read(line, index))
    ensures var next, k := Step(s, Read(line, index)), s.lines[line].writers[index];
            var n := NaisTape.Taken(NaisTape.FRESH, Plain(s.wires[k]));
            var p := Packet(Plain(s.wires[k])[..n], k, Causes(s.wires[k][..n]));
            && |next.lines| == |s.lines| && |next.wires| == |s.wires|
            && (forall l :: 0 <= l < |s.lines| ==>
                  next.lines[l] == s.lines[l].(queue := s.lines[l].queue
                                                        + Copies(p, Occurrences(s.lines[line].peers, l))))
            && next.wires[k] == s.wires[k][n..]
            && (forall c :: 0 <= c < |s.wires| && c != k ==> next.wires[c] == s.wires[c])
            && next.log == s.log && next.handed == s.handed
  {
    var k := Conn(s, line, index);
    assert LineFormed(s.lines[line], |s.lines|, s.sid);
    forall l | 0 <= l < |s.lines|
      ensures Step(s, Read(line, index)).lines[l] ==
              s.lines[l].(queue := s.lines[l].queue + Copies(Message(s, k), Occurrences(s.lines[line].peers, l)))
    {
      PutAllLeaves(s.lines, s.lines[line].peers, Message(s, k), l);
    }
  }

  /** What a board hands on comes from the connection of this write, and of those that began it. */
  lemma OriginsAddUp(b: Board, w: Write, i: nat)
    requires i < |Receive(b, w).1|
    ensures var h := Receive(b, w).1[i];
            && h.at == w.to && h.content == NaisUart.Run(b.loop, w.data).1[i]
            && h.origins == if b.loop.sts == NaisUart.WaitStart then {w.sender} else b.origins + {w.sender}
  {
    assert {} + {w.sender} == {w.sender};
  }

  // ---------- a line that falls silent ----------

  /** Nothing is dispatched any more on this line. */
  predicate Silent(s: Junction, line: nat)
  {
    line < |s.lines| && s.lines[line].dispatchers == 0 && s.lines[line].writers != []
  }

  /** A message from a connection whose number is no byte ends the dispatching task of the line it is written to. */
  lemma BigNumberSilences(s: Junction, line: nat)
    requires Inv(s) && Enabled(s, Dispatch(line)) && s.lines[line].dispatchers == 1
    requires var p := s.lines[line].queue[0];
             && IsProtobuf(p.data) && p.srcLine >= 256
             && exists i :: 0 <= i < |s.lines[line].writers|
                            && (p.data[DLINE] == 0 || s.lines[line].writers[i] == p.data[DLINE])
    ensures Silent(Step(s, Dispatch(line)), line) && Step(s, Dispatch(line)).log == s.log
  {
    hide Writes, AcceptAll;
    var l := s.lines[line];
    assert LineFormed(l, |s.lines|, s.sid);
    var i :| 0 <= i < |l.writers| && (l.queue[0].data[DLINE] == 0 || l.writers[i] == l.queue[0].data[DLINE]);
    assert Addressed(l.writers[i], l.queue[0]);
    assert SomeoneAddressed(l.writers, l.queue[0]) && !Stampable(l.queue[0]);
    assert Dequeue(s, line).lines[line].writers == l.writers;
  }

  /** A silent line stays so over every run in which it always has a connection: only the first one starts a task. */
  lemma {:induction false} StaysSilent(s: Junction, es: seq<Event>, line: nat, k: nat)
    requires Inv(s) && Possible(s, es) && Silent(s, line) && k in s.lines[line].writers && Stays(s, es, k)
    ensures Formed(Run(s, es)) && Silent(Run(s, es), line) && !Enabled(Run(s, es), Dispatch(line))
    decreases |es|
  {
    if es != [] {
      StepKeepsInv(s, es[0]);
      StepKeepsConnected(s, es[0], line, k);
      StepStaysSilent(s, es[0], line);
      hide Inv, Step;
      StaysSilent(Step(s, es[0]), es[1..], line, k);
    }
  }

  lemma StepStaysSilent(s: Junction, e: Event, line: nat)
    requires Inv(s) && Enabled(s, e) && Silent(s, line)
    ensures |Step(s, e).lines| == |s.lines| && Step(s, e).lines[line].dispatchers == 0
  {
    if e.Read? {
      var c := Conn(s, e.line, e.index);
      assert LineFormed(s.lines[e.line], |s.lines|, s.sid);
      PutAllLeaves(s.lines, s.lines[e.line].peers, Message(s, c), line);
    }
  }
}
