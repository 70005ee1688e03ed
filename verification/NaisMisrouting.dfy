/**
 Runs of the junction, from the beginning, in which acknowledgements are written to connections that they are not for.
 */
module NaisMisrouting {
  import opened Bytes
  import Base128
  import opened NaisFrame
  import opened NaisRouting
  import NaisTape
  import NaisUart
  import NaisRemains
  import NaisMessages
  import NaisUntidy
  import NaisAcks

  // ---------- a request reaches the board ----------

  function Request(kind: byte): seq<byte>
  {
    Frame(Head(kind, 0, 0, 0), [1])
  }

  lemma RequestBytes(kind: byte, k: byte)
    requires kind != RECORD_START
    ensures Request(kind) == [RECORD_START, kind, 0, 0, 0, 1, 1, RECORD_END]
    ensures Request(kind)[SLINE := k] == Frame(Head(kind, k, 0, 0), [1])
    ensures NaisTape.Taken(NaisTape.FRESH, Request(kind)) == 8
  {
    hide NaisTape.Taken;
    assert Base128.Varint(1) == [1];
    StampedFrame(Head(kind, 0, 0, 0), [1], k);
    NaisTape.FrameTaken(Head(kind, 0, 0, 0), [1], []);
    assert Request(kind) + [] == Request(kind);
  }

  /** A board, connection 1, and clients, with nothing under way. */
  predicate Ready(s: Junction, clients: seq<nat>)
  {
    && Inv(s) && s.lines == [Line([1], [1], [], 1), Line([0], clients, [], 1)]
    && |s.boards| == |s.wires| == s.sid + 1 && s.sid >= 1
    && s.boards[1] == Board(NaisUart.Idle(s.boards[1].loop.multiplier), {})
    && forall k :: 0 <= k <= s.sid ==> s.wires[k] == []
  }

  /** The request of a client is read. */
  lemma RequestRead(a: Junction, clients: seq<nat>, j: nat, kind: byte)
    requires Formed(a) && |a.wires| == a.sid + 1 && kind != RECORD_START
    requires a.lines == [Line([1], [1], [], 1), Line([0], clients, [], 1)]
    requires j < |clients| && a.wires[Conn(a, 1, j)] == Marked(Request(kind), {})
    ensures Enabled(a, Read(1, j))
    ensures var k := Conn(a, 1, j);
            ReadStep(a, 1, j) ==
            a.(lines := [Line([1], [1], [Packet(Request(kind), k, {})], 1), a.lines[1]], wires := a.wires[k := []])
  {
    hide Formed, Request, NaisTape.Taken, PutAll;
    var k := Conn(a, 1, j);
    RequestBytes(kind, 0);
    var wire := a.wires[k];
    assert Plain(wire) == Request(kind);
    assert wire[..8] == wire && wire[8..] == [] && Request(kind)[..8] == Request(kind);
    CausesOfMarked(Request(kind), {});
    var p := Packet(Request(kind), k, {});
    assert Message(a, k) == p;
    PutOne(a.lines, 0, p);
    assert [] + [p] == [p];
    assert PutAll(a.lines, [0], p) == [Line([1], [1], [p], 1), a.lines[1]];
  }

  lemma PutOne(lines: seq<Line>, to: nat, p: Packet)
    requires |lines| == 2 && to < 2
    ensures PutAll(lines, [to], p) == lines[to := lines[to].(queue := lines[to].queue + [p])]
  {
    assert [to][..0] == [];
    assert PutAll(lines, [], p) == lines;
  }

  /** It is written to the board, which takes it. */
  lemma RequestWritten(b: Junction, clients: seq<nat>, kind: byte, k: byte)
    requires Formed(b) && kind != RECORD_START
    requires b.lines == [Line([1], [1], [Packet(Request(kind), k, {})], 1), Line([0], clients, [], 1)]
    requires |b.boards| > 1 && b.boards[1] == Board(NaisUart.Idle(b.boards[1].loop.multiplier), {})
    ensures var c := DispatchStep(b, 0);
            && c.lines == [Line([1], [1], [], 1), b.lines[1]] && c.wires == b.wires && c.sid == b.sid
            && |c.boards| > 1 && c.boards[1] == Board(NaisUart.Idle(c.boards[1].loop.multiplier), {})
            && c.handed == b.handed + [Handed(1, [kind, k, 0, 0, 1, 1], {k as nat})]
  {
    hide Formed, Request, Receive, Writes, AcceptAll, Frame, Stamped;
    var p := Packet(Request(kind), k, {});
    RequestBytes(kind, k);
    RequestPacket(kind, k);
    var w := Write(1, Stamped(p), k, {});
    OneWriter(p);
    DequeueOne(b, p);
    OneWrite(Dequeue(b, 0), w);
    BoardTakes(b.boards[1], w, kind, k);
  }

  lemma RequestPacket(kind: byte, k: byte)
    requires kind != RECORD_START
    ensures var p := Packet(Request(kind), k, {});
            && WellSized(p.data) && Stampable(p) && DstLine(p) == 0
            && Stamped(p) == Frame(Head(kind, k, 0, 0), [1])
  {
    RequestBytes(kind, k);
  }

  lemma BoardTakes(b: Board, w: Write, kind: byte, k: byte)
    requires b == Board(NaisUart.Idle(b.loop.multiplier), {})
    requires w.to == 1 && w.sender == k && w.data == Frame(Head(kind, k, 0, 0), [1])
    ensures var (board, out) := Receive(b, w);
            && board == Board(NaisUart.Idle(board.loop.multiplier), {})
            && out == [Handed(1, [kind, k, 0, 0, 1, 1], {k as nat})]
  {
    hide NaisUart.Run, Frame;
    NaisUart.QuietFrameRun(b.loop.multiplier, Head(kind, k, 0, 0), [1]);
    RequestContent(kind, k);
    assert {} + {k as nat} == {k as nat};
    var out := Receive(b, w).1;
    assert |out| == 1 && out[0] == Handed(1, [kind, k, 0, 0, 1, 1], {k as nat});
  }

  lemma DequeueOne(b: Junction, p: Packet)
    requires Formed(b) && |b.lines| == 2 && b.lines[0] == Line([1], [1], [p], 1) && Stampable(p)
    ensures Enabled(b, Dispatch(0)) && Dequeue(b, 0) == b.(lines := [Line([1], [1], [], 1), b.lines[1]])
  {
    hide Formed;
    assert [p][1..] == [];
    assert Dequeue(b, 0).lines == [Line([1], [1], [], 1), b.lines[1]];
  }

  lemma OneWriter(p: Packet)
    requires WellSized(p.data) && Stampable(p) && DstLine(p) == 0
    ensures Writes([1], p) == [Write(1, Stamped(p), p.srcLine, p.causes)]
  {
    assert [1][..0] == [];
  }

  lemma OneWrite(s: Junction, w: Write)
    requires w.to < |s.boards|
    ensures AcceptAll(s, [w]) == Accept(s, w)
  {
    assert [w][..0] == [];
  }

  lemma RequestContent(kind: byte, k: byte)
    ensures Content(Head(kind, k, 0, 0), [1])[..6] == [kind, k, 0, 0, 1, 1]
  {
    assert Base128.Varint(1) == [1];
  }

  /** From client to board. */
  lemma RequestArrives(s: Junction, clients: seq<nat>, j: nat, kind: byte) returns (es: seq<Event>)
    requires Ready(s, clients) && j < |clients| && clients[j] < 256 && kind != RECORD_START
    ensures Possible(s, es) && Formed(Run(s, es)) && Ready(Run(s, es), clients)
    ensures Run(s, es).handed == s.handed + [Handed(1, [kind, clients[j], 0, 0, 1, 1], {clients[j]})]
  {
    hide Inv, Formed, Request, ReadStep, DispatchStep, Possible, Run;
    FormedByInv(s);
    var k := Conn(s, 1, j);
    var send, read, dispatch := Send(1, j, Request(kind)), Read(1, j), Dispatch(0);
    var a := Step(s, send);
    StepKeepsInv(s, send);
    FormedByInv(a);
    assert [] + Marked(Request(kind), {}) == Marked(Request(kind), {});
    RequestRead(a, clients, j, kind);
    var b := Step(a, read);
    StepKeepsInv(a, read);
    FormedByInv(b);
    RequestWritten(b, clients, kind, k);
    var c := Step(b, dispatch);
    StepKeepsInv(b, dispatch);
    FormedByInv(c);
    ThreeEvents(s, send, read, dispatch);
    es := [send, read, dispatch];
  }

  // ---------- everyone connects ----------

  /** Nothing connected: a line for the board, and one for its clients. */
  function Beginning(): Junction
  {
    Junction([Line([1], [], [], 0), Line([0], [], [], 0)], 0, [[]], [Board(NaisUart.Idle(1), {})], [], [])
  }

  lemma BeginningInv()
    ensures Start(Beginning()) && Inv(Beginning())
  {
  }

  /** The connection numbers of the clients. */
  function Numbers(n: nat): (r: seq<nat>)
    ensures |r| == n && forall i :: 0 <= i < n ==> r[i] == i + 2
  {
    seq(n, i requires 0 <= i < n => i + 2)
  }

  lemma {:induction false} AllConnect(n: nat) returns (es: seq<Event>)
    requires n >= 1
    ensures Start(Beginning()) && Possible(Beginning(), es) && Formed(Run(Beginning(), es))
    ensures var s := Run(Beginning(), es); Ready(s, Numbers(n)) && s.handed == [] && s.sid == n + 1
    decreases n
  {
    hide Inv, LineFormed, Possible, Run;
    BeginningInv();
    FormedByInv(Beginning());
    if n == 1 {
      es := FirstTwo();
    } else {
      var before := AllConnect(n - 1);
      var s := Run(Beginning(), before);
      StepKeepsInv(s, Connect(1));
      var next := Step(s, Connect(1));
      FormedByInv(next);
      assert Numbers(n - 1) + [n + 1] == Numbers(n);
      OneEvent(s, Connect(1));
      RunOn(Beginning(), before, [Connect(1)]);
      es := before + [Connect(1)];
    }
  }

  lemma FirstTwo() returns (es: seq<Event>)
    ensures Possible(Beginning(), es) && Formed(Run(Beginning(), es))
    ensures var s := Run(Beginning(), es); Ready(s, Numbers(1)) && s.handed == [] && s.sid == 2
  {
    hide Inv, LineFormed, Possible, Run;
    var s := Beginning();
    BeginningInv();
    FormedByInv(s);
    var a := Step(s, Connect(0));
    StepKeepsInv(s, Connect(0));
    FormedByInv(a);
    assert [] + [1] == [1] && a.lines == [Line([1], [1], [], 1), Line([0], [], [], 0)];
    var b := Step(a, Connect(1));
    StepKeepsInv(a, Connect(1));
    FormedByInv(b);
    assert [] + [2] == [2] == Numbers(1) && b.lines == [Line([1], [1], [], 1), Line([0], [2], [], 1)];
    TwoEvents(s, Connect(0), Connect(1));
    es := [Connect(0), Connect(1)];
  }

  /** All connect, and then client `i` and client `j` send a request each. */
  lemma TwoRequests(n: nat, i: nat, j: nat, kind: byte) returns (es: seq<Event>)
    requires i < n < 250 && j < n && kind != RECORD_START
    ensures Start(Beginning()) && Possible(Beginning(), es) && Formed(Run(Beginning(), es))
    ensures var s := Run(Beginning(), es);
            && Ready(s, Numbers(n))
            && s.handed == [Handed(1, [kind, i + 2, 0, 0, 1, 1], {i + 2}),
                            Handed(1, [kind, j + 2, 0, 0, 1, 1], {j + 2})]
  {
    hide Ready, Possible, Run, Formed, Inv;
    BeginningInv();
    FormedByInv(Beginning());
    var es0 := AllConnect(n);
    var s0 := Run(Beginning(), es0);
    var es1 := RequestArrives(s0, Numbers(n), i, kind);
    var s1 := Run(s0, es1);
    var es2 := RequestArrives(s1, Numbers(n), j, kind);
    RunOn(s0, es1, es2);
    RunOn(Beginning(), es0, es1 + es2);
    es := es0 + (es1 + es2);
  }

  // ---------- the answers are read and written ----------

  /** What the board has sent is read into the queue for the clients. */
  lemma AnswerRead(r: Junction, clients: seq<nat>, queue: seq<Packet>)
    requires Inv(r) && r.lines == [Line([1], [1], [], 1), Line([0], clients, queue, 1)]
    requires Formed(r) && Enabled(r, Read(0, 0)) && |r.wires| > 1
    ensures var m, next := Message(r, 1), Step(r, Read(0, 0));
            && Inv(next) && next.lines == [Line([1], [1], [], 1), Line([0], clients, queue + [m], 1)]
            && next.log == r.log && WellSized(m.data) && m.srcLine == 1
  {
    hide Inv, LineFormed, Plain, Causes, PutAll, NaisTape.Taken;
    StepKeepsInv(r, Read(0, 0));
    assert Conn(r, 0, 0) == 1;
    MessageOk(r, 1);
    PutOne(r.lines, 1, Message(r, 1));
  }

  /** And written. */
  lemma AnswerWritten(r: Junction, clients: seq<nat>, queue: seq<Packet>)
    requires Inv(r) && Formed(r) && queue != []
    requires r.lines == [Line([1], [1], [], 1), Line([0], clients, queue, 1)]
    requires WellSized(queue[0].data) && queue[0].srcLine == 1
    ensures Enabled(r, Dispatch(1))
    ensures var next := Step(r, Dispatch(1));
            && Inv(next) && next.lines == [Line([1], [1], [], 1), Line([0], clients, queue[1..], 1)]
            && next.log == r.log + Writes(clients, queue[0])
  {
    hide Inv, LineFormed, AcceptAll, Writes;
    StepKeepsInv(r, Dispatch(1));
    assert Stampable(queue[0]);
  }

  function WriteTo(w: nat, p: Packet): Write
    requires WellSized(p.data) && Stampable(p)
  {
    Write(w, Stamped(p), p.srcLine, p.causes)
  }

  lemma {:induction false} WritesToAll(writers: seq<nat>, p: Packet, i: nat)
    requires WellSized(p.data) && Stampable(p) && DstLine(p) == 0 && i < |writers|
    ensures |Writes(writers, p)| == |writers| && Writes(writers, p)[i] == WriteTo(writers[i], p)
    decreases |writers|
  {
    hide WriteTo, WellSized, Stampable, DstLine, Writes;
    var front, w := writers[..|writers| - 1], writers[|writers| - 1];
    OneMoreWrite(writers, p);
    if i < |front| {
      WritesToAll(front, p, i);
    } else if front != [] {
      WritesToAll(front, p, 0);
    } else {
      assert Writes([], p) == [] by { NoWrites(p); }
    }
  }

  lemma NoWrites(p: Packet)
    requires WellSized(p.data) && Stampable(p)
    ensures Writes([], p) == []
  {
  }

  lemma OneMoreWrite(writers: seq<nat>, p: Packet)
    requires WellSized(p.data) && Stampable(p) && DstLine(p) == 0 && writers != []
    ensures Writes(writers, p) == Writes(writers[..|writers| - 1], p) + [WriteTo(writers[|writers| - 1], p)]
  {
    hide Stamped;
  }

  // ---------- status 30 ----------

  /**
   Two clients, 2 and 3, send a request each; the board answers the first with status 30 and then the second. Both
   answers are written to client 2.
   */
  lemma AnswerGoesAstray() returns (es: seq<Event>)
    ensures Start(Beginning()) && Possible(Beginning(), es) && Formed(Run(Beginning(), es))
    ensures var log := Run(Beginning(), es).log;
            log != [] && log[|log| - 1].to == 2 && log[|log| - 1].causes == {2, 3}
  {
    hide Inv, Ready, LineFormed, Possible, Run, Enabled, Step, Ack, Message, NaisMessages.AckBytes;
    BeginningInv();
    FormedByInv(Beginning());
    var es0 := TwoRequests(2, 0, 1, 7);
    var s := Run(Beginning(), es0);
    var first, second := NaisMessages.AckBytes(7, Some(30)), NaisMessages.AckBytes(7, Some(0));
    var es1 := [Answer(0, 0, 0, first), Answer(0, 0, 1, second)];
    AnswersMix(s, first, second);
    var r := Run(s, es1);
    AnswerRead(r, Numbers(2), []);
    var a := Step(r, Read(0, 0));
    var m := Message(r, 1);
    assert [] + [m] == [m];
    FormedByInv(a);
    AnswerWritten(a, Numbers(2), [m]);
    FormedByInv(Step(a, Dispatch(1)));
    WritesOfAnswer(Numbers(2), m);
    assert Numbers(2)[0] == 2;
    TwoEvents(r, Read(0, 0), Dispatch(1));
    var es2 := [Read(0, 0), Dispatch(1)];
    RunOn(s, es1, es2);
    RunOn(Beginning(), es0, es1 + es2);
    es := es0 + (es1 + es2);
  }

  lemma AckOf(content: seq<byte>, id: byte, status: Option<int>)
    requires |content| >= 5 && (status.Some? ==> IsI32(status.value))
    ensures Ack(content, NaisMessages.AckBytes(id, status)) == NaisAcks.AckFrame(content[SLINE - 1], id, status)
  {
    NaisUntidy.AckIsFrame(content, NaisMessages.AckBytes(id, status));
  }

  /** The first answer, with status 30, leaves the tape open, and the second one has no start delimiter inside. */
  lemma AnswersMix(s: Junction, first: seq<byte>, second: seq<byte>)
    requires Ready(s, Numbers(2))
    requires s.handed == [Handed(1, [7, 2, 0, 0, 1, 1], {2}), Handed(1, [7, 3, 0, 0, 1, 1], {3})]
    requires first == NaisMessages.AckBytes(7, Some(30)) && second == NaisMessages.AckBytes(7, Some(0))
    ensures var es := [Answer(0, 0, 0, first), Answer(0, 0, 1, second)];
            && Possible(s, es) && Formed(Run(s, es))
            && var r := Run(s, es);
               && Inv(r) && r.lines == [Line([1], [1], [], 1), Line([0], Numbers(2), [], 1)]
               && |r.wires| > 1 && Enabled(r, Read(0, 0))
               && Message(r, 1).causes == {2, 3} && WellSized(Message(r, 1).data) && DstLine(Message(r, 1)) == 2
  {
    hide Inv, LineFormed, Ack, Message, Run, Possible, NaisMessages.AckBytes, NaisTape.Taken, NaisRemains.Open,
      NaisTape.OneStart, NaisAcks.AckFrame;
    FormedByInv(s);
    assert Conn(s, 0, 0) == 1;
    var x := Ack(s.handed[0].content, first);
    AckOf(s.handed[0].content, 7, Some(30));
    AckOf(s.handed[1].content, 7, Some(0));
    ThirtyAndNone();
    assert Plain(s.wires[1]) + x == x;
    NaisUntidy.TwoAnswers(s, 0, 0, 0, 1, first, second);
    NaisUntidy.UntidyAnswersMix(s, 0, 0, 0, 1, first, second);
    NaisUntidy.AckIsFrame(s.handed[0].content, first);
    assert Plain(s.wires[1]) == [] && Causes(s.wires[1]) == {} && {} + ({2} + {3}) == {2, 3};
    var y := Ack(s.handed[1].content, second);
    assert [] + (x + y) == x + y;
    assert (x + y)[0] == x[0] && (x + y)[DLINE] == x[DLINE];
  }

  lemma ThirtyAndNone()
    ensures NaisRemains.Open(NaisAcks.AckFrame(2, 7, Some(30)))
    ensures NaisTape.OneStart(NaisAcks.AckFrame(3, 7, Some(0)))
  {
    hide NaisAcks.AckFrame, NaisTape.OneStart, NaisRemains.Open;
    NaisAcks.AckTakes(2, 7, Some(30));
    NaisAcks.AckIsTidy(3, 7, Some(0));
  }

  // ---------- connection 30, status 23 ----------

  /** Eleven bytes of such an acknowledgement are taken, and the end delimiter is left over. */
  lemma TruncatedAck(content: seq<byte>, id: byte)
    requires |content| >= 5 && content[SLINE - 1] == 30 && id >= 128
    ensures var x := Ack(content, NaisMessages.AckBytes(id, Some(23)));
            && NaisTape.Taken(NaisTape.FRESH, x) == 11 && |x| == 12 && x[11] == RECORD_END
            && NaisRemains.Open(x[11..])
  {
    hide Ack, NaisMessages.AckBytes, NaisAcks.AckFrame, NaisTape.Taken, NaisTape.After;
    AckOf(content, id, Some(23));
    NaisAcks.AckTakes(30, id, Some(23));
    NaisAcks.TruncatedLength(id);
    EndIsLeft();
    var x := Ack(content, NaisMessages.AckBytes(id, Some(23)));
    assert x[11..] == [RECORD_END];
  }

  lemma EndIsLeft()
    ensures NaisRemains.Open([RECORD_END])
  {
    assert [RECORD_END][1..] == [];
  }

  /**
   In every state in which nothing is on the wire: it goes to connection 30 without its end, and that is read with the
   next answer as a message for everyone.
   */
  lemma TruncatedAnswer(s: Junction, line: nat, index: nat, a: nat, b: nat, id: byte, second: seq<byte>)
    requires Inv(s) && NaisUntidy.BothHanded(s, line, index, a, b) && s.wires[Conn(s, line, index)] == []
    requires s.handed[a].content[SLINE - 1] == 30 && id >= 128
    requires NaisTape.OneStart(Ack(s.handed[b].content, second))
    ensures var first := NaisMessages.AckBytes(id, Some(23));
            var es, read := [Answer(line, index, a, first), Answer(line, index, b, second)], Read(line, index);
            && Possible(s, es) && Formed(Run(s, es)) && Enabled(Run(s, es), read)
            && var k, r := Conn(s, line, index), Run(s, es);
               && k < |r.wires| && WellSized(Message(r, k).data) && DstLine(Message(r, k)) == 30
               && var q := Step(r, read);
                  && Inv(q) && k < |q.wires| && Enabled(q, read)
                  && Message(q, k) == Packet([RECORD_END] + Ack(s.handed[b].content, second), k,
                                             s.handed[a].origins + s.handed[b].origins)
                  && WellSized(Message(q, k).data) && forall to :: Addressed(to, Message(q, k))
  {
    hide Ack, Inv, LineFormed, Possible, Run, Step, Message, Enabled, NaisMessages.AckBytes, NaisTape.OneStart,
      NaisTape.Taken, NaisRemains.Open;
    var first := NaisMessages.AckBytes(id, Some(23));
    var x := Ack(s.handed[a].content, first);
    TruncatedAck(s.handed[a].content, id);
    NaisUntidy.LeftOverIsForAll(s, line, index, a, b, first, second, 11);
    NaisUntidy.AckIsFrame(s.handed[a].content, first);
    assert x[11..] == [RECORD_END];
    assert x[..11][DLINE] == x[DLINE] && x[..11][0] == x[0];
  }

  /**
   29 clients connect; 30 and 2 send a request of type 128 each; the board answers the first with status 23 and then the
   second. What is left of the answer to 30 is written to all of them, together with the answer to 2.
   */
  lemma AnswerGoesToAll() returns (es: seq<Event>)
    ensures Start(Beginning()) && Possible(Beginning(), es) && Formed(Run(Beginning(), es))
    ensures forall c :: 2 <= c <= 30 ==> WrittenTo(Run(Beginning(), es).log, c, {30, 2})
  {
    hide Inv, Ready, LineFormed, Possible, Run, Enabled, Step, Ack, Message, NaisMessages.AckBytes, Numbers, Writes;
    BeginningInv();
    FormedByInv(Beginning());
    var es0 := TwoRequests(29, 28, 0, 128);
    var s := Run(Beginning(), es0);
    var es1, r, m1, m2 := AnswersForThirty(s);
    var es2, end := BothWritten(r, m1, m2);
    RunOn(s, es1, es2);
    RunOn(Beginning(), es0, es1 + es2);
    es := es0 + (es1 + es2);
    forall c | 2 <= c <= 30 ensures WrittenTo(end.log, c, {30, 2})
    {
      WritesToAll(Numbers(29), m2, c - 2);
      var n := |end.log| - 29;
      assert end.log[n + (c - 2)] == Writes(Numbers(29), m2)[c - 2];
      assert Numbers(29)[c - 2] == c;
    }
  }

  predicate WrittenTo(log: seq<Write>, c: nat, causes: set<nat>)
  {
    exists i :: 0 <= i < |log| && log[i].to == c && log[i].causes == causes
  }

  /** Both answers, and both messages read. */
  lemma AnswersForThirty(s: Junction) returns (es: seq<Event>, q: Junction, m1: Packet, m2: Packet)
    requires Ready(s, Numbers(29))
    requires s.handed == [Handed(1, [128, 30, 0, 0, 1, 1], {30}), Handed(1, [128, 2, 0, 0, 1, 1], {2})]
    ensures Formed(s) && Possible(s, es) && q == Run(s, es) && Inv(q) && Formed(q)
    ensures q.lines == [Line([1], [1], [], 1), Line([0], Numbers(29), [m1, m2], 1)]
    ensures WellSized(m1.data) && m1.srcLine == 1 && WellSized(m2.data) && m2.srcLine == 1 && DstLine(m2) == 0
    ensures m2.causes == {30, 2}
  {
    hide Inv, LineFormed, Ack, Message, Run, Possible, NaisMessages.AckBytes, Numbers, Step, Enabled,
      NaisTape.OneStart;
    FormedByInv(s);
    assert Conn(s, 0, 0) == 1;
    var first, second := NaisMessages.AckBytes(128, Some(23)), NaisMessages.AckBytes(128, Some(0));
    var read := Read(0, 0);
    var answers := [Answer(0, 0, 0, first), Answer(0, 0, 1, second)];
    AckOf(s.handed[1].content, 128, Some(0));
    NaisAcks.AckIsTidy(2, 128, Some(0));
    NaisUntidy.TwoAnswers(s, 0, 0, 0, 1, first, second);
    TruncatedAnswer(s, 0, 0, 0, 1, 128, second);
    var r := Run(s, answers);
    m1 := Message(r, 1);
    AnswerRead(r, Numbers(29), []);
    var a := Step(r, read);
    m2 := Message(a, 1);
    assert [] + [m1] == [m1] && [m1] + [m2] == [m1, m2];
    FormedByInv(a);
    AnswerRead(a, Numbers(29), [m1]);
    q := Step(a, read);
    FormedByInv(q);
    TwoEvents(r, read, read);
    RunOn(s, answers, [read, read]);
    es := answers + [read, read];
    assert {30} + {2} == {30, 2};
  }

  lemma BothWritten(r: Junction, m1: Packet, m2: Packet) returns (es: seq<Event>, end: Junction)
    requires Inv(r) && r.lines == [Line([1], [1], [], 1), Line([0], Numbers(29), [m1, m2], 1)]
    requires WellSized(m1.data) && m1.srcLine == 1 && WellSized(m2.data) && m2.srcLine == 1
    ensures Formed(r) && Possible(r, es) && end == Run(r, es) && Formed(end)
    ensures exists before :: end.log == before + Writes(Numbers(29), m2)
  {
    hide Inv, LineFormed, Run, Possible, Numbers, Step, Enabled, Writes;
    FormedByInv(r);
    AnswerWritten(r, Numbers(29), [m1, m2]);
    var a := Step(r, Dispatch(1));
    FormedByInv(a);
    assert [m1, m2][1..] == [m2];
    AnswerWritten(a, Numbers(29), [m2]);
    end := Step(a, Dispatch(1));
    FormedByInv(end);
    TwoEvents(r, Dispatch(1), Dispatch(1));
    es := [Dispatch(1), Dispatch(1)];
    assert end.log == a.log + Writes(Numbers(29), m2);
  }

  // ---------- two requests that have become one ----------

  /**
   Two requests of a client that have become one message are two again for the board. The stamp is in the first only, so
   the answer to the second is addressed to everyone.
   */
  lemma SecondIsAnsweredToAll(b: Board, w: Write, k: byte, h: Head, first: seq<byte>, h': Head, second: seq<byte>,
                              answer: seq<byte>)
    requires b == Board(NaisUart.Idle(b.loop.multiplier), {}) && h'.sline == 0
    requires 1 <= |first| < 128 && 1 <= |second| < 128
    requires w.data == Frame(h.(sline := k), first) + Frame(h', second) && w.sender == k
    ensures var out := Receive(b, w).1;
            && |out| == 2 && |out[1].content| >= 5 && out[1].origins == {w.sender}
            && var p := Packet(Ack(out[1].content, answer), w.to, out[1].origins);
               forall x :: Addressed(x, p)
  {
    hide NaisUart.Run, Frame, Content;
    var f, g := Frame(h.(sline := k), first), Frame(h', second);
    NaisUart.FrameHandsOn(b.loop.multiplier, h.(sline := k), first);
    NaisUart.FrameHandsOn(128, h', second);
    NaisUart.RunConcat(b.loop, f, g);
    var x, y := Content(h.(sline := k), first), Content(h', second);
    assert NaisUart.Run(b.loop, w.data).1 == [x] + [y] == [x, y];
    assert {} + {w.sender} == {w.sender};
    ContentBegins(h', second);
    SecondByte(h', second);
  }

  lemma SecondByte(h: Head, payload: seq<byte>)
    ensures |Content(h, payload)| >= 5 && Content(h, payload)[SLINE - 1] == h.sline
  {
  }
}
