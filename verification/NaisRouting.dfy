/**
 Lines, peers and connections of junction.py, with the tape that cuts the byte stream of every connection into messages
 and the boards that take frames out of what is written to them and answer.

 Whom an answer is for is history that the code does not keep: `causes` says of every byte on its way to the junction
 to the messages of which connections it is an answer, `origins` says of every message that a board has taken out of
 its input from which connections its bytes came.
 */
module NaisRouting {
  import opened Bytes
  import Base128
  import opened NaisFrame
  import NaisTape
  import NaisUart

  /** A byte on its way from a connection to the junction. */
  datatype Mark = Mark(b: byte, causes: set<nat>)

  datatype Packet = Packet(data: seq<byte>, srcLine: nat, causes: set<nat>)

  /** A write to a connection, with the connection it came from. */
  datatype Write = Write(to: nat, data: seq<byte>, sender: nat, causes: set<nat>)

  /** The receiving loop at the other end of a connection. */
  datatype Board = Board(loop: NaisUart.Uart, origins: set<nat>)

  /** What the loop at the end of connection `at` has handed on. */
  datatype Handed = Handed(at: nat, content: seq<byte>, origins: set<nat>)

  datatype Line = Line(peers: seq<nat>, writers: seq<nat>, queue: seq<Packet>, dispatchers: nat)

  /** `wires` and `boards` go by connection number; `log` holds all writes so far. */
  datatype Junction = Junction(lines: seq<Line>, sid: nat, wires: seq<seq<Mark>>, boards: seq<Board>,
                               handed: seq<Handed>, log: seq<Write>)

  // ---------- bytes with their history ----------

  function Plain(ms: seq<Mark>): (r: seq<byte>)
    ensures |r| == |ms| && forall i :: 0 <= i < |ms| ==> r[i] == ms[i].b
  {
    seq(|ms|, i requires 0 <= i < |ms| => ms[i].b)
  }

  function Marked(data: seq<byte>, causes: set<nat>): (r: seq<Mark>)
    ensures |r| == |data| && forall i :: 0 <= i < |data| ==> r[i] == Mark(data[i], causes)
  {
    seq(|data|, i requires 0 <= i < |data| => Mark(data[i], causes))
  }

  function Causes(ms: seq<Mark>): set<nat>
  {
    if ms == [] then {} else ms[0].causes + Causes(ms[1..])
  }

  lemma {:induction false} CausesOfMarked(data: seq<byte>, causes: set<nat>)
    requires data != []
    ensures Causes(Marked(data, causes)) == causes
  {
    assert Marked(data, causes)[1..] == Marked(data[1..], causes);
    if |data| > 1 {
      CausesOfMarked(data[1..], causes);
    } else {
      assert Marked(data[1..], causes) == [];
    }
  }

  // ---------- delivery ----------

  /** What the tape lets through. */
  predicate WellSized(data: seq<byte>)
  {
    IsProtobuf(data) ==> |data| >= 7
  }

  /** Destination of a packet: its own DLINE byte if it is a frame, everyone otherwise. */
  function DstLine(p: Packet): nat
    requires WellSized(p.data)
  {
    if IsProtobuf(p.data) then p.data[DLINE] else 0
  }

  function Put(lines: seq<Line>, target: nat, p: Packet): (r: seq<Line>)
    requires target < |lines|
    ensures |r| == |lines|
  {
    lines[target := lines[target].(queue := lines[target].queue + [p])]
  }

  function PutAll(lines: seq<Line>, targets: seq<nat>, p: Packet): (r: seq<Line>)
    requires forall i :: 0 <= i < |targets| ==> targets[i] < |lines|
    ensures |r| == |lines|
    decreases |targets|
  {
    if targets == [] then lines
    else Put(PutAll(lines, targets[..|targets| - 1], p), targets[|targets| - 1], p)
  }

  function Occurrences(targets: seq<nat>, l: nat): nat
    decreases |targets|
  {
    if targets == [] then 0
    else Occurrences(targets[..|targets| - 1], l) + if targets[|targets| - 1] == l then 1 else 0
  }

  function Copies(p: Packet, n: nat): (r: seq<Packet>)
    ensures |r| == n && forall i :: 0 <= i < n ==> r[i] == p
  {
    seq(n, i requires 0 <= i < n => p)
  }

  /** Every queue grows by the packet as often as its line is named, and nothing else changes. */
  lemma {:induction false} PutAllLeaves(lines: seq<Line>, targets: seq<nat>, p: Packet, l: nat)
    requires forall i :: 0 <= i < |targets| ==> targets[i] < |lines|
    requires l < |lines|
    ensures PutAll(lines, targets, p)[l] ==
            lines[l].(queue := lines[l].queue + Copies(p, Occurrences(targets, l)))
    decreases |targets|
  {
    if targets == [] {
      assert lines[l].queue + Copies(p, 0) == lines[l].queue;
    } else {
      var front, last := targets[..|targets| - 1], targets[|targets| - 1];
      PutAllLeaves(lines, front, p, l);
      var n := Occurrences(front, l);
      assert Copies(p, n) + [p] == Copies(p, n + 1);
      ConcatAssociates(lines[l].queue, Copies(p, n), [p]);
    }
  }

  method DeliverToPeers(lines: seq<Line>, line: nat, message: seq<byte>, srcLine: nat, causes: set<nat>)
    returns (r: seq<Line>)
    requires line < |lines| && forall i :: 0 <= i < |lines[line].peers| ==> lines[line].peers[i] < |lines|
    ensures |r| == |lines|
    ensures r == PutAll(lines, lines[line].peers, Packet(message, srcLine, causes))
    ensures forall l :: 0 <= l < |lines| ==>
              r[l] == lines[l].(queue := lines[l].queue + Copies(Packet(message, srcLine, causes),
                                                                 Occurrences(lines[line].peers, l)))
  {
    r := lines;
    var peers, p := lines[line].peers, Packet(message, srcLine, causes);
    for i := 0 to |peers|
      invariant r == PutAll(lines, peers[..i], p)
    {
      assert peers[..i + 1][..i] == peers[..i];
      r := r[peers[i] := r[peers[i]].(queue := r[peers[i]].queue + [p])];
    }
    assert peers[..|peers|] == peers;
    forall l | 0 <= l < |lines|
      ensures r[l] == lines[l].(queue := lines[l].queue + Copies(p, Occurrences(peers, l)))
    {
      PutAllLeaves(lines, peers, p, l);
    }
  }

  // ---------- dispatch ----------

  predicate Addressed(w: nat, p: Packet)
    requires WellSized(p.data)
  {
    w == DstLine(p) || DstLine(p) == 0
  }

  /** The SLINE byte is overwritten on the way out, which fails for a number that is no byte. */
  predicate Stampable(p: Packet)
  {
    IsProtobuf(p.data) ==> p.srcLine < 256
  }

  function Stamped(p: Packet): (r: seq<byte>)
    requires WellSized(p.data) && Stampable(p)
    ensures IsProtobuf(p.data) ==>
              IsProtobuf(r) && |r| == |p.data| && r[SLINE] == p.srcLine && r[DLINE] == p.data[DLINE]
    ensures IsProtobuf(r) ==> IsProtobuf(p.data)
  {
    if IsProtobuf(p.data) then p.data[SLINE := p.srcLine] else p.data
  }

  function Writes(writers: seq<nat>, p: Packet): (r: seq<Write>)
    requires WellSized(p.data) && Stampable(p)
    ensures forall i :: 0 <= i < |r| ==>
              r[i].to in writers && Addressed(r[i].to, p) && r[i] == Write(r[i].to, Stamped(p), p.srcLine, p.causes)
    decreases |writers|
  {
    if writers == [] then []
    else
      var w := writers[|writers| - 1];
      Writes(writers[..|writers| - 1], p) + if Addressed(w, p) then [Write(w, Stamped(p), p.srcLine, p.causes)] else []
  }

  predicate SomeoneAddressed(writers: seq<nat>, p: Packet)
    requires WellSized(p.data)
  {
    exists i :: 0 <= i < |writers| && Addressed(writers[i], p)
  }

  /** One message out of the queue; `ok` is false if an exception ends the dispatching task. */
  method DispatchOne(writers: seq<nat>, p: Packet) returns (ok: bool, out: seq<Write>)
    requires WellSized(p.data)
    ensures ok <==> Stampable(p) || !SomeoneAddressed(writers, p)
    ensures out == if Stampable(p) then Writes(writers, p) else []
  {
    out := [];
    for i := 0 to |writers|
      invariant out == if Stampable(p) then Writes(writers[..i], p) else []
      invariant Stampable(p) || forall j :: 0 <= j < i ==> !Addressed(writers[j], p)
    {
      assert writers[..i + 1][..i] == writers[..i];
      var w := writers[i];
      if w == DstLine(p) || DstLine(p) == 0 {
        if IsProtobuf(p.data) && p.srcLine >= 256 {
          return false, out;
        }
        var pkt := if IsProtobuf(p.data) then p.data[SLINE := p.srcLine] else p.data;
        out := out + [Write(w, pkt, p.srcLine, p.causes)];
      }
    }
    assert writers[..|writers|] == writers;
    ok := true;
  }

  // ---------- the other end ----------

  /** What the loop at the other end has in hand after a write, and what it hands on. */
  function Receive(b: Board, w: Write): (r: (Board, seq<Handed>))
    ensures forall i :: 0 <= i < |r.1| ==> r.1[i].at == w.to
  {
    var (loop, out) := NaisUart.Run(b.loop, w.data);
    var from := (if b.loop.sts == NaisUart.WaitStart then {} else b.origins) + {w.sender};
    (Board(loop, if loop.sts == NaisUart.WaitStart then {} else from),
     seq(|out|, i requires 0 <= i < |out| => Handed(w.to, out[i], from)))
  }

  function Accept(s: Junction, w: Write): Junction
    requires w.to < |s.boards|
  {
    var (board, out) := Receive(s.boards[w.to], w);
    s.(boards := s.boards[w.to := board], handed := s.handed + out, log := s.log + [w])
  }

  function AcceptAll(s: Junction, ws: seq<Write>): (r: Junction)
    requires forall i :: 0 <= i < |ws| ==> ws[i].to < |s.boards|
    ensures |r.boards| == |s.boards| && r.lines == s.lines && r.sid == s.sid && r.wires == s.wires
    ensures r.log == s.log + ws
    decreases |ws|
  {
    if ws == [] then s else Accept(AcceptAll(s, ws[..|ws| - 1]), ws[|ws| - 1])
  }

  /** The acknowledgement of bocia_input_handler: what came from SLINE is answered to DLINE. */
  function Ack(content: seq<byte>, payload: seq<byte>): (r: seq<byte>)
    requires |content| >= 5
    ensures IsProtobuf(r) && WellSized(r) && r[DLINE] == content[SLINE - 1]
  {
    var h := Head(ACK_TYPE, 0, content[SLINE - 1], 0);
    var f := Frame(h, payload);
    assert f[..5] == [RECORD_START, ACK_TYPE, 0, h.dline, 0];
    assert f[DLINE] == f[..5][DLINE];
    f
  }

  // ---------- the whole junction as a machine ----------

  /** A connection is meant by its place among the writers of its line. */
  datatype Event =
    | Connect(line: nat)
    | Disconnect(line: nat, index: nat)
    | Send(line: nat, index: nat, data: seq<byte>)
    | Answer(line: nat, index: nat, handed: nat, payload: seq<byte>)
    | Read(line: nat, index: nat)
    | Dispatch(line: nat)

  predicate LineFormed(l: Line, lines: nat, sid: nat)
  {
    && (forall i :: 0 <= i < |l.peers| ==> l.peers[i] < lines)
    && (forall i :: 0 <= i < |l.writers| ==> 1 <= l.writers[i] <= sid)
    && (forall i :: 0 <= i < |l.queue| ==> WellSized(l.queue[i].data) && 1 <= l.queue[i].srcLine <= sid)
  }

  predicate Formed(s: Junction)
  {
    && |s.wires| == s.sid + 1 && |s.boards| == s.sid + 1
    && forall l :: 0 <= l < |s.lines| ==> LineFormed(s.lines[l], |s.lines|, s.sid)
  }

  predicate Connected(s: Junction, line: nat, index: nat)
  {
    line < |s.lines| && index < |s.lines[line].writers|
  }

  function Conn(s: Junction, line: nat, index: nat): (k: nat)
    requires Formed(s) && Connected(s, line, index)
    ensures 1 <= k <= s.sid
  {
    assert LineFormed(s.lines[line], |s.lines|, s.sid);
    s.lines[line].writers[index]
  }

  /**
   What can happen: nobody sends over a connection that is not there, or answers what he was not handed; a message is
   read when the tape has one.
   */
  predicate Enabled(s: Junction, e: Event)
    requires Formed(s)
  {
    match e
    case Connect(line) => line < |s.lines|
    case Disconnect(line, index) => Connected(s, line, index)
    case Send(line, index, data) => Connected(s, line, index)
    case Answer(line, index, h, _) =>
      && Connected(s, line, index) && h < |s.handed|
      && s.handed[h].at == Conn(s, line, index) && |s.handed[h].content| >= 5
    case Read(line, index) =>
      Connected(s, line, index) && NaisTape.Taken(NaisTape.FRESH, Plain(s.wires[Conn(s, line, index)])) > 0
    case Dispatch(line) => line < |s.lines| && s.lines[line].dispatchers > 0 && s.lines[line].queue != []
  }

  function WithLine(s: Junction, line: nat, l: Line): Junction
    requires line < |s.lines|
  {
    s.(lines := s.lines[line := l])
  }

  function WithWire(s: Junction, k: nat, wire: seq<Mark>): Junction
    requires k < |s.wires|
  {
    s.(wires := s.wires[k := wire])
  }

  function ConnectStep(s: Junction, line: nat): Junction
    requires Formed(s) && line < |s.lines|
  {
    var l := s.lines[line];
    WithLine(s.(sid := s.sid + 1, wires := s.wires + [[]], boards := s.boards + [Board(NaisUart.Idle(1), {})]), line,
             l.(dispatchers := if l.writers == [] then l.dispatchers + 1 else l.dispatchers,
                writers := l.writers + [s.sid + 1]))
  }

  function DisconnectStep(s: Junction, line: nat, index: nat): Junction
    requires Connected(s, line, index)
  {
    var l := s.lines[line];
    WithLine(s, line, l.(writers := l.writers[..index] + l.writers[index + 1..]))
  }

  /** What a connection has read off its bytes, and their history. */
  function Message(s: Junction, k: nat): (p: Packet)
    requires k < |s.wires|
  {
    var n := NaisTape.Taken(NaisTape.FRESH, Plain(s.wires[k]));
    Packet(Plain(s.wires[k])[..n], k, Causes(s.wires[k][..n]))
  }

  function ReadStep(s: Junction, line: nat, index: nat): Junction
    requires Formed(s) && Enabled(s, Read(line, index))
  {
    var k := Conn(s, line, index);
    assert LineFormed(s.lines[line], |s.lines|, s.sid);
    var n := NaisTape.Taken(NaisTape.FRESH, Plain(s.wires[k]));
    WithWire(s, k, s.wires[k][n..]).(lines := PutAll(s.lines, s.lines[line].peers, Message(s, k)))
  }

  /** The first message off the queue; an exception ends the dispatching task. */
  function Dequeue(s: Junction, line: nat): Junction
    requires Formed(s) && Enabled(s, Dispatch(line))
  {
    var l := s.lines[line];
    assert LineFormed(l, |s.lines|, s.sid);
    var p := l.queue[0];
    var ok := Stampable(p) || !SomeoneAddressed(l.writers, p);
    WithLine(s, line, l.(queue := l.queue[1..], dispatchers := l.dispatchers - if ok then 0 else 1))
  }

  function DispatchStep(s: Junction, line: nat): Junction
    requires Formed(s) && Enabled(s, Dispatch(line))
  {
    var l := s.lines[line];
    assert LineFormed(l, |s.lines|, s.sid);
    var p, rest := l.queue[0], Dequeue(s, line);
    if Stampable(p) then AcceptAll(rest, Writes(l.writers, p)) else rest
  }

  function Step(s: Junction, e: Event): Junction
    requires Formed(s) && Enabled(s, e)
  {
    match e
    case Connect(line) => ConnectStep(s, line)
    case Disconnect(line, index) => DisconnectStep(s, line, index)
    case Send(line, index, data) =>
      var k := Conn(s, line, index);
      WithWire(s, k, s.wires[k] + Marked(data, {}))
    case Answer(line, index, h, payload) =>
      var k := Conn(s, line, index);
      WithWire(s, k, s.wires[k] + Marked(Ack(s.handed[h].content, payload), s.handed[h].origins))
    case Read(line, index) => ReadStep(s, line, index)
    case Dispatch(line) => DispatchStep(s, line)
  }

  // ---------- what every step keeps ----------

  /** No two connections of different lines share a number. */
  predicate Apart(a: Line, b: Line)
  {
    forall x :: x in a.writers ==> x !in b.writers
  }

  predicate Distinct(writers: seq<nat>)
  {
    forall i, j :: 0 <= i < j < |writers| ==> writers[i] != writers[j]
  }

  /** A frame carries the number of the connection it came from. */
  predicate SentBy(w: Write)
  {
    IsProtobuf(w.data) ==> |w.data| >= 7 && w.data[SLINE] == w.sender
  }

  predicate Inv(s: Junction)
  {
    && Formed(s)
    && (forall l :: 0 <= l < |s.lines| ==> Distinct(s.lines[l].writers))
    && (forall k, l :: 0 <= k < |s.lines| && 0 <= l < |s.lines| && k != l ==> Apart(s.lines[k], s.lines[l]))
    && (forall i :: 0 <= i < |s.log| ==> SentBy(s.log[i]))
  }

  lemma PutAllFormed(lines: seq<Line>, targets: seq<nat>, p: Packet, sid: nat)
    requires forall i :: 0 <= i < |targets| ==> targets[i] < |lines|
    requires forall l :: 0 <= l < |lines| ==> LineFormed(lines[l], |lines|, sid)
    requires WellSized(p.data) && 1 <= p.srcLine <= sid
    ensures forall l :: 0 <= l < |lines| ==> LineFormed(PutAll(lines, targets, p)[l], |lines|, sid)
    ensures forall l :: 0 <= l < |lines| ==> PutAll(lines, targets, p)[l].writers == lines[l].writers
  {
    forall l | 0 <= l < |lines|
      ensures LineFormed(PutAll(lines, targets, p)[l], |lines|, sid)
      ensures PutAll(lines, targets, p)[l].writers == lines[l].writers
    {
      PutAllLeaves(lines, targets, p, l);
      assert LineFormed(lines[l], |lines|, sid);
    }
  }

  lemma StepKeepsInv(s: Junction, e: Event)
    requires Inv(s) && Enabled(s, e)
    ensures Inv(Step(s, e)) && s.log <= Step(s, e).log && s.sid <= Step(s, e).sid
  {
    match e
    case Connect(line) => ConnectKeepsInv(s, line);
    case Disconnect(line, index) => DisconnectKeepsInv(s, line, index);
    case Send(_, _, _) =>
    case Answer(_, _, _, _) =>
    case Read(line, index) => ReadKeepsInv(s, line, index);
    case Dispatch(line) => DispatchKeepsInv(s, line);
  }

  lemma ConnectKeepsInv(s: Junction, line: nat)
    requires Inv(s) && line < |s.lines|
    ensures Inv(ConnectStep(s, line))
  {
    hide LineFormed, Apart, Distinct, SentBy;
    var s' := ConnectStep(s, line);
    forall l | 0 <= l < |s.lines| ensures LineFormed(s'.lines[l], |s.lines|, s'.sid) && Distinct(s'.lines[l].writers) {
      NewcomerFormed(s.lines[l], s'.lines[l], |s.lines|, s.sid);
    }
    forall k, l | 0 <= k < |s.lines| && 0 <= l < |s.lines| && k != l ensures Apart(s'.lines[k], s'.lines[l]) {
      NewcomerApart(s.lines[k], s.lines[l], s'.lines[k], |s.lines|, s.sid);
      NewcomerApart(s.lines[l], s.lines[k], s'.lines[l], |s.lines|, s.sid);
    }
  }

  lemma NewcomerFormed(a: Line, a': Line, lines: nat, sid: nat)
    requires LineFormed(a, lines, sid) && Distinct(a.writers)
    requires a'.peers == a.peers && a'.queue == a.queue
    requires a'.writers == a.writers || a'.writers == a.writers + [sid + 1]
    ensures LineFormed(a', lines, sid + 1) && Distinct(a'.writers)
  {
  }

  lemma NewcomerApart(a: Line, b: Line, a': Line, lines: nat, sid: nat)
    requires Apart(a, b) && LineFormed(b, lines, sid)
    requires a'.writers == a.writers || a'.writers == a.writers + [sid + 1]
    ensures Apart(a', b) && Apart(b, a')
  {
    forall x | x in a'.writers ensures x !in b.writers {
      assert x in a.writers || x == sid + 1;
    }
  }

  lemma DisconnectKeepsInv(s: Junction, line: nat, index: nat)
    requires Inv(s) && Connected(s, line, index)
    ensures Inv(DisconnectStep(s, line, index))
  {
    var s', l := DisconnectStep(s, line, index), s.lines[line];
    assert LineFormed(l, |s.lines|, s.sid);
    assert LineFormed(s'.lines[line], |s.lines|, s.sid);
    forall k, l | 0 <= k < |s.lines| && 0 <= l < |s.lines| && k != l ensures Apart(s'.lines[k], s'.lines[l]) {
      assert Apart(s.lines[k], s.lines[l]);
    }
  }

  lemma MessageOk(s: Junction, k: nat)
    requires 1 <= k < |s.wires| && NaisTape.Taken(NaisTape.FRESH, Plain(s.wires[k])) > 0
    ensures WellSized(Message(s, k).data)
  {
    NaisTape.FreshSound(Plain(s.wires[k]));
  }

  lemma ReadKeepsInv(s: Junction, line: nat, index: nat)
    requires Inv(s) && Enabled(s, Read(line, index))
    ensures Inv(ReadStep(s, line, index))
  {
    var k := Conn(s, line, index);
    assert LineFormed(s.lines[line], |s.lines|, s.sid);
    MessageOk(s, k);
    PutAllFormed(s.lines, s.lines[line].peers, Message(s, k), s.sid);
    hide LineFormed, Message, SentBy, PutAll;
    forall k, l | 0 <= k < |s.lines| && 0 <= l < |s.lines| && k != l
      ensures Apart(ReadStep(s, line, index).lines[k], ReadStep(s, line, index).lines[l])
    {
      assert Apart(s.lines[k], s.lines[l]);
    }
  }

  lemma DispatchKeepsInv(s: Junction, line: nat)
    requires Inv(s) && Enabled(s, Dispatch(line))
    ensures Inv(DispatchStep(s, line)) && s.log <= DispatchStep(s, line).log
  {
    hide AcceptAll, Writes, Stamped, DstLine, SentBy, WellSized;
    var s', l := DispatchStep(s, line), s.lines[line];
    assert LineFormed(l, |s.lines|, s.sid);
    assert LineFormed(s'.lines[line], |s.lines|, s.sid);
    if Stampable(l.queue[0]) { WritesAreSent(l.writers, l.queue[0]); }
    forall k, l | 0 <= k < |s.lines| && 0 <= l < |s.lines| && k != l ensures Apart(s'.lines[k], s'.lines[l]) {
      assert Apart(s.lines[k], s.lines[l]);
    }
  }

  lemma WritesAreSent(writers: seq<nat>, p: Packet)
    requires WellSized(p.data) && Stampable(p)
    ensures forall i :: 0 <= i < |Writes(writers, p)| ==> SentBy(Writes(writers, p)[i])
  {
    hide Stamped, Writes;
  }

  // ---------- runs ----------

  predicate Possible(s: Junction, es: seq<Event>)
    requires Formed(s)
    decreases |es|
  {
    es == [] || (Enabled(s, es[0]) && Formed(Step(s, es[0])) && Possible(Step(s, es[0]), es[1..]))
  }

  function Run(s: Junction, es: seq<Event>): Junction
    requires Formed(s) && Possible(s, es)
    decreases |es|
  {
    if es == [] then s else Run(Step(s, es[0]), es[1..])
  }

  /** Lines with peers, and nothing connected yet. */
  predicate Start(s: Junction)
  {
    && Formed(s) && s.sid == 0 && s.log == [] && s.handed == []
    && s.wires == [[]] && s.boards == [Board(NaisUart.Idle(1), {})]
    && forall l :: 0 <= l < |s.lines| ==> s.lines[l].writers == [] && s.lines[l].queue == []
  }

  /** The invariant holds throughout, and what has been written stays written. */
  lemma {:induction false} RunKeepsInv(s: Junction, es: seq<Event>)
    requires Inv(s) && Possible(s, es)
    ensures Inv(Run(s, es)) && s.log <= Run(s, es).log
    decreases |es|
  {
    if es != [] {
      StepKeepsInv(s, es[0]);
      RunKeepsInv(Step(s, es[0]), es[1..]);
    }
  }

  // ---------- connection numbers ----------

  predicate Gone(s: Junction, k: nat)
  {
    k <= s.sid && forall l :: 0 <= l < |s.lines| ==> k !in s.lines[l].writers
  }

  /** A number that was given out and whose connection has gone is never given out again. */
  lemma {:induction false} GoneStaysGone(s: Junction, es: seq<Event>, k: nat)
    requires Inv(s) && Possible(s, es) && Gone(s, k)
    ensures Gone(Run(s, es), k)
    decreases |es|
  {
    if es != [] {
      StepKeepsInv(s, es[0]);
      GoneAfterStep(s, es[0], k);
      GoneStaysGone(Step(s, es[0]), es[1..], k);
    }
  }

  lemma GoneAfterStep(s: Junction, e: Event, k: nat)
    requires Inv(s) && Enabled(s, e) && Gone(s, k)
    ensures Gone(Step(s, e), k)
  {
    if e.Read? {
      assert LineFormed(s.lines[e.line], |s.lines|, s.sid);
      MessageOk(s, Conn(s, e.line, e.index));
      PutAllFormed(s.lines, s.lines[e.line].peers, Message(s, Conn(s, e.line, e.index)), s.sid);
    }
  }

  // ---------- what the tape keeps apart ----------

  /**
   A frame that the tape takes whole and that a board hands on once: it fits the receive buffer, and its payload is not
   empty and has no start delimiter if it is longer than 127 bytes.
   */
  ghost predicate TidyFrame(data: seq<byte>)
  {
    NaisTape.Whole(data) && exists h, payload :: data == Frame(h, payload) && Receivable(payload)
  }

  predicate Receivable(payload: seq<byte>)
  {
    1 <= |payload| <= 507 && (|payload| < 128 || NaisUart.Quiet(payload))
  }

  /** A second start delimiter is the only thing that keeps such a frame from being tidy. */
  lemma OneStartIsTidy(h: Head, payload: seq<byte>)
    requires Receivable(payload) && NaisTape.OneStart(Frame(h, payload))
    ensures TidyFrame(Frame(h, payload))
  {
    NaisTape.FrameTaken(h, payload, []);
  }

  /** A line of text without a start delimiter. */
  predicate TidyLine(data: seq<byte>)
  {
    && data != [] && data[|data| - 1] == NaisTape.NEWLINE
    && forall i :: 0 <= i < |data| - 1 ==> data[i] != RECORD_START && data[i] != NaisTape.NEWLINE
  }

  /** What is sent at a time, and whom it answers. */
  datatype Piece = Piece(data: seq<byte>, causes: set<nat>)

  /** An answer is a frame for the connection it answers. */
  ghost predicate PieceOk(p: Piece)
  {
    && (TidyFrame(p.data) || TidyLine(p.data))
    && (p.causes != {} ==> IsProtobuf(p.data) && |p.data| >= 7 && p.data[DLINE] != 0 && p.causes == {p.data[DLINE]})
  }

  lemma TidyFrameStarts(data: seq<byte>)
    requires TidyFrame(data)
    ensures IsProtobuf(data) && |data| >= 7
  {
    hide NaisTape.Whole;
  }

  lemma PieceTaken(p: Piece, rest: seq<byte>)
    requires PieceOk(p)
    ensures p.data != [] && NaisTape.Taken(NaisTape.FRESH, p.data + rest) == |p.data| && WellSized(p.data)
  {
    if TidyFrame(p.data) {
      NaisTape.TakenConcat(NaisTape.FRESH, p.data, rest);
      TidyFrameStarts(p.data);
    } else {
      var line := p.data[..|p.data| - 1];
      assert p.data == line + [NaisTape.NEWLINE];
      NaisTape.LineTaken(line, rest);
      if line == [] { assert p.data[0] == NaisTape.NEWLINE; }
    }
  }

  function Flatten(ps: seq<Piece>): seq<Mark>
  {
    if ps == [] then [] else Marked(ps[0].data, ps[0].causes) + Flatten(ps[1..])
  }

  lemma {:induction false} FlattenSnoc(ps: seq<Piece>, p: Piece)
    ensures Flatten(ps + [p]) == Flatten(ps) + Marked(p.data, p.causes)
  {
    if ps == [] {
      assert [p][1..] == [] && Marked(p.data, p.causes) + [] == [] + Marked(p.data, p.causes);
    } else {
      assert (ps + [p])[1..] == ps[1..] + [p];
      FlattenSnoc(ps[1..], p);
    }
  }

  ghost predicate WireOk(wire: seq<Mark>)
  {
    exists ps: seq<Piece> :: wire == Flatten(ps) && forall i :: 0 <= i < |ps| ==> PieceOk(ps[i])
  }

  lemma WireGrows(wire: seq<Mark>, p: Piece)
    requires WireOk(wire) && PieceOk(p)
    ensures WireOk(wire + Marked(p.data, p.causes))
  {
    hide PieceOk, Flatten;
    var ps :| wire == Flatten(ps) && forall i :: 0 <= i < |ps| ==> PieceOk(ps[i]);
    FlattenSnoc(ps, p);
    assert forall i :: 0 <= i < |ps + [p]| ==> PieceOk((ps + [p])[i]);
  }

  /** The tape takes the pieces off the wire one by one. */
  lemma WireRead(wire: seq<Mark>)
    requires WireOk(wire) && NaisTape.Taken(NaisTape.FRESH, Plain(wire)) > 0
    ensures var n := NaisTape.Taken(NaisTape.FRESH, Plain(wire));
            WireOk(wire[n..]) && PieceOk(Piece(Plain(wire)[..n], Causes(wire[..n])))
  {
    hide PieceOk;
    var ps :| wire == Flatten(ps) && forall i :: 0 <= i < |ps| ==> PieceOk(ps[i]);
    assert ps != [];
    var p: Piece, rest := ps[0], Flatten(ps[1..]);
    var head := Marked(p.data, p.causes);
    assert Plain(wire) == p.data + Plain(rest);
    PieceTaken(p, Plain(rest));
    CausesOfMarked(p.data, p.causes);
    var n := |p.data|;
    assert wire[..n] == head && wire[n..] == rest && Plain(wire)[..n] == p.data;
    assert forall i :: 0 <= i < |ps[1..]| ==> PieceOk(ps[1..][i]);
  }

  // ---------- what the boards make of it ----------

  ghost predicate BoardOk(b: Board)
  {
    b.loop == NaisUart.Idle(b.loop.multiplier) && b.origins == {}
  }

  /** A frame that was handed on came from the connection that is stamped in it. */
  predicate HandedOk(h: Handed)
  {
    |h.content| >= 5 && h.content[SLINE - 1] != 0 && h.origins == {h.content[SLINE - 1]}
  }

  /** An answer is written to whom it answers. */
  predicate AtHome(w: Write)
  {
    forall c :: c in w.causes ==> c == w.to
  }

  /** No idle board overruns its buffer. */
  ghost predicate Fits(w: Write)
  {
    forall m :: NaisUart.Room(NaisUart.Idle(m), w.data)
  }

  lemma WriteIsAtHome(p: Packet, to: nat)
    requires WellSized(p.data) && Stampable(p) && PieceOk(Piece(p.data, p.causes)) && Addressed(to, p)
    ensures AtHome(Write(to, Stamped(p), p.srcLine, p.causes))
  {
  }

  /** A board that was idle hands on nothing but the frame that is written, and is idle again. */
  lemma BoardReceives(b: Board, p: Packet, w: Write)
    requires BoardOk(b) && PieceOk(Piece(p.data, p.causes)) && p.srcLine >= 1
    requires WellSized(p.data) && Stampable(p) && w.data == Stamped(p) && w.sender == p.srcLine
    ensures BoardOk(Receive(b, w).0) && forall i :: 0 <= i < |Receive(b, w).1| ==> HandedOk(Receive(b, w).1[i])
    ensures Fits(w)
  {
    hide Frame, NaisUart.Run, NaisUart.Room, NaisTape.Whole;
    if TidyFrame(p.data) {
      var h, payload :| p.data == Frame(h, payload) && Receivable(payload);
      TidyFrameStarts(p.data);
      StampedFrame(h, payload, p.srcLine);
      FrameHandedOn(b.loop.multiplier, h.(sline := p.srcLine), payload);
      ContentBegins(h.(sline := p.srcLine), payload);
      forall m ensures NaisUart.Room(NaisUart.Idle(m), w.data) {
        NaisUart.LongFrameRoom(m, h.(sline := p.srcLine), payload);
      }
    } else {
      assert NaisUart.Quiet(p.data);
      NaisUart.NoiseRun(b.loop.multiplier, p.data);
      forall m ensures NaisUart.Room(NaisUart.Idle(m), w.data) {
        NaisUart.NoiseRoom(m, w.data);
      }
    }
  }

  lemma FrameHandedOn(m: nat, h: Head, payload: seq<byte>)
    requires Receivable(payload)
    ensures var (u, out) := NaisUart.Run(NaisUart.Idle(m), Frame(h, payload));
            u == NaisUart.Idle(u.multiplier) && out == [Content(h, payload)[..|payload| + 5]]
  {
    hide Frame, NaisUart.Run;
    if |payload| < 128 {
      NaisUart.FrameHandsOn(m, h, payload);
    } else {
      NaisUart.QuietFrameRun(m, h, payload);
    }
  }

  lemma StampedFrame(h: Head, payload: seq<byte>, sline: byte)
    ensures |Frame(h, payload)| > SLINE && Frame(h, payload)[SLINE := sline] == Frame(h.(sline := sline), payload)
  {
    var rest := [h.dline, h.flags] + Base128.Varint(|payload|) + payload + [RECORD_END];
    assert Frame(h, payload) == [RECORD_START, h.kind, h.sline] + rest;
    assert Frame(h.(sline := sline), payload) == [RECORD_START, h.kind, sline] + rest;
  }

  lemma ContentBegins(h: Head, payload: seq<byte>)
    ensures |Content(h, payload)| >= |payload| + 5
    ensures Content(h, payload)[..|payload| + 5][SLINE - 1] == h.sline
  {
  }

  // ---------- every answer goes home ----------

  ghost predicate Orderly(s: Junction)
    requires Formed(s)
  {
    && (forall k :: 0 <= k < |s.wires| ==> WireOk(s.wires[k]))
    && (forall l :: 0 <= l < |s.lines| ==> QueueOk(s.lines[l].queue))
    && Served(s)
  }

  ghost predicate Served(s: Junction)
  {
    && (forall k :: 0 <= k < |s.boards| ==> BoardOk(s.boards[k]))
    && (forall i :: 0 <= i < |s.handed| ==> HandedOk(s.handed[i]))
    && (forall i :: 0 <= i < |s.log| ==> AtHome(s.log[i]) && Fits(s.log[i]))
  }

  ghost predicate QueueOk(queue: seq<Packet>)
  {
    forall i :: 0 <= i < |queue| ==> PieceOk(Piece(queue[i].data, queue[i].causes))
  }

  /**
   What a sender can see to: he sends frames that are taken whole and fit, and lines of text, one at a time, and answers
   with such frames.
   */
  ghost predicate TidyEvent(s: Junction, e: Event)
    requires Formed(s) && Enabled(s, e)
  {
    match e
    case Send(_, _, data) => TidyFrame(data) || TidyLine(data)
    case Answer(_, _, h, payload) => TidyFrame(Ack(s.handed[h].content, payload))
    case _ => true
  }

  ghost predicate AllTidy(s: Junction, es: seq<Event>)
    requires Formed(s) && Possible(s, es)
    decreases |es|
  {
    es == [] || (TidyEvent(s, es[0]) && AllTidy(Step(s, es[0]), es[1..]))
  }

  lemma AnswerIsPiece(h: Handed, payload: seq<byte>)
    requires HandedOk(h) && TidyFrame(Ack(h.content, payload))
    ensures PieceOk(Piece(Ack(h.content, payload), h.origins))
  {
    hide TidyFrame, Ack;
    TidyFrameStarts(Ack(h.content, payload));
  }

  lemma UnsolicitedIsPiece(data: seq<byte>)
    requires TidyFrame(data) || TidyLine(data)
    ensures PieceOk(Piece(data, {}))
  {
  }

  lemma StepKeepsOrder(s: Junction, e: Event)
    requires Inv(s) && Orderly(s) && Enabled(s, e) && TidyEvent(s, e)
    ensures Formed(Step(s, e)) && Orderly(Step(s, e))
  {
    hide Orderly, WireOk, PieceOk, Ack, Inv, LineFormed, ConnectStep, DisconnectStep, ReadStep, DispatchStep, WithWire;
    FormedByInv(s);
    StepKeepsInv(s, e);
    FormedByInv(Step(s, e));
    match e
    case Connect(line) => ConnectKeepsOrder(s, line);
    case Disconnect(line, index) => DisconnectKeepsOrder(s, line, index);
    case Send(line, index, data) =>
      assert PieceOk(Piece(data, {})) by { UnsolicitedIsPiece(data); }
      SendKeepsOrder(s, Conn(s, line, index), Piece(data, {}));
    case Answer(line, index, h, payload) => AnswerKeepsOrder(s, Conn(s, line, index), h, payload);
    case Read(line, index) => ReadKeepsOrder(s, line, index);
    case Dispatch(line) => DispatchKeepsOrder(s, line);
  }

  lemma ConnectKeepsOrder(s: Junction, line: nat)
    requires Formed(s) && Orderly(s) && line < |s.lines| && Formed(ConnectStep(s, line))
    ensures Orderly(ConnectStep(s, line))
  {
    hide LineFormed, QueueOk, WireOk;
    EmptyWire();
  }

  lemma EmptyWire()
    ensures WireOk([])
  {
    assert Flatten([]) == [];
  }

  lemma DisconnectKeepsOrder(s: Junction, line: nat, index: nat)
    requires Formed(s) && Orderly(s) && Connected(s, line, index) && Formed(DisconnectStep(s, line, index))
    ensures Orderly(DisconnectStep(s, line, index))
  {
    hide LineFormed, QueueOk, WireOk;
  }

  lemma SendKeepsOrder(s: Junction, k: nat, p: Piece)
    requires Formed(s) && Orderly(s) && k < |s.wires| && PieceOk(p)
    requires Formed(WithWire(s, k, s.wires[k] + Marked(p.data, p.causes)))
    ensures Orderly(WithWire(s, k, s.wires[k] + Marked(p.data, p.causes)))
  {
    hide LineFormed, QueueOk, WireOk, PieceOk;
    WireGrows(s.wires[k], p);
  }

  lemma AnswerKeepsOrder(s: Junction, k: nat, h: nat, payload: seq<byte>)
    requires Formed(s) && Orderly(s) && k < |s.wires| && h < |s.handed| && |s.handed[h].content| >= 5
    requires TidyFrame(Ack(s.handed[h].content, payload))
    requires var wire := s.wires[k] + Marked(Ack(s.handed[h].content, payload), s.handed[h].origins);
             Formed(WithWire(s, k, wire))
    ensures var wire := s.wires[k] + Marked(Ack(s.handed[h].content, payload), s.handed[h].origins);
            Orderly(WithWire(s, k, wire))
  {
    hide LineFormed, QueueOk, WireOk, PieceOk, Ack, TidyFrame;
    AnswerIsPiece(s.handed[h], payload);
    SendKeepsOrder(s, k, Piece(Ack(s.handed[h].content, payload), s.handed[h].origins));
  }

  lemma ReadKeepsOrder(s: Junction, line: nat, index: nat)
    requires Inv(s) && Orderly(s) && Enabled(s, Read(line, index))
    requires Formed(ReadStep(s, line, index))
    ensures Orderly(ReadStep(s, line, index))
  {
    hide WireOk, PieceOk, BoardOk, HandedOk, AtHome, SentBy;
    var k := Conn(s, line, index);
    WireRead(s.wires[k]);
    assert LineFormed(s.lines[line], |s.lines|, s.sid);
    forall l | 0 <= l < |s.lines| ensures QueueOk(ReadStep(s, line, index).lines[l].queue) {
      PutAllLeaves(s.lines, s.lines[line].peers, Message(s, k), l);
    }
  }

  lemma DispatchKeepsOrder(s: Junction, line: nat)
    requires Inv(s) && Orderly(s) && Enabled(s, Dispatch(line))
    requires Formed(DispatchStep(s, line))
    ensures Orderly(DispatchStep(s, line))
  {
    hide WireOk, PieceOk, BoardOk, HandedOk, AtHome, SentBy;
    var l := s.lines[line];
    assert LineFormed(l, |s.lines|, s.sid);
    var p := l.queue[0];
    if Stampable(p) {
      AcceptAllInOrder(Dequeue(s, line), p, Writes(l.writers, p));
    }
  }

  lemma {:induction false} AcceptAllInOrder(s: Junction, p: Packet, ws: seq<Write>)
    requires |s.boards| == s.sid + 1 && p.srcLine >= 1
    requires WellSized(p.data) && Stampable(p) && PieceOk(Piece(p.data, p.causes))
    requires forall i :: 0 <= i < |ws| ==>
               && ws[i].to < |s.boards| && Addressed(ws[i].to, p)
               && ws[i] == Write(ws[i].to, Stamped(p), p.srcLine, p.causes)
    requires Served(s)
    ensures Served(AcceptAll(s, ws))
    decreases |ws|
  {
    hide PieceOk, Served;
    if ws != [] {
      var front, w := ws[..|ws| - 1], ws[|ws| - 1];
      AcceptAllInOrder(s, p, front);
      AcceptInOrder(AcceptAll(s, front), p, w);
    }
  }

  lemma AcceptInOrder(s: Junction, p: Packet, w: Write)
    requires p.srcLine >= 1 && w.to < |s.boards| && Served(s)
    requires WellSized(p.data) && Stampable(p) && PieceOk(Piece(p.data, p.causes)) && Addressed(w.to, p)
    requires w == Write(w.to, Stamped(p), p.srcLine, p.causes)
    ensures Served(Accept(s, w))
  {
    hide PieceOk, BoardOk, HandedOk, AtHome, Receive;
    assert BoardOk(s.boards[w.to]);
    BoardReceives(s.boards[w.to], p, w);
    WriteIsAtHome(p, w.to);
  }

  lemma {:induction false} RunKeepsOrder(s: Junction, es: seq<Event>)
    requires Inv(s) && Orderly(s) && Possible(s, es) && AllTidy(s, es)
    ensures Formed(Run(s, es)) && Orderly(Run(s, es))
    decreases |es|
  {
    if es != [] {
      StepKeepsInv(s, es[0]);
      StepKeepsOrder(s, es[0]);
      RunKeepsOrder(Step(s, es[0]), es[1..]);
    }
  }

  /**
   However things interleave: if every frame that is sent is taken whole and fits, an answer to what connection `k` has
   sent is written to `k` only, and no board overruns its buffer.
   */
  lemma AnswersGoHome(s: Junction, es: seq<Event>)
    requires Start(s) && Possible(s, es) && AllTidy(s, es)
    ensures var end := Run(s, es);
            && (forall i, c :: 0 <= i < |end.log| && c in end.log[i].causes ==> c == end.log[i].to)
            && (forall i :: 0 <= i < |end.log| ==> Fits(end.log[i]))
            && (forall k :: 0 <= k < |end.boards| ==> end.boards[k].loop.sts == NaisUart.WaitStart)
  {
    assert Flatten([]) == [];
    RunKeepsOrder(s, es);
    forall i, c | 0 <= i < |Run(s, es).log| && c in Run(s, es).log[i].causes ensures c == Run(s, es).log[i].to {
      assert AtHome(Run(s, es).log[i]);
    }
  }

  lemma {:induction false} WritesOfAnswer(writers: seq<nat>, p: Packet)
    requires WellSized(p.data) && Stampable(p) && DstLine(p) != 0 && Distinct(writers)
    ensures Writes(writers, p) ==
            if DstLine(p) in writers then [Write(DstLine(p), Stamped(p), p.srcLine, p.causes)] else []
    decreases |writers|
  {
    if writers != [] {
      var front, w := writers[..|writers| - 1], writers[|writers| - 1];
      WritesOfAnswer(front, p);
      assert writers == front + [w];
    }
  }

  /** An answer is written once if its connection is still there, and not at all if it has gone. */
  lemma AnswerWrittenOnce(s: Junction, line: nat)
    requires Inv(s) && Enabled(s, Dispatch(line)) && Orderly(s) && s.lines[line].queue[0].causes != {}
    ensures var p, l := s.lines[line].queue[0], s.lines[line];
            && WellSized(p.data) && p.causes == {DstLine(p)}
            && Step(s, Dispatch(line)).log == s.log +
                 if DstLine(p) in l.writers && Stampable(p)
                 then [Write(DstLine(p), Stamped(p), p.srcLine, p.causes)] else []
  {
    var p, l := s.lines[line].queue[0], s.lines[line];
    assert LineFormed(l, |s.lines|, s.sid) && QueueOk(l.queue);
    assert PieceOk(Piece(p.data, p.causes));
    if Stampable(p) {
      WritesOfAnswer(l.writers, p);
    } else {
      assert s.log + [] == s.log;
    }
  }

  // ---------- runs of a few events ----------

  lemma TwoEvents(s: Junction, x: Event, y: Event)
    requires Formed(s) && Enabled(s, x) && Formed(Step(s, x)) && Enabled(Step(s, x), y) && Formed(Step(Step(s, x), y))
    ensures Possible(s, [x, y]) && Run(s, [x, y]) == Step(Step(s, x), y)
  {
    hide Formed, Enabled, Step;
    OneEvent(Step(s, x), y);
    assert [x, y][1..] == [y];
  }

  lemma OneEvent(s: Junction, x: Event)
    requires Formed(s) && Enabled(s, x) && Formed(Step(s, x))
    ensures Possible(s, [x]) && Run(s, [x]) == Step(s, x)
  {
    hide Formed, Enabled, Step;
    assert [x][1..] == [];
    assert Possible(Step(s, x), []) && Run(Step(s, x), []) == Step(s, x);
  }

  lemma FormedByInv(s: Junction)
    requires Inv(s)
    ensures Formed(s) && |s.wires| == |s.boards| == s.sid + 1
  {
  }

  lemma ThreeEvents(s: Junction, x: Event, y: Event, z: Event)
    requires Formed(s) && Enabled(s, x) && Formed(Step(s, x)) && Enabled(Step(s, x), y)
    requires Formed(Step(Step(s, x), y)) && Enabled(Step(Step(s, x), y), z) && Formed(Step(Step(Step(s, x), y), z))
    ensures Possible(s, [x, y, z]) && Run(s, [x, y, z]) == Step(Step(Step(s, x), y), z)
  {
    hide Formed, Enabled, Step;
    assert [x, y, z][1..] == [y, z];
    TwoEvents(Step(s, x), y, z);
  }

  lemma {:induction false} RunOn(s: Junction, a: seq<Event>, b: seq<Event>)
    requires Formed(s) && Possible(s, a) && Formed(Run(s, a)) && Possible(Run(s, a), b)
    ensures Possible(s, a + b) && Run(s, a + b) == Run(Run(s, a), b)
    decreases |a|
  {
    hide Step, Enabled, Formed;
    if a == [] {
      assert a + b == b;
    } else {
      assert (a + b)[1..] == a[1..] + b;
      RunOn(Step(s, a[0]), a[1..], b);
    }
  }
}
