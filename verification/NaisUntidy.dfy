/** What becomes of an answer that the tape does not take as it is, and of those that follow it. */
module NaisUntidy {
  import opened Bytes
  import opened NaisFrame
  import opened NaisRouting
  import opened NaisRemains
  import NaisTape

  // ---------- it is never read by itself ----------

  /** Whole messages, then these bytes, then anything. */
  ghost predicate Queued(wire: seq<Mark>, g: seq<Mark>)
  {
    exists ps: seq<Piece>, more: seq<Mark> :: AllWhole(ps) && wire == Flatten(ps) + (g + more)
  }

  ghost predicate AllWhole(ps: seq<Piece>)
  {
    forall i :: 0 <= i < |ps| ==> NaisTape.Whole(ps[i].data)
  }

  /** Nothing but whole messages. */
  ghost predicate Settled(wire: seq<Mark>)
  {
    exists ps: seq<Piece> :: AllWhole(ps) && wire == Flatten(ps)
  }

  /** A message that begins with these bytes and has others in it, and is for the connection that they are for. */
  predicate Swallows(m: Packet, f: seq<byte>, causes: set<nat>)
  {
    |m.data| > |f| && m.data[..|f|] == f && causes <= m.causes
  }

  lemma {:induction false} CausesConcat(a: seq<Mark>, b: seq<Mark>)
    ensures Causes(a + b) == Causes(a) + Causes(b)
  {
    if a == [] {
      assert a + b == b;
    } else {
      assert (a + b)[1..] == a[1..] + b;
      CausesConcat(a[1..], b);
    }
  }

  /** What is read is a whole message in front of the bytes, or swallows them. */
  lemma ReadAhead(wire: seq<Mark>, f: seq<byte>, causes: set<nat>)
    requires Queued(wire, Marked(f, causes)) && f != [] && NaisTape.Taken(NaisTape.FRESH, f) == 0
    requires NaisTape.Taken(NaisTape.FRESH, Plain(wire)) > 0
    ensures var n := NaisTape.Taken(NaisTape.FRESH, Plain(wire));
            Queued(wire[n..], Marked(f, causes)) || Swallows(Packet(Plain(wire)[..n], 0, Causes(wire[..n])), f, causes)
  {
    hide NaisTape.Taken, NaisTape.After, NaisTape.Whole, Causes;
    var g := Marked(f, causes);
    var ps: seq<Piece>, more: seq<Mark> :| AllWhole(ps) && wire == Flatten(ps) + (g + more);
    if ps == [] {
      assert wire == g + more;
      FrontSwallowed(f, causes, more);
    } else {
      var p, rest := ps[0], Flatten(ps[1..]) + (g + more);
      var n := NaisTape.Taken(NaisTape.FRESH, Plain(wire));
      assert wire == Marked(p.data, p.causes) + rest;
      WholeInFront(p, rest);
      assert AllWhole(ps[1..]) by { assert forall i :: 0 <= i < |ps[1..]| ==> ps[1..][i] == ps[i + 1]; }
      assert wire[n..] == rest;
    }
  }

  lemma WholeInFront(p: Piece, rest: seq<Mark>)
    requires NaisTape.Whole(p.data)
    ensures NaisTape.Taken(NaisTape.FRESH, Plain(Marked(p.data, p.causes) + rest)) == |p.data|
  {
    hide NaisTape.Taken, NaisTape.After;
    assert Plain(Marked(p.data, p.causes) + rest) == p.data + Plain(rest);
    NaisTape.TakenConcat(NaisTape.FRESH, p.data, Plain(rest));
  }

  lemma FrontSwallowed(f: seq<byte>, causes: set<nat>, more: seq<Mark>)
    requires f != [] && NaisTape.Taken(NaisTape.FRESH, f) == 0
    requires NaisTape.Taken(NaisTape.FRESH, Plain(Marked(f, causes) + more)) > 0
    ensures var wire := Marked(f, causes) + more;
            var n := NaisTape.Taken(NaisTape.FRESH, Plain(wire));
            Swallows(Packet(Plain(wire)[..n], 0, Causes(wire[..n])), f, causes)
  {
    hide NaisTape.Taken, NaisTape.After;
    var g := Marked(f, causes);
    var wire := g + more;
    var n := NaisTape.Taken(NaisTape.FRESH, Plain(wire));
    assert Plain(wire) == f + Plain(more);
    NaisTape.TakenConcat(NaisTape.FRESH, f, Plain(more));
    assert wire[..n] == g + more[..n - |f|];
    CausesConcat(g, more[..n - |f|]);
    CausesOfMarked(f, causes);
  }

  lemma QueuedGrows(wire: seq<Mark>, g: seq<Mark>, b: seq<Mark>)
    requires Queued(wire, g)
    ensures Queued(wire + b, g)
  {
    var ps: seq<Piece>, more: seq<Mark> :| AllWhole(ps) && wire == Flatten(ps) + (g + more);
    assert wire + b == Flatten(ps) + (g + (more + b));
  }

  /** Any event leaves them where they are, or is the reading of a message that swallows them. */
  lemma StepKeepsQueued(s: Junction, e: Event, k: nat, f: seq<byte>, causes: set<nat>)
    requires Inv(s) && Enabled(s, e) && k <= s.sid && Queued(s.wires[k], Marked(f, causes))
    requires f != [] && NaisTape.Taken(NaisTape.FRESH, f) == 0
    ensures k < |Step(s, e).wires|
    ensures Queued(Step(s, e).wires[k], Marked(f, causes)) || (e.Read? && ReadsFrom(s, e, k, f, causes))
  {
    hide Queued, Swallows, Ack, PutAll, AcceptAll, Writes, NaisTape.Taken, LineFormed;
    match e
    case Send(line, index, data) =>
      QueuedGrows(s.wires[k], Marked(f, causes), Marked(data, {}));
    case Answer(line, index, h, payload) =>
      QueuedGrows(s.wires[k], Marked(f, causes), Marked(Ack(s.handed[h].content, payload), s.handed[h].origins));
    case Read(line, index) =>
      if Conn(s, line, index) == k {
        ReadAhead(s.wires[k], f, causes);
        SwallowsAnySource(Message(s, k), f, causes);
      }
    case _ =>
  }

  lemma SwallowsAnySource(m: Packet, f: seq<byte>, causes: set<nat>)
    ensures Swallows(m, f, causes) == Swallows(m.(srcLine := 0), f, causes)
  {
  }

  /** The event reads a message from connection `k`, and that swallows the bytes. */
  predicate ReadsFrom(s: Junction, e: Event, k: nat, f: seq<byte>, causes: set<nat>)
    requires Formed(s) && Enabled(s, e)
  {
    e.Read? && Conn(s, e.line, e.index) == k && Swallows(Message(s, k), f, causes)
  }

  /** Over every run: the bytes are where they were, or have been read as part of a longer message. */
  lemma {:induction false} RunKeepsQueued(s: Junction, es: seq<Event>, k: nat, f: seq<byte>, causes: set<nat>)
    requires Inv(s) && Possible(s, es) && k <= s.sid && Queued(s.wires[k], Marked(f, causes))
    requires f != [] && NaisTape.Taken(NaisTape.FRESH, f) == 0
    ensures Formed(Run(s, es))
    ensures SomeReadFrom(s, es, k, f, causes)
            || (k < |Run(s, es).wires| && Queued(Run(s, es).wires[k], Marked(f, causes)))
    decreases |es|
  {
    hide Queued, ReadsFrom, Step, Enabled, Inv, NaisTape.Taken, LineFormed;
    FormedByInv(s);
    if es != [] {
      var next := Step(s, es[0]);
      StepKeepsInv(s, es[0]);
      FormedByInv(next);
      StepKeepsQueued(s, es[0], k, f, causes);
      if Queued(next.wires[k], Marked(f, causes)) {
        RunKeepsQueued(next, es[1..], k, f, causes);
      } else {
        RunKeepsInv(next, es[1..]);
        FormedByInv(Run(next, es[1..]));
      }
    }
  }

  predicate SomeReadFrom(s: Junction, es: seq<Event>, k: nat, f: seq<byte>, causes: set<nat>)
    requires Formed(s) && Possible(s, es)
    decreases |es|
  {
    es != [] && (ReadsFrom(s, es[0], k, f, causes) || SomeReadFrom(Step(s, es[0]), es[1..], k, f, causes))
  }

  /**
   An answer that the tape does not take is never read by itself, over any run that follows: it waits on the wire until
   it is read as the beginning of a longer message, and that is for the connection of this answer.
   */
  lemma UntidyAnswerSticks(s: Junction, es: seq<Event>)
    requires Inv(s) && Possible(s, es) && es != [] && es[0].Answer?
    requires Settled(s.wires[Conn(s, es[0].line, es[0].index)])
    requires NaisTape.Taken(NaisTape.FRESH, Ack(s.handed[es[0].handed].content, es[0].payload)) == 0
    ensures var k, next := Conn(s, es[0].line, es[0].index), Step(s, es[0]);
            var f, causes := Ack(s.handed[es[0].handed].content, es[0].payload), s.handed[es[0].handed].origins;
            && Formed(next) && Possible(next, es[1..]) && Formed(Run(next, es[1..]))
            && (SomeReadFrom(next, es[1..], k, f, causes)
                || (k < |Run(next, es[1..]).wires| && Queued(Run(next, es[1..]).wires[k], Marked(f, causes))))
  {
    hide Ack, Queued, NaisTape.Taken, LineFormed;
    var k, next := Conn(s, es[0].line, es[0].index), Step(s, es[0]);
    var f, causes := Ack(s.handed[es[0].handed].content, es[0].payload), s.handed[es[0].handed].origins;
    StepKeepsInv(s, es[0]);
    SettledThen(s.wires[k], Marked(f, causes));
    RunKeepsQueued(next, es[1..], k, f, causes);
  }

  lemma SettledThen(wire: seq<Mark>, g: seq<Mark>)
    requires Settled(wire)
    ensures Queued(wire + g, g)
  {
    var ps: seq<Piece> :| AllWhole(ps) && wire == Flatten(ps);
    assert wire + g == Flatten(ps) + (g + []);
  }

  /** For the connection that it begins with, and never for another. */
  lemma SwallowerIsFor(m: Packet, f: seq<byte>, causes: set<nat>)
    requires Swallows(m, f, causes) && IsProtobuf(f) && |f| >= 7
    ensures WellSized(m.data) && DstLine(m) == f[DLINE]
  {
    assert m.data[DLINE] == f[DLINE] && m.data[0] == f[0];
  }

  // ---------- two answers ----------

  /** Two things that have been handed on to the connection at this place. */
  predicate BothHanded(s: Junction, line: nat, index: nat, a: nat, b: nat)
    requires Formed(s)
  {
    && Connected(s, line, index) && a < |s.handed| && b < |s.handed|
    && s.handed[a].at == Conn(s, line, index) && |s.handed[a].content| >= 5
    && s.handed[b].at == Conn(s, line, index) && |s.handed[b].content| >= 5
  }

  /** Both on the wire, behind what is there. */
  function WithTwo(s: Junction, k: nat, x: seq<Mark>, y: seq<Mark>): Junction
    requires k < |s.wires|
  {
    WithWire(s, k, s.wires[k] + x + y)
  }

  function AnswerMarks(s: Junction, a: nat, payload: seq<byte>): seq<Mark>
    requires a < |s.handed| && |s.handed[a].content| >= 5
  {
    Marked(Ack(s.handed[a].content, payload), s.handed[a].origins)
  }

  lemma TwoAnswers(s: Junction, line: nat, index: nat, a: nat, b: nat, first: seq<byte>, second: seq<byte>)
    requires Inv(s) && BothHanded(s, line, index, a, b)
    ensures var es := [Answer(line, index, a, first), Answer(line, index, b, second)];
            && Possible(s, es) && Inv(Run(s, es))
            && Run(s, es) == WithTwo(s, Conn(s, line, index), AnswerMarks(s, a, first), AnswerMarks(s, b, second))
  {
    hide Ack, Inv, LineFormed, Possible, Run;
    var e, e' := Answer(line, index, a, first), Answer(line, index, b, second);
    StepKeepsInv(s, e);
    FormedByInv(s);
    FormedByInv(Step(s, e));
    var mid := Step(s, e);
    StepKeepsInv(mid, e');
    FormedByInv(Step(mid, e'));
    TwoEvents(s, e, e');
  }

  /**
   If the tape is left open, and a frame without a second start delimiter follows, both are read as a single message
   together with what was there.
   */
  lemma UntidyAnswersMix(s: Junction, line: nat, index: nat, a: nat, b: nat, first: seq<byte>, second: seq<byte>)
    requires Inv(s) && BothHanded(s, line, index, a, b)
    requires Open(Plain(s.wires[Conn(s, line, index)]) + Ack(s.handed[a].content, first))
    requires NaisTape.OneStart(Ack(s.handed[b].content, second))
    ensures var es := [Answer(line, index, a, first), Answer(line, index, b, second)];
            && Possible(s, es) && Formed(Run(s, es))
            && var k, r := Conn(s, line, index), Run(s, es);
               && k < |r.wires| && Enabled(r, Read(line, index))
               && Message(r, k) == Packet(Plain(s.wires[k])
                                          + (Ack(s.handed[a].content, first) + Ack(s.handed[b].content, second)), k,
                                          Causes(s.wires[k]) + (s.handed[a].origins + s.handed[b].origins))
  {
    hide Ack, Open, Inv, LineFormed, Possible, Run, NaisTape.Taken, NaisTape.OneStart;
    FormedByInv(s);
    TwoAnswers(s, line, index, a, b, first, second);
    var k, w := Conn(s, line, index), s.wires[Conn(s, line, index)];
    var x, y := Ack(s.handed[a].content, first), Ack(s.handed[b].content, second);
    AckIsFrame(s.handed[b].content, second);
    OpenIsJoined(Plain(w) + x, Head(ACK_TYPE, 0, s.handed[b].content[SLINE - 1], 0), second);
    WireOfThree(w, x, s.handed[a].origins, y, s.handed[b].origins);
  }

  lemma AckIsFrame(content: seq<byte>, payload: seq<byte>)
    requires |content| >= 5
    ensures Ack(content, payload) == Frame(Head(ACK_TYPE, 0, content[SLINE - 1], 0), payload)
    ensures |Ack(content, payload)| >= 7
  {
  }

  lemma WireOfThree(w: seq<Mark>, x: seq<byte>, causes: set<nat>, y: seq<byte>, causes': set<nat>)
    requires x != [] && y != []
    ensures var wire := w + Marked(x, causes) + Marked(y, causes');
            && Plain(wire) == Plain(w) + x + y == Plain(w) + (x + y) && wire[..|Plain(wire)|] == wire
            && Causes(wire) == Causes(w) + (causes + causes')
  {
    CausesConcat(w + Marked(x, causes), Marked(y, causes'));
    CausesConcat(w, Marked(x, causes));
    CausesOfMarked(x, causes);
    CausesOfMarked(y, causes');
  }

  /**
   If the tape takes less than the whole answer, what is left over is read together with the next one, as a message that
   is no frame and therefore for everyone.
   */
  lemma LeftOverIsForAll(s: Junction, line: nat, index: nat, a: nat, b: nat, first: seq<byte>, second: seq<byte>,
                         n: nat)
    requires Inv(s) && BothHanded(s, line, index, a, b) && s.wires[Conn(s, line, index)] == []
    requires n == NaisTape.Taken(NaisTape.FRESH, Ack(s.handed[a].content, first))
    requires 0 < n < |Ack(s.handed[a].content, first)| && Ack(s.handed[a].content, first)[n] != RECORD_START
    requires Open(Ack(s.handed[a].content, first)[n..]) && NaisTape.OneStart(Ack(s.handed[b].content, second))
    ensures var es, read := [Answer(line, index, a, first), Answer(line, index, b, second)], Read(line, index);
            && Possible(s, es) && Formed(Run(s, es)) && Enabled(Run(s, es), read)
            && var k, r, x := Conn(s, line, index), Run(s, es), Ack(s.handed[a].content, first);
               && k < |r.wires| && Message(r, k) == Packet(x[..n], k, s.handed[a].origins)
               && var q := Step(r, read);
                  && Inv(q) && k < |q.wires| && Enabled(q, read)
                  && Message(q, k) == Packet(x[n..] + Ack(s.handed[b].content, second), k,
                                             s.handed[a].origins + s.handed[b].origins)
                  && WellSized(Message(q, k).data) && DstLine(Message(q, k)) == 0
  {
    hide Ack, Open, Inv, LineFormed, Possible, Run, NaisTape.Taken, NaisTape.OneStart, PutAll, Causes;
    FormedByInv(s);
    TwoAnswers(s, line, index, a, b, first, second);
    var k, read := Conn(s, line, index), Read(line, index);
    var x, y := Ack(s.handed[a].content, first), Ack(s.handed[b].content, second);
    var r := Run(s, [Answer(line, index, a, first), Answer(line, index, b, second)]);
    FormedByInv(r);
    AckIsFrame(s.handed[b].content, second);
    OpenIsJoined(x[n..], Head(ACK_TYPE, 0, s.handed[b].content[SLINE - 1], 0), second);
    CutWire(x, s.handed[a].origins, y, s.handed[b].origins, n);
    ReadKeepsPlace(r, line, index);
  }

  lemma ReadKeepsPlace(s: Junction, line: nat, index: nat)
    requires Inv(s) && Enabled(s, Read(line, index))
    ensures var q, k := Step(s, Read(line, index)), Conn(s, line, index);
            && Inv(q) && Connected(q, line, index) && Conn(q, line, index) == k
            && k < |q.wires| && q.wires[k] == s.wires[k][NaisTape.Taken(NaisTape.FRESH, Plain(s.wires[k]))..]
  {
    hide NaisTape.Taken, PutAll;
    var k := Conn(s, line, index);
    StepKeepsInv(s, Read(line, index));
    MessageOk(s, k);
    assert LineFormed(s.lines[line], |s.lines|, s.sid);
    PutAllFormed(s.lines, s.lines[line].peers, Message(s, k), s.sid);
  }

  lemma CutWire(x: seq<byte>, causes: set<nat>, y: seq<byte>, causes': set<nat>, n: nat)
    requires 0 < n < |x| && y != [] && n == NaisTape.Taken(NaisTape.FRESH, x) && NaisTape.Whole(x[n..] + y)
    ensures var wire := [] + Marked(x, causes) + Marked(y, causes');
            && NaisTape.Taken(NaisTape.FRESH, Plain(wire)) == n
            && Plain(wire)[..n] == x[..n] && Causes(wire[..n]) == causes
            && var rest := wire[n..];
               && NaisTape.Taken(NaisTape.FRESH, Plain(rest)) == |rest|
               && Plain(rest)[..|rest|] == x[n..] + y && Causes(rest[..|rest|]) == causes + causes'
  {
    hide NaisTape.Taken, NaisTape.After, Causes;
    var wire := [] + Marked(x, causes) + Marked(y, causes');
    assert Plain(wire) == x + y;
    NaisTape.TakenConcat(NaisTape.FRESH, x, y);
    assert wire[..n] == Marked(x[..n], causes);
    CausesOfMarked(x[..n], causes);
    var rest := wire[n..];
    assert rest == Marked(x[n..], causes) + Marked(y, causes') && Plain(rest) == x[n..] + y && rest[..|rest|] == rest;
    CausesConcat(Marked(x[n..], causes), Marked(y, causes'));
    CausesOfMarked(x[n..], causes);
    CausesOfMarked(y, causes');
  }

  // ---------- a connection that goes deaf ----------

  /** All that is sent over connection `k` are frames with a payload and one start delimiter each. */
  ghost predicate FramesOnly(s: Junction, es: seq<Event>, k: nat)
    requires Formed(s) && Possible(s, es)
    decreases |es|
  {
    es == [] || (FrameIfOn(s, es[0], k) && FramesOnly(Step(s, es[0]), es[1..], k))
  }

  ghost predicate FrameIfOn(s: Junction, e: Event, k: nat)
    requires Formed(s) && Enabled(s, e)
  {
    match e
    case Send(line, index, data) =>
      Conn(s, line, index) == k ==> exists h, payload ::
        data == Frame(h, payload) && NaisTape.OneStart(data) && payload != []
    case Answer(line, index, h, payload) =>
      Conn(s, line, index) == k ==> payload != [] && NaisTape.OneStart(Ack(s.handed[h].content, payload))
    case _ => true
  }

  lemma StepStaysDeaf(s: Junction, e: Event, k: nat)
    requires Inv(s) && Enabled(s, e) && k <= s.sid && Deaf(Plain(s.wires[k])) && FrameIfOn(s, e, k)
    ensures k < |Step(s, e).wires| && Deaf(Plain(Step(s, e).wires[k]))
  {
    hide Ack, PutAll, AcceptAll, Writes, NaisTape.Taken, LineFormed, Frame;
    match e
    case Send(line, index, data) =>
      if Conn(s, line, index) == k {
        var h, payload :| data == Frame(h, payload) && NaisTape.OneStart(data) && payload != [];
        assert Plain(s.wires[k] + Marked(data, {})) == Plain(s.wires[k]) + data;
        DeafStays(Plain(s.wires[k]), h, payload);
      }
    case Answer(line, index, h, payload) =>
      if Conn(s, line, index) == k {
        var x := Ack(s.handed[h].content, payload);
        AckIsFrame(s.handed[h].content, payload);
        assert Plain(s.wires[k] + Marked(x, s.handed[h].origins)) == Plain(s.wires[k]) + x;
        DeafStays(Plain(s.wires[k]), Head(ACK_TYPE, 0, s.handed[h].content[SLINE - 1], 0), payload);
      }
    case _ =>
  }

  /** Over every run of such frames nothing is read from that connection any more. */
  lemma {:induction false} DeafForGood(s: Junction, es: seq<Event>, k: nat)
    requires Inv(s) && Possible(s, es) && k <= s.sid && Deaf(Plain(s.wires[k])) && FramesOnly(s, es, k)
    ensures Formed(Run(s, es)) && k < |Run(s, es).wires| && Deaf(Plain(Run(s, es).wires[k]))
    ensures forall line, index :: Connected(Run(s, es), line, index) && Conn(Run(s, es), line, index) == k ==>
              !Enabled(Run(s, es), Read(line, index))
    decreases |es|
  {
    hide Step, Inv, NaisTape.Taken, LineFormed, FrameIfOn;
    FormedByInv(s);
    if es != [] {
      StepKeepsInv(s, es[0]);
      FormedByInv(Step(s, es[0]));
      StepStaysDeaf(s, es[0], k);
      DeafForGood(Step(s, es[0]), es[1..], k);
    }
  }
}
