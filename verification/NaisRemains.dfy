/** Bytes that complete no message: what the tape carries on from them to the frames that follow. */
module NaisRemains {
  import opened Bytes
  import opened Base128
  import opened NaisFrame
  import opened NaisTape

  /** A tape that has just taken a start delimiter. */
  predicate AtStart(t: Tape)
  {
    t.sts == BStream && t.cursor == 0 && t.plen == 0 && t.stsLen == LenNone
  }

  predicate NoStart(g: seq<byte>)
  {
    forall i :: 0 <= i < |g| ==> g[i] != RECORD_START
  }

  /** The header length and the multiplier are never set back. */
  lemma {:induction false} Grows(t: Tape, cs: seq<byte>)
    requires t.mult >= 1
    ensures After(t, cs).hlen >= t.hlen && After(t, cs).mult >= t.mult
    decreases |cs|
  {
    if cs != [] { Grows(Next(t, cs[0]).0, cs[1..]); }
  }

  // ---------- from a start delimiter on ----------

  lemma {:induction false} CountsUp(t: Tape, g: seq<byte>)
    requires TapeOk(t) && t.sts == BStream && t.stsLen == LenNone && t.cursor + |g| <= 4 && NoStart(g)
    ensures After(t, g) == t.(cursor := t.cursor + |g|)
    decreases |g|
  {
    if g != [] { CountsUp(Next(t, g[0]).0, g[1..]); }
  }

  lemma {:induction false} DoneKeeps(t: Tape, g: seq<byte>)
    requires t.stsLen == LenDone && t.cursor >= 5 && NoStart(g)
    ensures After(t, g).hlen == t.hlen && After(t, g).mult == t.mult
    decreases |g|
  {
    if g != [] { DoneKeeps(Next(t, g[0]).0, g[1..]); }
  }

  /** They change exactly if what is taken for the first length byte has the high bit. */
  lemma ScaleAfter(t: Tape, g: seq<byte>)
    requires TapeOk(t) && AtStart(t) && NoStart(g) && t.mult >= 1
    ensures var u := After(t, g);
            if |g| <= 4 || g[4] < 128 then u.hlen == t.hlen && u.mult == t.mult
            else u.hlen > t.hlen && u.mult >= t.mult
  {
    hide After, Next;
    if |g| <= 4 {
      CountsUp(t, g);
    } else {
      var four, rest := g[..4], g[5..];
      assert g == four + ([g[4]] + rest);
      TakenConcat(t, four, [g[4]] + rest);
      CountsUp(t, four);
      var u := t.(cursor := 4);
      TakenConcat(u, [g[4]], rest);
      FifthByteRead(u, g[4]);
      var next := Next(u, g[4]).0;
      if g[4] < 128 {
        DoneKeeps(next, rest);
      } else {
        Grows(next, rest);
      }
    }
  }

  lemma FifthByteRead(u: Tape, c: byte)
    requires u.sts == BStream && u.cursor == 4 && u.stsLen == LenNone && c != RECORD_START
    ensures var next := Next(u, c).0;
            && After(u, [c]) == next && next.cursor == 5
            && if c < 128 then next.stsLen == LenDone && next.hlen == u.hlen && next.mult == u.mult
               else next.hlen == u.hlen + 1 && next.mult == u.mult * 128
  {
    assert [c][1..] == [];
  }

  // ---------- what becomes of the next frame ----------

  /** Nothing is complete, and the next frame will be counted as if it were the first. */
  predicate Open(b: seq<byte>)
  {
    Taken(FRESH, b) == 0 && After(FRESH, b).hlen == 6 && After(FRESH, b).mult == 1
  }

  /** Nothing is complete, and the next frame will be taken for longer than it is. */
  predicate Deaf(b: seq<byte>)
  {
    Taken(FRESH, b) == 0 && (After(FRESH, b).hlen > 6 || After(FRESH, b).mult > 1)
  }

  lemma OpenOrDeaf(b: seq<byte>)
    requires Taken(FRESH, b) == 0
    ensures Open(b) <==> !Deaf(b)
  {
    Grows(FRESH, b);
  }

  /** The next frame then ends the message that both have become. */
  lemma OpenIsJoined(b: seq<byte>, h: Head, payload: seq<byte>)
    requires Open(b) && OneStart(Frame(h, payload))
    ensures Whole(b + Frame(h, payload))
  {
    FramesJoin(b, h, payload);
  }

  /** Or neither this frame nor, by the same token, any later one ends a message. */
  lemma DeafStays(b: seq<byte>, h: Head, payload: seq<byte>)
    requires Deaf(b) && OneStart(Frame(h, payload)) && payload != []
    ensures Deaf(b + Frame(h, payload))
  {
    hide Next, TailTaken, Frame, After, Taken;
    var f := b + Frame(h, payload);
    assert Frame(h, payload)[0] == RECORD_START by { FrameBytes(h, payload); }
    assert f[..|b| + 1] == b + [RECORD_START] && f[|b| + 1..] == Frame(h, payload)[1..];
    Grows(FRESH, b);
    StartTaken(FRESH, b);
    LastStartDecides(f, |b|);
    DeafTail(h, payload, After(FRESH, b).hlen, After(FRESH, b).mult);
    TakenConcat(FRESH, b, Frame(h, payload));
    Grows(After(FRESH, b), Frame(h, payload));
  }

  lemma DeafTail(h: Head, payload: seq<byte>, hlen: nat, mult: nat)
    requires hlen >= 6 && mult >= 1 && (hlen > 6 || mult > 1) && payload != []
    ensures TailTaken(hlen, mult, Frame(h, payload)[1..]) == 0
  {
    hide Frame, Varint, VarintValue, TerminatedLength, Times;
    var g, n := Frame(h, payload)[1..], |payload|;
    FrameTailSlices(h, payload);
    VarintTerminates(n, payload + [RECORD_END], |g|);
    VarintRoundTrip(n);
    TimesGrows(n, mult);
  }

  lemma TimesGrows(n: nat, mult: nat)
    requires n >= 1 && mult >= 1
    ensures Times(n, mult) >= n && (mult > 1 ==> Times(n, mult) > n)
  {
    assert n * mult == n + n * (mult - 1);
    if mult > 1 { assert n * (mult - 1) >= 1; }
  }

  // ---------- from one start delimiter to the next ----------

  /** The tape has come to the start delimiter at `p` with nothing complete and nothing carried over. */
  predicate Begun(f: seq<byte>, p: nat)
  {
    && p < |f| && f[p] == RECORD_START && Taken(FRESH, f[..p + 1]) == 0
    && After(FRESH, f[..p + 1]).hlen == 6 && After(FRESH, f[..p + 1]).mult == 1
  }

  lemma BegunAtFirst(f: seq<byte>)
    requires f != [] && f[0] == RECORD_START
    ensures Begun(f, 0)
  {
    StartTaken(FRESH, []);
    assert f[..1] == [] + [RECORD_START];
  }

  lemma Between(f: seq<byte>, p: nat, q: nat)
    requires Begun(f, p) && p < q <= |f| && NoStart(f[p + 1..q])
    ensures var n := TailTaken(6, 1, f[p + 1..q]); Taken(FRESH, f[..q]) == if n == 0 then 0 else p + 1 + n
    ensures var u, g := After(FRESH, f[..q]), f[p + 1..q];
            if |g| <= 4 || g[4] < 128 then u.hlen == 6 && u.mult == 1 else u.hlen > 6 && u.mult >= 1
  {
    hide Next, After, Taken, TailTaken;
    var head, g := f[..p + 1], f[p + 1..q];
    assert head + g == f[..q] && f[..q][..p + 1] == head && f[..q][p + 1..] == g;
    assert forall i :: p < i < q ==> f[..q][i] == g[i - p - 1];
    LastStartDecides(f[..q], p);
    AfterStart(FRESH, f, p);
    TakenConcat(FRESH, head, g);
    ScaleAfter(After(FRESH, head), g);
  }

  /** On to the next start delimiter. */
  lemma Onward(f: seq<byte>, p: nat, q: nat)
    requires Begun(f, p) && p < q < |f| && f[q] == RECORD_START && NoStart(f[p + 1..q])
    requires TailTaken(6, 1, f[p + 1..q]) == 0 && (q - p <= 5 || f[p + 5] < 128)
    ensures Begun(f, q)
  {
    hide Next, After, Taken, TailTaken;
    Between(f, p, q);
    assert f[..q + 1] == f[..q] + [RECORD_START];
    StartTaken(FRESH, f[..q]);
  }

  lemma ToTheEnd(f: seq<byte>, p: nat)
    requires Begun(f, p) && NoStart(f[p + 1..])
    ensures var n := TailTaken(6, 1, f[p + 1..]);
            && Taken(FRESH, f) == (if n == 0 then 0 else p + 1 + n)
            && (n == 0 ==> if |f| - p <= 5 || f[p + 5] < 128 then Open(f) else Deaf(f))
  {
    hide Next, After, Taken, TailTaken;
    assert f[..|f|] == f && f[p + 1..|f|] == f[p + 1..];
    Between(f, p, |f|);
  }

  /** From a start delimiter behind which a length has been begun, to one that comes late. */
  lemma DeafAtTheEnd(f: seq<byte>, p: nat, q: nat)
    requires Begun(f, p) && p + 5 < q < |f| <= q + 6 && f[q] == RECORD_START && f[p + 5] >= 128
    requires NoStart(f[p + 1..q]) && NoStart(f[q + 1..]) && TailTaken(6, 1, f[p + 1..q]) == 0
    ensures Taken(FRESH, f) == 0 && Deaf(f)
  {
    hide Next, After, Taken, TailTaken;
    Between(f, p, q);
    assert f[..q + 1] == f[..q] + [RECORD_START] && f == f[..q] + f[q..];
    StartTaken(FRESH, f[..q]);
    assert forall i :: q < i < |f| ==> f[i] == f[q + 1..][i - q - 1];
    LastStartDecides(f, q);
    var t := After(FRESH, f[..q + 1]);
    TailIsLonger(t.hlen, t.mult, f[q + 1..]);
    TakenConcat(FRESH, f[..q], f[q..]);
    Grows(After(FRESH, f[..q]), f[q..]);
  }
}
