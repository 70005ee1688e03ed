/** MessageTape and receive_from of junction.py: binary frames and text lines recognised byte by byte. */
module NaisTape {
  import opened Bytes
  import opened Base128
  import opened NaisFrame

  const NEWLINE: byte := 10

  datatype Sts = AStream | BStream

  datatype StsLen = LenNone | LenEnter | LenDone

  /** Everything that decides what the next byte does. */
  datatype Tape = Tape(sts: Sts, stsLen: StsLen, cursor: nat, mult: nat, hlen: nat, plen: nat, expectedLen: nat)

  const FRESH: Tape := Tape(AStream, LenNone, 0, 1, 6, 0, 65536)

  /** The byte counted, and taken into account if it belongs to the length field. */
  function Counted(t: Tape, c: byte): Tape
  {
    if t.sts == AStream then t
    else
      var t := t.(cursor := t.cursor + 1);
      if t.cursor == 5 || t.stsLen == LenEnter then
        if c >= 128 then
          t.(plen := t.plen + t.mult * Low7(c), mult := t.mult * 128, hlen := t.hlen + 1, stsLen := LenEnter)
        else
          t.(expectedLen := t.hlen + t.plen + t.mult * c, stsLen := LenDone)
      else t
  }

  /** The next state, and whether more bytes are wanted. */
  function Next(t: Tape, c: byte): (Tape, bool)
  {
    var t := Counted(t, c);
    if c == RECORD_START then (t.(cursor := 0, plen := 0, sts := BStream, stsLen := LenNone), true)
    else if t.sts == BStream && t.cursor == t.expectedLen then
      if c == RECORD_END then (t.(sts := AStream), false) else (t, true)
    else (t, !(t.sts == AStream && c == NEWLINE))
  }

  // ---------- what it does with a frame ----------

  /** The tape after `k` bytes of a frame with this payload length; `v` bytes of that are the length field. */
  predicate AfterPrefix(t: Tape, n: nat, k: nat)
  {
    var v := Varint(n);
    && t.sts == BStream && t.cursor == k - 1
    && if k <= 5 then t.stsLen == LenNone && t.plen == 0 && t.mult == 1 && t.hlen == 6 && t.expectedLen == 65536
       else if k < 5 + |v| then
         t.stsLen == LenEnter && t.plen == VarintValue(v[..k - 5]) && t.mult == Pow128(k - 5) && t.hlen == 6 + (k - 5)
         && t.expectedLen == 65536
       else t.stsLen == LenDone && t.expectedLen == 5 + |v| + n
  }

  /** No second start delimiter, which would begin a new frame. */
  predicate OneStart(f: seq<byte>)
  {
    forall i :: 1 <= i < |f| ==> f[i] != RECORD_START
  }

  lemma {:induction false} VarintBytes(n: nat, i: nat)
    requires i < |Varint(n)|
    ensures Varint(n)[i] >= 128 <==> i < |Varint(n)| - 1
  {
    if i > 0 {
      assert Varint(n)[1..] == Varint(n / 128);
      VarintBytes(n / 128, i - 1);
    }
  }

  lemma NextInHead(t: Tape, n: nat, k: nat, c: byte)
    requires 1 <= k <= 4 && AfterPrefix(t, n, k) && c != RECORD_START
    ensures Next(t, c).1 && AfterPrefix(Next(t, c).0, n, k + 1)
  {
  }

  lemma LengthByte(n: nat, i: nat)
    requires n < TWO64 && i < |Varint(n)|
    ensures var v := Varint(n);
            && |v| <= 10 && (v[i] >= 128 <==> i < |v| - 1)
            && VarintValue(v[..i + 1]) == VarintValue(v[..i]) + Low7(v[i]) * Pow128(i)
            && Pow128(i + 1) == 128 * Pow128(i)
            && (i == 0 ==> VarintValue(v[..i]) == 0 && Pow128(i) == 1)
            && (i == |v| - 1 ==> VarintValue(v[..i + 1]) == n)
  {
    var v := Varint(n);
    UInt64SizeIsLength(n);
    VarintBytes(n, i);
    VarintRoundTrip(n);
    VarintValueSnoc(v[..i], v[i]);
    assert v[..i + 1] == v[..i] + [v[i]];
    assert v[..|v|] == v;
  }

  lemma NextInLength(t: Tape, n: nat, k: nat)
    requires 5 <= k < 5 + |Varint(n)| && AfterPrefix(t, n, k) && n < TWO64
    ensures var c := Varint(n)[k - 5]; c != RECORD_START ==> Next(t, c).1 && AfterPrefix(Next(t, c).0, n, k + 1)
  {
    if k < 4 + |Varint(n)| {
      NextContinues(t, n, k);
    } else {
      NextEnds(t, n, k);
    }
  }

  lemma NextContinues(t: Tape, n: nat, k: nat)
    requires 5 <= k < 4 + |Varint(n)| && AfterPrefix(t, n, k) && n < TWO64
    ensures var c := Varint(n)[k - 5]; c != RECORD_START ==> Next(t, c).1 && AfterPrefix(Next(t, c).0, n, k + 1)
  {
    hide Varint, VarintValue, Pow128, Low7;
    LengthByte(n, k - 5);
    var c := Varint(n)[k - 5];
    assert t.mult * Low7(c) == Low7(c) * t.mult;
    assert t.plen + Low7(c) * t.mult == VarintValue(Varint(n)[..k - 4]);
  }

  lemma NextEnds(t: Tape, n: nat, k: nat)
    requires k == 4 + |Varint(n)| && AfterPrefix(t, n, k) && n < TWO64
    ensures var c := Varint(n)[k - 5]; c != RECORD_START ==> Next(t, c).1 && AfterPrefix(Next(t, c).0, n, k + 1)
  {
    hide Varint, VarintValue, Pow128, Low7;
    LengthByte(n, k - 5);
    var c := Varint(n)[k - 5];
    LowIsWhole(c);
    assert t.mult * c == Low7(c) * t.mult;
  }

  lemma LowIsWhole(c: byte)
    ensures c < 128 ==> Low7(c) == c
  {
  }

  lemma NextInPayload(t: Tape, n: nat, k: nat, c: byte)
    requires 5 + |Varint(n)| <= k <= 5 + |Varint(n)| + n && AfterPrefix(t, n, k) && c != RECORD_START
    ensures k < 5 + |Varint(n)| + n ==> Next(t, c).1 && AfterPrefix(Next(t, c).0, n, k + 1)
    ensures k == 5 + |Varint(n)| + n ==> (Next(t, c).1 <==> c != RECORD_END)
  {
    hide Varint, VarintValue;
  }

  /** One byte of a frame: more are wanted until it is the last one. */
  lemma NextInFrame(t: Tape, h: Head, payload: seq<byte>, k: nat)
    requires |payload| < TWO64 && k < |Frame(h, payload)| && (k > 0 ==> Frame(h, payload)[k] != RECORD_START)
    requires if k == 0 then t == FRESH else AfterPrefix(t, |payload|, k)
    ensures var c := Frame(h, payload)[k];
            && (Next(t, c).1 <==> k < |Frame(h, payload)| - 1)
            && (Next(t, c).1 ==> AfterPrefix(Next(t, c).0, |payload|, k + 1))
  {
    var n, f := |payload|, Frame(h, payload);
    FrameBytes(h, payload);
    if 1 <= k <= 4 {
      NextInHead(t, n, k, f[k]);
    } else if 5 <= k < 5 + |Varint(n)| {
      hide Next, AfterPrefix;
      NextInLength(t, n, k);
    } else if k > 0 {
      hide Next, AfterPrefix;
      NextInPayload(t, n, k, f[k]);
    }
  }

  lemma FrameBytes(h: Head, payload: seq<byte>)
    ensures var f, v := Frame(h, payload), Varint(|payload|);
            && f[0] == RECORD_START && f[|f| - 1] == RECORD_END
            && forall i :: 0 <= i < |v| ==> f[5 + i] == v[i]
  {
  }

  // ---------- what it takes from a stream ----------

  /** The tape after these bytes. */
  function After(t: Tape, cs: seq<byte>): Tape
    decreases |cs|
  {
    if cs == [] then t else After(Next(t, cs[0]).0, cs[1..])
  }

  /** How many bytes it takes until a message is complete; 0 if none of these completes one. */
  function Taken(t: Tape, cs: seq<byte>): (n: nat)
    ensures n <= |cs|
    decreases |cs|
  {
    if cs == [] then 0
    else
      var (next, more) := Next(t, cs[0]);
      if !more then 1
      else
        var n := Taken(next, cs[1..]);
        if n == 0 then 0 else n + 1
  }

  lemma {:induction false} TakenConcat(t: Tape, a: seq<byte>, b: seq<byte>)
    ensures After(t, a + b) == After(After(t, a), b)
    ensures Taken(t, a + b) ==
            if Taken(t, a) > 0 then Taken(t, a)
            else if Taken(After(t, a), b) > 0 then |a| + Taken(After(t, a), b) else 0
    decreases |a|
  {
    if a == [] {
      assert a + b == b;
    } else {
      hide Next;
      assert (a + b)[1..] == a[1..] + b;
      TakenConcat(Next(t, a[0]).0, a[1..], b);
    }
  }

  /** One message, complete with its last byte and not before. */
  predicate Whole(f: seq<byte>)
  {
    f != [] && Taken(FRESH, f) == |f|
  }

  lemma {:induction false} FrameRest(t: Tape, h: Head, payload: seq<byte>, k: nat)
    requires |payload| < TWO64 && OneStart(Frame(h, payload)) && k < |Frame(h, payload)|
    requires if k == 0 then t == FRESH else AfterPrefix(t, |payload|, k)
    ensures Taken(t, Frame(h, payload)[k..]) == |Frame(h, payload)| - k
    decreases |Frame(h, payload)| - k
  {
    hide Frame, Next, AfterPrefix;
    var f := Frame(h, payload);
    NextInFrame(t, h, payload, k);
    assert f[k..][1..] == f[k + 1..];
    if k + 1 < |f| {
      FrameRest(Next(t, f[k]).0, h, payload, k + 1);
    }
  }

  /** A frame without a second start delimiter is one message, whatever comes after it. */
  lemma FrameTaken(h: Head, payload: seq<byte>, rest: seq<byte>)
    requires |payload| < TWO64 && OneStart(Frame(h, payload))
    ensures Whole(Frame(h, payload)) && Taken(FRESH, Frame(h, payload) + rest) == |Frame(h, payload)|
  {
    hide Frame, OneStart, AfterPrefix;
    var f := Frame(h, payload);
    FrameRest(FRESH, h, payload, 0);
    assert f[0..] == f;
    TakenConcat(FRESH, f, rest);
  }

  /** A line of text is one message. */
  lemma {:induction false} LineTaken(line: seq<byte>, rest: seq<byte>)
    requires forall i :: 0 <= i < |line| ==> line[i] != 0x1E && line[i] != 10
    ensures Whole(line + [10]) && Taken(FRESH, line + [10] + rest) == |line| + 1
  {
    var f := line + [NEWLINE];
    if line != [] {
      assert f[1..] == line[1..] + [NEWLINE];
      LineTaken(line[1..], rest);
    }
    TakenConcat(FRESH, f, rest);
  }

  // ---------- after the last start delimiter ----------

  /** What holds of the tape on any input. */
  predicate TapeOk(t: Tape)
  {
    t.hlen >= 6 && t.expectedLen >= 6
  }

  lemma {:induction false} AfterOk(t: Tape, cs: seq<byte>)
    requires TapeOk(t)
    ensures TapeOk(After(t, cs))
    decreases |cs|
  {
    if cs != [] { AfterOk(Next(t, cs[0]).0, cs[1..]); }
  }

  function Times(a: nat, b: nat): (r: nat)
  {
    a * b
  }

  /**
   What a tape takes of bytes `g` that follow a start delimiter and have no other among them. The byte count has begun
   again, but the header length and the multiplier are still those of the bytes before: the length field is read at
   offset 4 and scaled with them.
   */
  function TailTaken(hlen: nat, mult: nat, g: seq<byte>): (n: nat)
    requires hlen >= 6
    ensures n <= |g|
  {
    var v := if |g| <= 4 then 0 else TerminatedLength(g[4..], |g|);
    if v == 0 then 0
    else
      var end := hlen + v - 1 + Times(VarintValue(g[4..4 + v]), mult);
      if end <= |g| && g[end - 1] == RECORD_END then end else 0
  }

  /** The tape when `k` bytes of `g` have been taken, from `t` on. */
  predicate InTail(u: Tape, t: Tape, g: seq<byte>, k: nat)
    requires k <= |g|
  {
    var v := if |g| <= 4 then 0 else TerminatedLength(g[4..], |g|);
    && u.sts == BStream && u.cursor == k
    && if k <= 4 then
         u.stsLen == LenNone && u.plen == 0 && u.mult == t.mult && u.hlen == t.hlen && u.expectedLen == t.expectedLen
       else if v == 0 || k < 4 + v then
         u.stsLen == LenEnter && u.plen == Times(VarintValue(g[4..k]), t.mult) && u.mult == Times(Pow128(k - 4), t.mult)
         && u.hlen == t.hlen + (k - 4) && u.expectedLen == t.expectedLen
       else u.stsLen == LenDone && u.expectedLen == t.hlen + v - 1 + Times(VarintValue(g[4..4 + v]), t.mult)
  }

  lemma NextInTail(u: Tape, t: Tape, g: seq<byte>, k: nat)
    requires TapeOk(t) && k < |g| && g[k] != RECORD_START && InTail(u, t, g, k)
    ensures var n := TailTaken(t.hlen, t.mult, g);
            if k + 1 == n then !Next(u, g[k]).1 else Next(u, g[k]).1 && InTail(Next(u, g[k]).0, t, g, k + 1)
  {
    if k < 4 {
    } else {
      var v := TerminatedLength(g[4..], |g|);
      if v > 0 && k >= 4 + v {
        hide VarintValue, TerminatedLength, Low7, Pow128, Times;
      } else {
        NextInTailLength(u, t, g, k);
      }
    }
  }

  lemma NextInTailLength(u: Tape, t: Tape, g: seq<byte>, k: nat)
    requires TapeOk(t) && 4 <= k < |g| && g[k] != RECORD_START && InTail(u, t, g, k)
    requires var v := TerminatedLength(g[4..], |g|); v == 0 || k < 4 + v
    ensures k + 1 != TailTaken(t.hlen, t.mult, g)
    ensures Next(u, g[k]).1 && InTail(Next(u, g[k]).0, t, g, k + 1)
  {
    hide VarintValue, TerminatedLength, Low7, Pow128, Times, Next, InTail, TailTaken;
    TailLengthByte(g, k - 4);
    TailIsLonger(t.hlen, t.mult, g);
    var value, low, pow := VarintValue(g[4..k]), Low7(g[k]), Pow128(k - 4);
    Scale(value, low, pow, t.mult);
    if g[k] >= 128 {
      TailContinues(u, t, g, k, value, low, pow);
    } else {
      TailEnds(u, t, g, k, value, low, pow);
    }
  }

  lemma TailContinues(u: Tape, t: Tape, g: seq<byte>, k: nat, value: nat, low: nat, pow: nat)
    requires TapeOk(t) && 4 <= k < |g| && g[k] >= 128 && InTail(u, t, g, k)
    requires var v := TerminatedLength(g[4..], |g|); v == 0 || k < 3 + v
    requires value == VarintValue(g[4..k]) && low == Low7(g[k]) && pow == Pow128(k - 4)
    requires k == 4 ==> Times(value, t.mult) == 0 && Times(pow, t.mult) == t.mult
    requires Times(value, t.mult) + Times(pow, t.mult) * low == Times(VarintValue(g[4..k + 1]), t.mult)
    requires Times(pow, t.mult) * 128 == Times(Pow128(k - 3), t.mult)
    ensures Next(u, g[k]).1 && InTail(Next(u, g[k]).0, t, g, k + 1)
  {
    hide VarintValue, TerminatedLength, Low7, Pow128, Times;
  }

  lemma TailEnds(u: Tape, t: Tape, g: seq<byte>, k: nat, value: nat, low: nat, pow: nat)
    requires TapeOk(t) && 4 <= k < |g| && g[k] < 128 && g[k] != RECORD_START && InTail(u, t, g, k)
    requires var v := TerminatedLength(g[4..], |g|); v > 0 && k == 3 + v
    requires value == VarintValue(g[4..k]) && low == g[k] && pow == Pow128(k - 4)
    requires k == 4 ==> Times(value, t.mult) == 0 && Times(pow, t.mult) == t.mult
    requires Times(value, t.mult) + Times(pow, t.mult) * low == Times(VarintValue(g[4..k + 1]), t.mult)
    ensures Next(u, g[k]).1 && InTail(Next(u, g[k]).0, t, g, k + 1)
  {
    hide VarintValue, TerminatedLength, Low7, Pow128, Times;
  }

  lemma Scale(value: nat, low: nat, pow: nat, m: nat)
    ensures Times(value, m) + Times(pow, m) * low == Times(value + low * pow, m)
    ensures Times(pow, m) * 128 == Times(128 * pow, m)
    ensures Times(0, m) == 0 && Times(1, m) == m
  {
    assert (value + low * pow) * m == value * m + (low * pow) * m;
    assert (low * pow) * m == (pow * m) * low;
  }

  /** No message ends inside its length field. */
  lemma TailIsLonger(hlen: nat, mult: nat, g: seq<byte>)
    requires hlen >= 6
    ensures var n, v := TailTaken(hlen, mult, g), if |g| <= 4 then 0 else TerminatedLength(g[4..], |g|);
            n > 0 ==> v > 0 && n > 4 + v && n >= 6
  {
    hide VarintValue, TerminatedLength, Times;
  }

  lemma TailLengthByte(g: seq<byte>, i: nat)
    requires 4 + i < |g|
    ensures var v, b := TerminatedLength(g[4..], |g|), g[4..];
            && (v == 0 || i < v ==> (g[4 + i] < 128 <==> i == v - 1))
            && VarintValue(g[4..4 + i + 1]) == VarintValue(g[4..4 + i]) + Low7(g[4 + i]) * Pow128(i)
            && Pow128(i + 1) == 128 * Pow128(i) && (i == 0 ==> VarintValue(g[4..4 + i]) == 0 && Pow128(i) == 1)
            && (g[4 + i] < 128 ==> Low7(g[4 + i]) == g[4 + i])
  {
    var b := g[4..];
    assert b[i] == g[4 + i];
    VarintValueSnoc(b[..i], b[i]);
    assert b[..i + 1] == b[..i] + [b[i]];
    assert g[4..4 + i] == b[..i] && g[4..4 + i + 1] == b[..i + 1];
    LowIsWhole(b[i]);
  }

  lemma {:induction false} TailRest(u: Tape, t: Tape, g: seq<byte>, k: nat)
    requires TapeOk(t) && k <= |g| && InTail(u, t, g, k) && forall i :: 0 <= i < |g| ==> g[i] != RECORD_START
    requires var n := TailTaken(t.hlen, t.mult, g); n == 0 || k < n
    ensures var n := TailTaken(t.hlen, t.mult, g); Taken(u, g[k..]) == if n == 0 then 0 else n - k
    decreases |g| - k
  {
    hide InTail, TailTaken, Next;
    if k < |g| {
      NextInTail(u, t, g, k);
      assert g[k..][1..] == g[k + 1..];
      if k + 1 != TailTaken(t.hlen, t.mult, g) {
        TailRest(Next(u, g[k]).0, t, g, k + 1);
      }
    }
  }

  /**
   On every input, exactly: what a fresh tape takes is decided by the bytes after the last start delimiter, unless it
   was done before.
   */
  lemma LastStartDecides(f: seq<byte>, p: nat)
    requires p < |f| && f[p] == RECORD_START && forall i :: p < i < |f| ==> f[i] != RECORD_START
    ensures var t, first := After(FRESH, f[..p + 1]), Taken(FRESH, f[..p + 1]);
            && TapeOk(t)
            && Taken(FRESH, f) == if first > 0 then first
                                  else var n := TailTaken(t.hlen, t.mult, f[p + 1..]); if n == 0 then 0 else p + 1 + n
  {
    var head, g := f[..p + 1], f[p + 1..];
    var t := After(FRESH, head);
    assert f == head + g && g[0..] == g;
    AfterOk(FRESH, head);
    AfterStart(FRESH, f, p);
    TakenConcat(FRESH, head, g);
    TailRest(t, t, g, 0);
  }

  lemma AfterStart(t: Tape, f: seq<byte>, p: nat)
    requires p < |f| && f[p] == RECORD_START
    ensures var u := After(t, f[..p + 1]); u.sts == BStream && u.cursor == 0 && u.plen == 0 && u.stsLen == LenNone
  {
    assert f[..p + 1] == f[..p] + [f[p]];
    TakenConcat(t, f[..p], [f[p]]);
    var u := After(t, f[..p]);
    assert After(u, [f[p]]) == After(Next(u, f[p]).0, []) by { assert [f[p]][1..] == []; }
  }

  /** A start delimiter with fewer than six bytes behind it spoils whatever frame it stands in. */
  lemma SecondStartSpoils(f: seq<byte>, p: nat)
    requires p < |f| < p + 7 && f[p] == RECORD_START
    ensures !Whole(f)
  {
    hide Next, TailTaken;
    var last := LastStart(f, p);
    var head, g := f[..last + 1], f[last + 1..];
    assert f == head + g;
    TakenConcat(FRESH, head, g);
    if Taken(FRESH, head) == 0 {
      LastStartDecides(f, last);
      TailIsLonger(After(FRESH, head).hlen, After(FRESH, head).mult, g);
    } else if last + 1 == |f| {
      StartCompletesNothing(f);
    }
  }

  lemma LastStart(f: seq<byte>, p: nat) returns (last: nat)
    requires p < |f| && f[p] == RECORD_START
    ensures p <= last < |f| && f[last] == RECORD_START && forall i :: last < i < |f| ==> f[i] != RECORD_START
  {
    last := |f| - 1;
    while f[last] != RECORD_START
      invariant p <= last < |f| && forall i :: last < i < |f| ==> f[i] != RECORD_START
      decreases last
    {
      last := last - 1;
    }
  }

  lemma StartCompletesNothing(f: seq<byte>)
    requires f != [] && f[|f| - 1] == RECORD_START
    ensures Taken(FRESH, f) != |f|
  {
    var k := |f| - 1;
    assert f == f[..k] + [f[k]];
    TakenConcat(FRESH, f[..k], [f[k]]);
    assert [f[k]][1..] == [];
  }

  /** Inside a frame nothing is complete, up to a second start delimiter. */
  lemma {:induction false} PrefixTaken(t: Tape, h: Head, payload: seq<byte>, k: nat, p: nat)
    requires |payload| < TWO64 && k <= p < |Frame(h, payload)|
    requires forall i :: 1 <= i < p ==> Frame(h, payload)[i] != RECORD_START
    requires if k == 0 then t == FRESH else AfterPrefix(t, |payload|, k)
    ensures Taken(t, Frame(h, payload)[k..p]) == 0
    decreases p - k
  {
    hide Frame, Next, AfterPrefix;
    var f := Frame(h, payload);
    if k < p {
      NextInFrame(t, h, payload, k);
      assert f[k..p][1..] == f[k + 1..p];
      PrefixTaken(Next(t, f[k]).0, h, payload, k + 1, p);
    }
  }

  /** A frame whose only second start delimiter comes late leaves the tape waiting for more. */
  lemma LateStartWaits(h: Head, payload: seq<byte>, p: nat)
    requires |payload| < TWO64 && 1 <= p < |Frame(h, payload)| < p + 7 && Frame(h, payload)[p] == RECORD_START
    requires forall i :: 1 <= i < |Frame(h, payload)| && i != p ==> Frame(h, payload)[i] != RECORD_START
    ensures Taken(FRESH, Frame(h, payload)) == 0
  {
    hide Frame, Next, TailTaken;
    var f := Frame(h, payload);
    PrefixTaken(FRESH, h, payload, 0, p);
    StartTaken(FRESH, f[..p]);
    assert f[..p + 1] == f[..p] + [RECORD_START] && f[0..p] == f[..p];
    LastStartDecides(f, p);
    var t := After(FRESH, f[..p + 1]);
    TailIsLonger(t.hlen, t.mult, f[p + 1..]);
  }

  /** Only bytes with the high bit set change what is carried over a start delimiter. */
  lemma {:induction false} SmallBytes(t: Tape, cs: seq<byte>)
    requires forall i :: 0 <= i < |cs| ==> cs[i] < 128
    ensures After(t, cs).hlen == t.hlen && After(t, cs).mult == t.mult
    decreases |cs|
  {
    if cs != [] { SmallBytes(Next(t, cs[0]).0, cs[1..]); }
  }

  /** Before the length field nothing changes either. */
  lemma {:induction false} FewBytes(t: Tape, cs: seq<byte>)
    requires t.stsLen == LenNone && if t.sts == AStream then |cs| <= 5 else t.cursor + |cs| <= 4
    ensures After(t, cs).hlen == t.hlen && After(t, cs).mult == t.mult
    decreases |cs|
  {
    if cs != [] { FewBytes(Next(t, cs[0]).0, cs[1..]); }
  }

  /** A length of one byte. */
  lemma ShortLength(g: seq<byte>)
    requires |g| > 4 && g[4] < 128
    ensures TailTaken(6, 1, g) == var end := 6 + g[4]; if end <= |g| && g[end - 1] == RECORD_END then end else 0
  {
    assert g[4..][0] == g[4] && TerminatedLength(g[4..], |g|) == 1;
    assert g[4..5] == [g[4]] && VarintValue(g[4..5]) == g[4] as int by { LowIsWhole(g[4]); OneGroup(g[4]); }
    assert Times(VarintValue(g[4..5]), 1) == g[4] as int;
  }

  lemma OneGroup(c: byte)
    ensures VarintValue([c]) == Low7(c)
  {
    assert [c][1..] == [];
  }

  /** The second frame of a pair whose first is not recognised ends the message that both have become. */
  lemma FramesJoin(a: seq<byte>, h: Head, payload: seq<byte>)
    requires Taken(FRESH, a) == 0 && After(FRESH, a).hlen == 6 && After(FRESH, a).mult == 1
    requires OneStart(Frame(h, payload))
    ensures Whole(a + Frame(h, payload))
  {
    hide Next, TailTaken, Frame;
    var b := Frame(h, payload);
    var f := a + b;
    assert b[0] == RECORD_START by { FrameBytes(h, payload); }
    assert f[..|a| + 1] == a + [RECORD_START] && f[|a| + 1..] == b[1..];
    StartTaken(FRESH, a);
    LastStartDecides(f, |a|);
    FrameTail(h, payload);
  }

  lemma StartTaken(t: Tape, a: seq<byte>)
    requires Taken(t, a) == 0
    ensures var f := a + [RECORD_START];
            && Taken(t, f) == 0
            && After(t, f).hlen == After(t, a).hlen && After(t, f).mult == After(t, a).mult
  {
    TakenConcat(t, a, [RECORD_START]);
    var u := After(t, a);
    assert [RECORD_START][1..] == [];
    assert After(u, [RECORD_START]) == After(Next(u, RECORD_START).0, []);
  }

  lemma FrameTail(h: Head, payload: seq<byte>)
    ensures TailTaken(6, 1, Frame(h, payload)[1..]) == |Frame(h, payload)| - 1
  {
    hide Frame, Varint, VarintValue, TerminatedLength;
    var g := Frame(h, payload)[1..];
    FrameTailSlices(h, payload);
    VarintTerminates(|payload|, payload + [RECORD_END], |g|);
    VarintRoundTrip(|payload|);
    assert Times(|payload|, 1) == |payload|;
  }

  lemma FrameTailSlices(h: Head, payload: seq<byte>)
    ensures var v, g := Varint(|payload|), Frame(h, payload)[1..];
            && g[4..] == v + (payload + [RECORD_END]) && g[4..4 + |v|] == v && g[|g| - 1] == RECORD_END
  {
    hide Varint;
    BehindFour(RECORD_START, [h.kind, h.sline, h.dline, h.flags], Varint(|payload|), payload, RECORD_END);
  }

  lemma BehindFour(start: byte, four: seq<byte>, v: seq<byte>, p: seq<byte>, end: byte)
    requires |four| == 4
    ensures var g := ([start] + (four + v + p) + [end])[1..];
            g[4..] == v + (p + [end]) && g[4..4 + |v|] == v && g[|g| - 1] == end
  {
    var g := ([start] + (four + v + p) + [end])[1..];
    assert g == four + v + p + [end];
  }

  /**
   The length of a 30-byte payload is itself a start delimiter: the frame is one message exactly if its payload, read
   from the fifth byte on as a length, happens to announce that.
   */
  lemma ThirtyBytes(h: Head, payload: seq<byte>)
    requires |payload| == 30
    requires h.kind != RECORD_START && h.sline != RECORD_START && h.dline != RECORD_START && h.flags != RECORD_START
    requires forall i :: 0 <= i < 30 ==> payload[i] != RECORD_START
    ensures var v := TerminatedLength(payload[4..], 26);
            Whole(Frame(h, payload)) <==> v > 0 && 5 + v + VarintValue(payload[4..4 + v]) == 31
  {
    var f, g := Frame(h, payload), payload + [RECORD_END];
    assert Varint(30) == [30];
    assert f == [RECORD_START, h.kind, h.sline, h.dline, h.flags, 30] + g;
    var start: seq<byte> := [RECORD_START, h.kind, h.sline, h.dline, h.flags, 30];
    assert f[..6] == start && f[6..] == g;
    SixBytes(h);
    LastStartDecides(f, 5);
    TailOfPayload(payload);
  }

  lemma SixBytes(h: Head)
    requires h.kind != RECORD_START && h.sline != RECORD_START && h.dline != RECORD_START && h.flags != RECORD_START
    ensures var start: seq<byte> := [RECORD_START, h.kind, h.sline, h.dline, h.flags, 30];
            && Taken(FRESH, start) == 0 && After(FRESH, start).hlen == 6 && After(FRESH, start).mult == 1
  {
    var start: seq<byte> := [RECORD_START, h.kind, h.sline, h.dline, h.flags, 30];
    var t := FRESH.(sts := BStream);
    var t5 := t.(cursor := 5, stsLen := LenDone, expectedLen := 36);
    StepOn(FRESH, start, t);
    StepOn(t, start[1..], t.(cursor := 1));
    StepOn(t.(cursor := 1), start[2..], t.(cursor := 2));
    StepOn(t.(cursor := 2), start[3..], t.(cursor := 3));
    StepOn(t.(cursor := 3), start[4..], t.(cursor := 4));
    StepOn(t.(cursor := 4), start[5..], t5.(cursor := 0, stsLen := LenNone));
    assert start[1..][1..] == start[2..] && start[2..][1..] == start[3..] && start[3..][1..] == start[4..];
    assert start[4..][1..] == start[5..] && start[5..][1..] == [];
  }

  lemma StepOn(t: Tape, cs: seq<byte>, next: Tape)
    requires cs != [] && Next(t, cs[0]) == (next, true)
    ensures After(t, cs) == After(next, cs[1..])
    ensures Taken(t, cs) == if Taken(next, cs[1..]) == 0 then 0 else Taken(next, cs[1..]) + 1
  {
  }

  lemma TailOfPayload(payload: seq<byte>)
    requires |payload| == 30
    ensures var g, v := payload + [RECORD_END], TerminatedLength(payload[4..], 26);
            TailTaken(6, 1, g) == 31 <==> v > 0 && 5 + v + VarintValue(payload[4..4 + v]) == 31
  {
    var g, b, v := payload + [RECORD_END], payload[4..], TerminatedLength(payload[4..], 26);
    var w := TerminatedLength(g[4..], |g|);
    assert forall i :: 0 <= i < 26 ==> g[4..][i] == b[i];
    assert g[4..][26] == RECORD_END;
    if v > 0 {
      assert g[4..][v - 1] < 128;
      assert w == v && g[4..4 + v] == payload[4..4 + v];
    } else {
      assert w > 0 ==> w - 1 == 26;
    }
  }

  // ---------- the class ----------

  class MessageTape {
    var expectedLen: nat
    var cursor: nat
    var mult: nat
    var stsLen: StsLen
    var hlen: nat
    var plen: nat
    var sts: Sts
    var msg: seq<byte>

    constructor ()
      ensures View() == FRESH && msg == []
    {
      expectedLen, cursor, mult, stsLen, hlen, plen, sts, msg := 65536, 0, 1, LenNone, 6, 0, AStream, [];
    }

    ghost function View(): Tape
      reads this
    {
      Tape(sts, stsLen, cursor, mult, hlen, plen, expectedLen)
    }

    method AddChar(channel: byte) returns (more: bool)
      modifies this
      ensures (View(), more) == Next(old(View()), channel)
      ensures msg == old(msg) + [channel]
    {
      if sts == BStream {
        cursor := cursor + 1;
        if cursor == 5 || stsLen == LenEnter {
          var lenByte := channel;
          if lenByte >= 128 {
            plen := plen + mult * Low7(lenByte);
            mult := mult * 128;
            hlen := hlen + 1;
            stsLen := LenEnter;
          } else {
            expectedLen := hlen + plen + mult * lenByte;
            stsLen := LenDone;
          }
        }
      }
      msg := msg + [channel];
      if channel == RECORD_START {
        cursor, plen, sts, stsLen := 0, 0, BStream, LenNone;
      } else if sts == BStream && cursor == expectedLen {
        if channel == RECORD_END {
          sts := AStream;
          return false;
        }
      } else if sts == AStream && channel == NEWLINE {
        return false;
      }
      return true;
    }
  }

  // ---------- what can come out at all ----------

  /** What is complete is a text line, or has the length its header announced: at least seven bytes. */
  ghost predicate Sound(t: Tape, msg: seq<byte>)
  {
    && t.hlen >= 6 && t.cursor <= |msg| && t.expectedLen >= 6
    && (t.sts == BStream ==> t.cursor < |msg|)
    && (msg != [] && msg[0] == RECORD_START ==> t.sts == BStream)
  }

  lemma SoundStep(t: Tape, msg: seq<byte>, c: byte)
    requires Sound(t, msg)
    ensures var (next, more) := Next(t, c);
            && (more ==> Sound(next, msg + [c]))
            && (!more && IsProtobuf(msg + [c]) ==> |msg + [c]| >= 7)
  {
  }

  /** What a fresh tape takes is at least seven bytes if it starts like a frame. */
  lemma {:induction false} TakenSound(t: Tape, msg: seq<byte>, cs: seq<byte>)
    requires Sound(t, msg) && Taken(t, cs) > 0
    ensures IsProtobuf(msg + cs[..Taken(t, cs)]) ==> |msg| + Taken(t, cs) >= 7
    decreases |cs|
  {
    hide Sound, Next;
    var (next, more) := Next(t, cs[0]);
    SoundStep(t, msg, cs[0]);
    var n := Taken(t, cs);
    if more {
      TakenSound(next, msg + [cs[0]], cs[1..]);
      assert msg + [cs[0]] + cs[1..][..n - 1] == msg + cs[..n];
    } else {
      assert msg + [cs[0]] == msg + cs[..n];
    }
  }

  /** receive_from, exactly; `None` if the connection closes before a message is complete. */
  method ReceiveFrom(input: seq<byte>) returns (msg: Option<seq<byte>>)
    ensures msg == if Taken(FRESH, input) == 0 then None else Some(input[..Taken(FRESH, input)])
    ensures msg.Some? && IsProtobuf(msg.value) ==> |msg.value| >= 7
  {
    hide Next;
    var parser := new MessageTape();
    var readTape, i := true, 0;
    assert input[0..] == input;
    while readTape
      invariant i <= |input| && parser.msg == input[..i]
      invariant readTape ==>
                  Taken(FRESH, input) == if Taken(parser.View(), input[i..]) == 0 then 0
                                         else i + Taken(parser.View(), input[i..])
      invariant !readTape ==> i > 0 && Taken(FRESH, input) == i
      decreases |input| - i
    {
      if i == |input| {
        return None;
      }
      assert input[i..][1..] == input[i + 1..];
      readTape := parser.AddChar(input[i]);
      i := i + 1;
    }
    FreshSound(input);
    msg := Some(parser.msg);
  }

  lemma FreshSound(input: seq<byte>)
    requires Taken(FRESH, input) > 0
    ensures IsProtobuf(input[..Taken(FRESH, input)]) ==> Taken(FRESH, input) >= 7
  {
    TakenSound(FRESH, [], input);
    assert [] + input[..Taken(FRESH, input)] == input[..Taken(FRESH, input)];
  }
}
