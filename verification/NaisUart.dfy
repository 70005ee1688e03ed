/** serial_loop of bocia_uart.c: frames recognised byte by byte on a line that also carries other output. */
module NaisUart {
  import opened Bytes
  import opened Base128
  import opened NaisFrame

  const MAX_BIN_SIZE: nat := 512

  datatype Sts = WaitStart | MsgType | Sline | Dline | Flags | Len | BinBlock | ExpectEnd

  /** The variables of the loop; `got` is what the receive buffer holds. */
  datatype Uart = Uart(sts: Sts, got: seq<byte>, binlen: nat, multiplier: nat)

  function Idle(multiplier: nat): Uart
  {
    Uart(WaitStart, [], 0, multiplier)
  }

  /** One byte: the next state, and what is handed on. */
  function Step(u: Uart, c: byte): (Uart, seq<seq<byte>>)
  {
    if c == RECORD_END && u.sts == ExpectEnd then (Idle(u.multiplier), [u.got])
    else (match u.sts
          case WaitStart => if c == RECORD_START then u.(sts := MsgType, multiplier := 1) else u
          case MsgType => u.(sts := Sline, got := u.got + [c])
          case Sline => u.(sts := Dline, got := u.got + [c])
          case Dline => u.(sts := Flags, got := u.got + [c])
          case Flags => u.(sts := Len, got := u.got + [c])
          case Len => Uart(if c < 128 then BinBlock else Len, u.got + [c], u.binlen + Low7(c) * u.multiplier,
                           u.multiplier * 128)
          case BinBlock => u.(got := u.got + [c], sts := if |u.got| + 1 == u.binlen + 5 then ExpectEnd else BinBlock)
          case ExpectEnd => u,
          [])
  }

  function Run(u: Uart, cs: seq<byte>): (Uart, seq<seq<byte>>)
    decreases |cs|
  {
    if cs == [] then (u, [])
    else
      var (next, out) := Step(u, cs[0]);
      var (end, outs) := Run(next, cs[1..]);
      (end, if out == [] then outs else out + outs)
  }

  lemma {:induction false} RunConcat(u: Uart, a: seq<byte>, b: seq<byte>)
    ensures var (mid, first) := Run(u, a);
            var (end, second) := Run(mid, b);
            Run(u, a + b) == (end, first + second)
    decreases |a|
  {
    if a == [] {
      assert a + b == b && [] + Run(u, b).1 == Run(u, b).1;
    } else {
      hide Step;
      assert (a + b)[1..] == a[1..] + b;
      RunConcat(Step(u, a[0]).0, a[1..], b);
      ConcatAssociates(Step(u, a[0]).1, Run(Step(u, a[0]).0, a[1..]).1, Run(Run(u, a).0, b).1);
    }
  }

  lemma RunQuiet(u: Uart, c: byte, rest: seq<byte>)
    requires Step(u, c).1 == []
    ensures Run(u, [c] + rest) == Run(Step(u, c).0, rest)
  {
    assert ([c] + rest)[1..] == rest;
  }

  // ---------- one frame ----------

  predicate Quiet(noise: seq<byte>)
  {
    forall i :: 0 <= i < |noise| ==> noise[i] != RECORD_START
  }

  lemma {:induction false} NoiseRun(m: nat, noise: seq<byte>)
    requires Quiet(noise)
    ensures Run(Idle(m), noise) == (Idle(m), [])
  {
    if noise != [] { NoiseRun(m, noise[1..]); }
  }

  lemma {:induction false} LengthRun(u: Uart, n: nat)
    requires u.sts == Len
    ensures Run(u, Varint(n)) == (Uart(BinBlock, u.got + Varint(n), u.binlen + u.multiplier * n,
                                       u.multiplier * Pow128(|Varint(n)|)), [])
    decreases n
  {
    hide Step, Run, Varint, Pow128;
    if n < 128 {
      LastGroup(u, n);
    } else {
      var q, r, m := n / 128, n % 128, u.multiplier;
      var next := Uart(Len, u.got + [r + 128], u.binlen + r * m, m * 128);
      NextGroup(u, n, next);
      LengthRun(next, q);
      ConcatAssociates(u.got, [r + 128], Varint(q));
      Regroup(m, q, r, n);
      Reassociate(m, Pow128(|Varint(q)|));
    }
  }

  lemma LastGroup(u: Uart, n: nat)
    requires u.sts == Len && n < 128
    ensures Run(u, Varint(n)) == (Uart(BinBlock, u.got + Varint(n), u.binlen + u.multiplier * n,
                                       u.multiplier * Pow128(|Varint(n)|)), [])
  {
    RunQuiet(u, n, []);
    assert [n] + [] == Varint(n) && Pow128(1) == 128;
  }

  lemma NextGroup(u: Uart, n: nat, next: Uart)
    requires u.sts == Len && n >= 128
    requires next == Uart(Len, u.got + [n % 128 + 128], u.binlen + n % 128 * u.multiplier, u.multiplier * 128)
    ensures Varint(n) == [n % 128 + 128] + Varint(n / 128) && Pow128(|Varint(n)|) == 128 * Pow128(|Varint(n / 128)|)
    ensures Run(u, Varint(n)) == Run(next, Varint(n / 128))
  {
    hide Run;
    assert Low7(n % 128 + 128) == n % 128;
    RunQuiet(u, n % 128 + 128, Varint(n / 128));
  }

  lemma Regroup(m: nat, q: nat, r: nat, n: nat)
    requires n == 128 * q + r
    ensures r * m + (m * 128) * q == m * n
  {
    assert m * n == m * (128 * q) + m * r;
  }

  lemma Reassociate(m: nat, p: nat)
    ensures (m * 128) * p == m * (128 * p)
  {
  }

  /** Bytes of the block, whatever their values, up to where the loop takes it to be complete. */
  lemma {:induction false} BlockRun(u: Uart, b: seq<byte>)
    requires u.sts == BinBlock && |u.got| + |b| <= u.binlen + 5 && b != []
    ensures var sts := if |u.got| + |b| == u.binlen + 5 then ExpectEnd else BinBlock;
            Run(u, b) == (u.(got := u.got + b, sts := sts), [])
    decreases |b|
  {
    var next := Step(u, b[0]).0;
    if |b| == 1 {
      assert b == [b[0]] && Run(next, []) == (next, []);
    } else {
      BlockRun(next, b[1..]);
      assert next.got + b[1..] == u.got + b;
    }
  }

  /** The first end delimiter from then on hands over the block. */
  lemma {:induction false} EndRun(u: Uart, b: seq<byte>)
    requires u.sts == ExpectEnd && RECORD_END in b
    ensures Run(u, b).1 != [] && Run(u, b).1[0] == u.got
    ensures |b| == 1 ==> Run(u, b) == (Idle(u.multiplier), [u.got])
    decreases |b|
  {
    if b[0] != RECORD_END {
      EndRun(u, b[1..]);
    } else if |b| == 1 {
      assert b[1..] == [] && [u.got] + [] == [u.got];
    }
  }

  lemma HeadRun(m: nat, h: Head, n: nat)
    ensures var start := [RECORD_START] + HeadBytes(h, n);
            Run(Idle(m), start) == (Uart(BinBlock, HeadBytes(h, n), n, Pow128(|Varint(n)|)), [])
  {
    var start := [RECORD_START] + HeadBytes(h, n);
    var five: seq<byte> := [RECORD_START, h.kind, h.sline, h.dline, h.flags];
    assert start == five + Varint(n);
    var u := Uart(Len, [h.kind, h.sline, h.dline, h.flags], 0, 1);
    FixedRun(m, h);
    RunConcat(Idle(m), five, Varint(n));
    LengthRun(u, n);
  }

  lemma FixedRun(m: nat, h: Head)
    ensures Run(Idle(m), [RECORD_START, h.kind, h.sline, h.dline, h.flags])
         == (Uart(Len, [h.kind, h.sline, h.dline, h.flags], 0, 1), [])
  {
    var five: seq<byte> := [RECORD_START, h.kind, h.sline, h.dline, h.flags];
    var u0, u1, u2 := Uart(MsgType, [], 0, 1), Uart(Sline, [h.kind], 0, 1), Uart(Dline, [h.kind, h.sline], 0, 1);
    var u3, u4 := Uart(Flags, [h.kind, h.sline, h.dline], 0, 1), Uart(Len, [h.kind, h.sline, h.dline, h.flags], 0, 1);
    assert Step(Idle(m), RECORD_START) == (u0, []);
    assert Step(u0, h.kind) == (u1, []) by { assert [] + [h.kind] == [h.kind]; }
    assert Step(u1, h.sline) == (u2, []) by { assert [h.kind] + [h.sline] == [h.kind, h.sline]; }
    assert Step(u2, h.dline) == (u3, []) by { assert [h.kind, h.sline] + [h.dline] == u3.got; }
    assert Step(u3, h.flags) == (u4, []) by { assert [h.kind, h.sline, h.dline] + [h.flags] == u4.got; }
    hide Step;
    var tail: seq<byte> := [h.kind, h.sline, h.dline, h.flags];
    RunQuiet(Idle(m), RECORD_START, tail);
    RunQuiet(u0, h.kind, tail[1..]);
    RunQuiet(u1, h.sline, tail[2..]);
    RunQuiet(u2, h.dline, tail[3..]);
    RunQuiet(u3, h.flags, []);
    assert five == [RECORD_START] + tail && tail == [h.kind] + tail[1..];
    assert tail[1..] == [h.sline] + tail[2..] && tail[2..] == [h.dline] + tail[3..] && tail[3..] == [h.flags] + [];
  }

  /** The loop up to where it takes the block of a frame to be complete, and what of the frame is still to come. */
  lemma UpToBlock(m: nat, h: Head, payload: seq<byte>) returns (e: Uart, up: seq<byte>, rest: seq<byte>)
    requires payload != []
    ensures e == Uart(ExpectEnd, Content(h, payload)[..|payload| + 5], |payload|, Pow128(|Varint(|payload|)|))
    ensures |Varint(|payload|)| <= |payload| + 1
    ensures rest == payload[|payload| + 1 - |Varint(|payload|)|..] + [RECORD_END]
    ensures Frame(h, payload) == up + rest && up[..1] == [RECORD_START] && |up| == |payload| + 6
    ensures Run(Idle(m), up) == (e, []) && Run(Idle(m), Frame(h, payload)) == Run(e, rest)
  {
    hide Step, Run;
    var n, v := |payload|, |Varint(|payload|)|;
    var start := [RECORD_START] + HeadBytes(h, n);
    var k := n + 1 - v;
    VarintShorter(n);
    var block := payload[..k];
    rest := payload[k..] + [RECORD_END];
    up := start + block;
    HeadRun(m, h, n);
    var u := Uart(BinBlock, HeadBytes(h, n), n, Pow128(v));
    BlockRun(u, block);
    e := u.(got := u.got + block, sts := ExpectEnd);
    RunConcat(Idle(m), start, block);
    assert Frame(h, payload) == up + rest;
    RunConcat(Idle(m), up, rest);
    assert e.got == Content(h, payload)[..n + 5];
    assert [] + Run(u, block).1 == [];
    assert [] + Run(e, rest).1 == Run(e, rest).1;
  }

  /** What a frame of `n` payload bytes gets handed on as: the content without all but the first byte of its length. */
  lemma FrameHandsOn(m: nat, h: Head, payload: seq<byte>)
    requires payload != []
    ensures var out := Run(Idle(m), Frame(h, payload)).1;
            && out != [] && out[0] == Content(h, payload)[..|payload| + 5]
            && (|payload| < 128 ==> Run(Idle(m), Frame(h, payload)) == (Idle(128), [Content(h, payload)]))
  {
    hide Step, Run;
    var e, up, rest := UpToBlock(m, h, payload);
    assert rest[|rest| - 1] == RECORD_END;
    EndRun(e, rest);
    if |payload| < 128 {
      assert Content(h, payload)[..|payload| + 5] == Content(h, payload);
      assert Pow128(1) == 128 * Pow128(0) && |Varint(|payload|)| == 1;
    }
  }

  /** Once the block is taken to be complete, what comes up to the end delimiter and behind it is passed over. */
  lemma {:induction false} QuietEndRun(u: Uart, b: seq<byte>)
    requires u.sts == ExpectEnd && RECORD_END in b && Quiet(b)
    ensures Run(u, b) == (Idle(u.multiplier), [u.got])
    decreases |b|
  {
    if b[0] != RECORD_END {
      QuietEndRun(u, b[1..]);
    } else {
      NoiseRun(u.multiplier, b[1..]);
      assert [u.got] + [] == [u.got];
    }
  }

  /** A frame of any size is handed on once, if its payload has no start delimiter. */
  lemma QuietFrameRun(m: nat, h: Head, payload: seq<byte>)
    requires payload != [] && Quiet(payload)
    ensures var (u, out) := Run(Idle(m), Frame(h, payload));
            u == Idle(u.multiplier) && out == [Content(h, payload)[..|payload| + 5]]
  {
    hide Step, Run;
    var e, up, rest := UpToBlock(m, h, payload);
    assert rest[|rest| - 1] == RECORD_END;
    QuietEndRun(e, rest);
  }

  lemma {:induction false} VarintShorter(n: nat)
    requires n > 0
    ensures |Varint(n)| <= n && (n >= 128 ==> |Varint(n)| >= 2)
  {
    if n >= 128 { VarintShorter(n / 128); }
  }

  lemma EmptyFrameHangs(m: nat, h: Head)
    ensures Run(Idle(m), Frame(h, [])).1 == []
  {
    var start := [RECORD_START] + HeadBytes(h, 0);
    var u := Uart(BinBlock, HeadBytes(h, 0), 0, Pow128(1));
    HeadRun(m, h, 0);
    assert Frame(h, []) == start + [RECORD_END];
    RunConcat(Idle(m), start, [RECORD_END]);
    assert Run(u, [RECORD_END]) == (Step(u, RECORD_END).0, []) by { assert [RECORD_END][1..] == []; }
  }

  /** The loop hands on exactly the frame for 1 to 127 payload bytes, and something else for any other number. */
  lemma FrameComesThrough(m: nat, h: Head, payload: seq<byte>)
    ensures Run(Idle(m), Frame(h, payload)).1 == [Content(h, payload)] <==> 1 <= |payload| < 128
  {
    if payload == [] {
      EmptyFrameHangs(m, h);
    } else {
      FrameHandsOn(m, h, payload);
      VarintShorter(|payload|);
    }
  }

  // ---------- a whole stream ----------

  datatype Sent = Sent(noise: seq<byte>, h: Head, payload: seq<byte>)

  predicate SentOk(s: Sent)
  {
    Quiet(s.noise) && 1 <= |s.payload| < 128
  }

  function Stream(items: seq<Sent>): seq<byte>
  {
    if items == [] then [] else items[0].noise + (Frame(items[0].h, items[0].payload) + Stream(items[1..]))
  }

  function Contents(items: seq<Sent>): seq<seq<byte>>
  {
    if items == [] then [] else [Content(items[0].h, items[0].payload)] + Contents(items[1..])
  }

  /** Frames among noise come out one by one, in order, whatever delimiters they have inside. */
  lemma {:induction false} Transparent(m: nat, items: seq<Sent>, tail: seq<byte>)
    requires (forall i :: 0 <= i < |items| ==> SentOk(items[i])) && Quiet(tail)
    ensures Run(Idle(m), Stream(items) + tail).1 == Contents(items)
    ensures Room(Idle(m), Stream(items) + tail)
    decreases |items|
  {
    hide Room, Frame, Content;
    if items == [] {
      NoiseRun(m, tail);
      NoiseRoom(m, tail);
      assert Stream(items) + tail == tail;
    } else {
      assert SentOk(items[0]);
      var noise, frame := items[0].noise, Frame(items[0].h, items[0].payload);
      var rest := Stream(items[1..]) + tail;
      assert Stream(items) + tail == noise + (frame + rest);
      NoiseRun(m, noise);
      NoiseRoom(m, noise);
      RunConcat(Idle(m), noise, frame + rest);
      FrameHandsOn(m, items[0].h, items[0].payload);
      RunConcat(Idle(m), frame, rest);
      Transparent(128, items[1..], tail);
      FrameRoom(m, items[0].h, items[0].payload);
      RoomConcat(Idle(m), frame, rest);
      RoomConcat(Idle(m), noise, frame + rest);
    }
  }

  // ---------- the loop itself ----------

  /** The receive buffer, which the loop does not look after, is never overrun. */
  predicate Room(u: Uart, cs: seq<byte>)
    decreases |cs|
  {
    |u.got| <= MAX_BIN_SIZE && (cs == [] || Room(Step(u, cs[0]).0, cs[1..]))
  }

  lemma {:induction false} RoomConcat(u: Uart, a: seq<byte>, b: seq<byte>)
    requires Room(u, a) && Room(Run(u, a).0, b)
    ensures Room(u, a + b)
    decreases |a|
  {
    if a == [] {
      assert a + b == b;
    } else {
      hide Step;
      assert (a + b)[1..] == a[1..] + b;
      RoomConcat(Step(u, a[0]).0, a[1..], b);
    }
  }

  lemma {:induction false} NoiseRoom(m: nat, noise: seq<byte>)
    requires Quiet(noise)
    ensures Room(Idle(m), noise)
  {
    if noise != [] { NoiseRoom(m, noise[1..]); }
  }

  lemma {:induction false} ShortRoom(u: Uart, cs: seq<byte>)
    requires |u.got| + |cs| <= MAX_BIN_SIZE
    ensures Room(u, cs)
    decreases |cs|
  {
    if cs != [] { ShortRoom(Step(u, cs[0]).0, cs[1..]); }
  }

  lemma FrameRoom(m: nat, h: Head, payload: seq<byte>)
    requires |payload| < 128
    ensures Room(Idle(m), Frame(h, payload))
  {
    ShortRoom(Idle(m), Frame(h, payload));
  }

  /** It has room for 507 payload bytes, and no more. */
  lemma LongFrameRoom(m: nat, h: Head, payload: seq<byte>)
    requires payload != [] && (|payload| < 128 || Quiet(payload))
    ensures Room(Idle(m), Frame(h, payload)) <==> |payload| <= 507
  {
    hide Room, Step, Run;
    if |payload| < 128 {
      FrameRoom(m, h, payload);
    } else if |payload| > 507 {
      var e, up, rest := UpToBlock(m, h, payload);
      if Room(Idle(m), up + rest) { RoomOnTheWay(Idle(m), up, rest); }
    } else {
      var e, up, rest := UpToBlock(m, h, payload);
      UpRoom(m, up);
      QuietEndRoom(e, rest);
      RoomConcat(Idle(m), up, rest);
    }
  }

  lemma {:induction false} RoomOnTheWay(u: Uart, a: seq<byte>, b: seq<byte>)
    requires Room(u, a + b)
    ensures |Run(u, a).0.got| <= MAX_BIN_SIZE
    decreases |a|
  {
    if a == [] {
      assert a + b == b;
    } else {
      hide Step;
      assert (a + b)[1..] == a[1..] + b;
      RoomOnTheWay(Step(u, a[0]).0, a[1..], b);
    }
  }

  lemma UpRoom(m: nat, up: seq<byte>)
    requires up != [] && up[..1] == [RECORD_START] && |up| <= MAX_BIN_SIZE + 1
    ensures Room(Idle(m), up)
  {
    ShortRoom(Step(Idle(m), up[0]).0, up[1..]);
  }

  lemma {:induction false} QuietEndRoom(u: Uart, b: seq<byte>)
    requires u.sts == ExpectEnd && |u.got| <= MAX_BIN_SIZE && Quiet(b)
    ensures Room(u, b)
    decreases |b|
  {
    if b != [] {
      if b[0] == RECORD_END { NoiseRoom(u.multiplier, b[1..]); } else { QuietEndRoom(u, b[1..]); }
    }
  }

  class SerialLoop {
    const rxbuff: array<byte>
    var ptr: nat
    var sts: Sts
    var binlen: nat
    var multiplier: nat

    constructor ()
      ensures Valid() && View() == Idle(1) && fresh(rxbuff)
    {
      rxbuff := new byte[MAX_BIN_SIZE];
      ptr, sts, binlen, multiplier := 0, WaitStart, 0, 1;
    }

    ghost predicate Valid()
      reads this
    {
      rxbuff.Length == MAX_BIN_SIZE && ptr <= MAX_BIN_SIZE
    }

    ghost function View(): Uart
      requires Valid()
      reads this, rxbuff
    {
      Uart(sts, rxbuff[..ptr], binlen, multiplier)
    }

    method Store(c: byte)
      requires Valid() && ptr < MAX_BIN_SIZE
      modifies this`ptr, rxbuff
      ensures Valid() && ptr == old(ptr) + 1 && rxbuff[..ptr] == old(rxbuff[..ptr]) + [c]
    {
      rxbuff[ptr] := c;
      ptr := ptr + 1;
    }

    /** One round of the loop. */
    method Feed(c: byte) returns (out: seq<seq<byte>>)
      requires Valid() && |Step(View(), c).0.got| <= MAX_BIN_SIZE
      modifies this, rxbuff
      ensures Valid() && (View(), out) == Step(old(View()), c)
    {
      out := [];
      if c == RECORD_END {
        if sts == ExpectEnd {
          out := [rxbuff[..ptr]];
          sts, ptr, binlen := WaitStart, 0, 0;
          return;
        }
      }
      match sts
      case WaitStart =>
        if c == RECORD_START {
          sts, multiplier := MsgType, 1;
        }
      case MsgType =>
        Store(c);
        sts := Sline;
      case Sline =>
        Store(c);
        sts := Dline;
      case Dline =>
        Store(c);
        sts := Flags;
      case Flags =>
        Store(c);
        sts := Len;
      case Len =>
        binlen := binlen + Low7(c) * multiplier;
        multiplier := multiplier * 128;
        if c < 128 {
          sts := BinBlock;
        }
        Store(c);
      case BinBlock =>
        Store(c);
        if ptr == binlen + 5 {
          sts := ExpectEnd;
        }
      case ExpectEnd =>
    }

    /** The loop over the bytes that arrive; the messages it hands to bocia_unmarshall. */
    method Loop(input: seq<byte>) returns (messages: seq<seq<byte>>)
      requires Valid() && Room(View(), input)
      modifies this, rxbuff
      ensures Valid() && (View(), messages) == Run(old(View()), input)
    {
      messages := [];
      assert input[0..] == input && [] + Run(View(), input).1 == Run(View(), input).1;
      for i := 0 to |input|
        invariant Valid() && Room(View(), input[i..])
        invariant Run(old(View()), input) == (Run(View(), input[i..]).0, messages + Run(View(), input[i..]).1)
      {
        hide Step;
        assert input[i..][1..] == input[i + 1..];
        ghost var u, rest := View(), Run(Step(View(), input[i]).0, input[i + 1..]).1;
        assert Room(Step(u, input[i]).0, input[i + 1..]);
        var out := Feed(input[i]);
        ConcatAssociates(messages, out, rest);
        assert [] + rest == rest;
        messages := messages + out;
      }
      assert input[|input|..] == [] && messages + [] == messages;
    }
  }
}
