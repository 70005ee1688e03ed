/**
 Base-128 varints: the one integer encoding that protobuf values, the MQTT remaining length and the
 NAIS length field all share, with the size tables, writers and readers of protobuf-c.c.
 */
module Base128 {
  import opened Bytes

  /** Least significant group first; the high bit of a byte says that more groups follow. */
  function Varint(v: nat): (r: seq<byte>)
    ensures |r| >= 1
  {
    if v < 128 then [v] else [v % 128 + 128] + Varint(v / 128)
  }

  /** The number that the low seven bits of each byte spell out. */
  function VarintValue(b: seq<byte>): (v: nat)
  {
    if b == [] then 0 else b[0] % 128 + 128 * VarintValue(b[1..])
  }

  /** Offset just past the first byte without the continuation bit among the first `max` bytes; 0 if none. */
  function TerminatedLength(b: seq<byte>, max: nat): (r: nat)
    ensures r <= |b| && r <= max
    ensures r > 0 ==> b[r - 1] < 128 && forall i :: 0 <= i < r - 1 ==> b[i] >= 128
    ensures r == 0 ==> forall i :: 0 <= i < |b| && i < max ==> b[i] >= 128
  {
    if b == [] || max == 0 then 0
    else if b[0] < 128 then 1
    else
      var rest := TerminatedLength(b[1..], max - 1);
      assert b == [b[0]] + b[1..];
      if rest == 0 then 0 else rest + 1
  }

  // ---------- what the encoding means ----------

  lemma {:induction false} VarintRoundTrip(v: nat)
    ensures VarintValue(Varint(v)) == v
  {
    if v >= 128 {
      assert Varint(v)[1..] == Varint(v / 128);
      VarintRoundTrip(v / 128);
    }
  }

  /** A varint is self-delimiting, whatever follows it. */
  lemma {:induction false} VarintTerminates(v: nat, rest: seq<byte>, max: nat)
    requires |Varint(v)| <= max
    ensures TerminatedLength(Varint(v) + rest, max) == |Varint(v)|
  {
    if v >= 128 {
      assert (Varint(v) + rest)[1..] == Varint(v / 128) + rest;
      VarintTerminates(v / 128, rest, max - 1);
    }
  }

  /** Where the first terminator is depends only on the bytes up to it. */
  lemma {:induction false} TerminatedLengthPrefix(a: seq<byte>, b: seq<byte>, max: nat)
    requires TerminatedLength(a, max) > 0
    ensures TerminatedLength(a + b, max) == TerminatedLength(a, max)
  {
    if a[0] >= 128 {
      assert (a + b)[1..] == a[1..] + b;
      TerminatedLengthPrefix(a[1..], b, max - 1);
    }
  }

  // ---------- sizes ----------

  function UInt32Size(v: int): (r: nat)
  {
    if v < 0x80 then 1
    else if v < 0x4000 then 2
    else if v < 0x20_0000 then 3
    else if v < 0x1000_0000 then 4
    else 5
  }

  function Int32Size(v: int): (r: nat)
  {
    if v < 0 then 10 else UInt32Size(v)
  }

  function UInt64Size(v: nat): (r: nat)
  {
    var upper := v / TWO32;
    if upper == 0 then UInt32Size(v)
    else if upper < 0x8 then 5
    else if upper < 0x400 then 6
    else if upper < 0x2_0000 then 7
    else if upper < 0x100_0000 then 8
    else if upper < 0x8000_0000 then 9
    else 10
  }

  /** Bytes of the tag of field `number`; the wire type occupies the low three bits of the first one. */
  function TagSize(number: nat): (r: nat)
  {
    if number < 0x10 then 1
    else if number < 0x800 then 2
    else if number < 0x4_0000 then 3
    else if number < 0x200_0000 then 4
    else 5
  }

  lemma {:induction false} UInt64SizeIsLength(v: nat)
    requires IsU64(v)
    ensures UInt64Size(v) == |Varint(v)|
  {
    if v >= 128 {
      UInt64SizeIsLength(v / 128);
    }
  }

  lemma UInt32SizeIsLength(v: nat)
    requires IsU32(v)
    ensures UInt32Size(v) == |Varint(v)|
  {
    UInt64SizeIsLength(v);
  }

  /** The two's complement of a negative int32, sign-extended to 64 bits, always takes ten bytes. */
  function Extend64(v: int): (r: nat)
    requires IsI32(v) || IsI64(v)
    ensures IsU64(r)
  {
    if v < 0 then TWO64 + v else v
  }

  lemma Int32SizeIsLength(v: int)
    requires IsI32(v)
    ensures Int32Size(v) == |Varint(Extend64(v))|
  {
    UInt64SizeIsLength(Extend64(v));
  }

  lemma TagSizeIsLength(number: nat, wire: nat)
    requires IsU32(number) && wire < 8
    ensures TagSize(number) == |Varint(number * 8 + wire)|
  {
    UInt64SizeIsLength(number * 8 + wire);
  }

  // ---------- zigzag ----------

  /** Written with the wrap-around of unsigned 32-bit negation, doubling and decrement. */
  function ZigZag32(v: int): (r: nat)
    requires IsI32(v)
    ensures IsU32(r)
  {
    if v < 0 then ((-v) % TWO32 * 2 - 1) % TWO32 else v * 2
  }

  function Unzigzag32(v: nat): (r: int)
    requires IsU32(v)
    ensures IsI32(r)
  {
    if v % 2 == 1 then -(v / 2) - 1 else v / 2
  }

  function ZigZag64(v: int): (r: nat)
    requires IsI64(v)
    ensures IsU64(r)
  {
    if v < 0 then ((-v) % TWO64 * 2 - 1) % TWO64 else v * 2
  }

  function Unzigzag64(v: nat): (r: int)
    requires IsU64(v)
    ensures IsI64(r)
  {
    if v % 2 == 1 then -(v / 2) - 1 else v / 2
  }

  lemma ZigZagRoundTrip32(v: int, w: nat)
    requires IsI32(v) && IsU32(w)
    ensures Unzigzag32(ZigZag32(v)) == v && ZigZag32(Unzigzag32(w)) == w
  {
    ZigZag32Value(v);
    ZigZag32Value(Unzigzag32(w));
  }

  lemma ZigZag32Value(v: int)
    requires IsI32(v)
    ensures ZigZag32(v) == if v < 0 then -2 * v - 1 else 2 * v
  {
    if v < 0 {
      assert 0 < -v < TWO32;
      assert (-v) % TWO32 == -v;
    }
  }

  lemma ZigZagRoundTrip64(v: int, w: nat)
    requires IsI64(v) && IsU64(w)
    ensures Unzigzag64(ZigZag64(v)) == v && ZigZag64(Unzigzag64(w)) == w
  {
    ZigZag64Value(v);
    ZigZag64Value(Unzigzag64(w));
  }

  lemma ZigZag64Value(v: int)
    requires IsI64(v)
    ensures ZigZag64(v) == if v < 0 then -2 * v - 1 else 2 * v
  {
    if v < 0 {
      assert 0 < -v < TWO64;
      assert (-v) % TWO64 == -v;
    }
  }

  // ---------- writers ----------

  /** `Written` for a varint: `v` is what is left of `value` after `rv` groups. */
  ghost predicate Partial(was: seq<byte>, now: seq<byte>, at: nat, value: nat, rv: nat, v: nat)
  {
    Written(was, now, at, Varint(value), rv, Varint(v))
  }

  lemma PartialStart(was: seq<byte>, at: nat, value: nat)
    requires at + |Varint(value)| <= |was|
    ensures Partial(was, was, at, value, 0, value)
  {
    WrittenStart(was, at, Varint(value));
  }

  lemma PartialStep(was: seq<byte>, now: seq<byte>, at: nat, value: nat, rv: nat, v: nat)
    requires Partial(was, now, at, value, rv, v) && v >= 128
    ensures at + rv < |now| && Partial(was, now[at + rv := v % 128 + 128], at, value, rv + 1, v / 128)
  {
    WrittenStep(was, now, at, Varint(value), rv, [v % 128 + 128], Varint(v / 128));
    assert Splice(now, at + rv, [v % 128 + 128]) == now[at + rv := v % 128 + 128];
  }

  lemma PartialEnd(was: seq<byte>, now: seq<byte>, at: nat, value: nat, rv: nat, v: nat)
    requires Partial(was, now, at, value, rv, v) && v < 128
    ensures at + rv < |now| && rv + 1 == |Varint(value)| && now[at + rv := v] == Splice(was, at, Varint(value))
  {
    WrittenStep(was, now, at, Varint(value), rv, [v], []);
    assert Splice(now, at + rv, [v]) == now[at + rv := v];
    WrittenEnd(was, now[at + rv := v], at, Varint(value), rv + 1);
  }

  /** One continuation byte: `out[rv++] = value | 0x80; value >>= 7`. */
  method PutGroup(out: array<byte>, at: nat, rv: nat, v: nat, ghost was: seq<byte>, ghost value: nat)
    returns (rv': nat, v': nat)
    requires Partial(was, out[..], at, value, rv, v) && v >= 128
    modifies out
    ensures rv' == rv + 1 && v' == v / 128 && Partial(was, out[..], at, value, rv', v')
  {
    PartialStep(was, out[..], at, value, rv, v);
    out[at + rv] := v % 128 + 128;
    rv', v' := rv + 1, v / 128;
  }

  method Uint32Pack(value: nat, out: array<byte>, at: nat) returns (rv: nat)
    requires IsU32(value)
    requires at + |Varint(value)| <= out.Length
    modifies out
    ensures rv == |Varint(value)|
    ensures out[..] == Splice(old(out[..]), at, Varint(value))
  {
    ghost var was := out[..];
    var v := value;
    rv := 0;
    WrittenStart(was, at, Varint(value));
    if v >= 0x80 {
      rv, v := PutGroup(out, at, rv, v, was, value);
      if v >= 0x80 {
        rv, v := PutGroup(out, at, rv, v, was, value);
        if v >= 0x80 {
          rv, v := PutGroup(out, at, rv, v, was, value);
          if v >= 0x80 {
            rv, v := PutGroup(out, at, rv, v, was, value);
          }
        }
      }
    }
    PartialEnd(was, out[..], at, value, rv, v);
    out[at + rv] := v;
    rv := rv + 1;
  }

  /** Negative values go out as the ten-byte varint of their 64-bit two's complement. */
  method Int32Pack(value: int, out: array<byte>, at: nat) returns (rv: nat)
    requires IsI32(value)
    requires at + |Varint(Extend64(value))| <= out.Length
    modifies out
    ensures rv == |Varint(Extend64(value))|
    ensures out[..] == Splice(old(out[..]), at, Varint(Extend64(value)))
  {
    if value < 0 {
      Int32SizeIsLength(value);
      NegativeInt32Bytes(value);
      ghost var was := out[..];
      out[at] := value % 128 + 128;
      out[at + 1] := value / 0x80 % 128 + 128;
      out[at + 2] := value / 0x4000 % 128 + 128;
      out[at + 3] := value / 0x20_0000 % 128 + 128;
      out[at + 4] := value / 0x1000_0000 % 128 + 128;
      out[at + 5], out[at + 6], out[at + 7], out[at + 8] := 0xff, 0xff, 0xff, 0xff;
      out[at + 9] := 0x01;
      assert out[at..at + 10] == Varint(Extend64(value));
      assert out[..] == out[..at] + out[at..at + 10] + out[at + 10..];
      rv := 10;
    } else {
      rv := Uint32Pack(value, out, at);
    }
  }

  lemma NegativeInt32Bytes(value: int)
    requires IsI32(value) && value < 0
    ensures Varint(TWO64 + value) ==
            [value % 128 + 128, value / 0x80 % 128 + 128, value / 0x4000 % 128 + 128,
             value / 0x20_0000 % 128 + 128, value / 0x1000_0000 % 128 + 128, 0xff, 0xff, 0xff, 0xff, 0x01]
  {
    FiveGroups(value, value / 0x80, value / 0x4000, value / 0x20_0000, value / 0x1000_0000);
  }

  lemma FiveGroups(w0: int, w1: int, w2: int, w3: int, w4: int)
    requires -TWO31 <= w0 < 0 && w1 == w0 / 128 && w2 == w1 / 128 && w3 == w2 / 128 && w4 == w3 / 128
    ensures Varint(TWO64 + w0) == [w0 % 128 + 128, w1 % 128 + 128, w2 % 128 + 128, w3 % 128 + 128, w4 % 128 + 128]
                                  + [0xff, 0xff, 0xff, 0xff, 0x01]
  {
    assert w4 / 128 == -1;
    var t4 := [w4 % 128 + 128] + [0xff, 0xff, 0xff, 0xff, 0x01];
    assert Varint(0x2000_0000 * 128 + w4) == t4 by { FirstGroup(0x2000_0000, w4); AllOnes(); }
    assert Varint(0x10_0000_0000 * 128 + w3) == [w3 % 128 + 128] + t4 by { FirstGroup(0x10_0000_0000, w3); }
    FirstGroup(0x800_0000_0000, w2);
    FirstGroup(0x4_0000_0000_0000, w1);
    FirstGroup(0x200_0000_0000_0000, w0);
  }

  lemma FirstGroup(c: nat, w: int)
    requires 0 <= 128 * c + w && 128 <= 128 * c + w
    ensures Varint(128 * c + w) == [w % 128 + 128] + Varint(c + w / 128)
  {
    SplitGroup(c, w);
  }

  lemma Mod128(x: int, k: int, m: int)
    requires x == 128 * k + m && 0 <= m < 128
    ensures x % 128 == m && x / 128 == k
  {
  }

  lemma SplitGroup(c: int, w: int)
    ensures (128 * c + w) / 128 == c + w / 128 && (128 * c + w) % 128 == w % 128
  {
    Mod128(128 * c + w, c + w / 128, w % 128);
  }

  lemma AllOnes()
    ensures Varint(0x1fff_ffff) == [0xff, 0xff, 0xff, 0xff, 0x01]
  {
    assert Varint(0xff) == [0xff] + Varint(1);
    assert Varint(0x7fff) == [0xff] + Varint(0xff);
    assert Varint(0x3f_ffff) == [0xff] + Varint(0x7fff);
    assert Varint(0x1fff_ffff) == [0xff] + Varint(0x3f_ffff);
  }

  /** The low 28 bits go out one group at a time, the rest is assembled from both halves. */
  method Uint64Pack(value: nat, out: array<byte>, at: nat) returns (rv: nat)
    requires IsU64(value)
    requires at + |Varint(value)| <= out.Length
    modifies out
    ensures rv == |Varint(value)|
    ensures out[..] == Splice(old(out[..]), at, Varint(value))
  {
    hide Partial, Splice;
    var hi: nat, lo: nat := value / TWO32, value % TWO32;
    if hi == 0 {
      rv := Uint32Pack(lo, out, at);
      return;
    }
    ghost var was := out[..];
    HighHalf(value);
    PartialStart(was, at, value);
    var v := value;
    rv, v := PutGroup(out, at, 0, v, was, value);
    rv, v := PutGroup(out, at, rv, v, was, value);
    rv, v := PutGroup(out, at, rv, v, was, value);
    rv, v := PutGroup(out, at, rv, v, was, value);
    if hi < 8 {
      PartialEnd(was, out[..], at, value, rv, v);
      out[at + rv] := hi * 16 + lo / 0x1000_0000;
      return rv + 1;
    }
    PartialStep(was, out[..], at, value, rv, v);
    out[at + rv] := hi % 8 * 16 + lo / 0x1000_0000 + 128;
    hi := hi / 8;
    rv := 5;
    while hi >= 128
      invariant Partial(was, out[..], at, value, rv, hi)
    {
      rv, hi := PutGroup(out, at, rv, hi, was, value);
    }
    PartialEnd(was, out[..], at, value, rv, hi);
    out[at + rv] := hi;
    rv := rv + 1;
  }

  lemma HighHalf(value: nat)
    requires IsU64(value) && value >= TWO32
    ensures var hi, lo, v4 := value / TWO32, value % TWO32, value / 128 / 128 / 128 / 128;
            && value >= 128 && value / 128 >= 128 && value / 128 / 128 >= 128 && value / 128 / 128 / 128 >= 128
            && v4 == hi * 16 + lo / 0x1000_0000
            && v4 % 128 == hi % 8 * 16 + lo / 0x1000_0000 && v4 / 128 == hi / 8
            && (hi < 8 <==> v4 < 128)
  {
    var hi, lo := value / TWO32, value % TWO32;
    var k := lo / 0x1000_0000;
    FourShifts(value);
    assert value / 0x1000_0000 == hi * 16 + k by { TopOf(value, hi, lo, k); }
    SplitGroup(hi / 8, hi % 8 * 16 + k);
    assert hi * 16 + k == 128 * (hi / 8) + (hi % 8 * 16 + k);
  }

  lemma FourShifts(value: nat)
    requires value >= TWO32
    ensures value / 128 >= 128 && value / 128 / 128 >= 128 && value / 128 / 128 / 128 >= 128
    ensures value / 128 / 128 / 128 / 128 == value / 0x1000_0000
  {
    assert value / 128 / 128 == value / 0x4000;
    assert value / 0x4000 / 128 == value / 0x20_0000;
  }

  lemma TopOf(value: nat, hi: nat, lo: nat, k: nat)
    requires value == hi * TWO32 + lo && lo < TWO32 && k == lo / 0x1000_0000
    ensures value / 0x1000_0000 == hi * 16 + k
  {
    var r := lo % 0x1000_0000;
    assert value == (hi * 16 + k) * 0x1000_0000 + r;
  }

  // ---------- readers ----------

  function Pow128(n: nat): (r: nat)
    ensures r > 0
  {
    if n == 0 then 1 else 128 * Pow128(n - 1)
  }

  function Low7(b: byte): (r: nat)
    ensures r < 128
  {
    var i: int := b;
    i % 128
  }

  /** Five groups at most; the fifth byte is shifted whole, so all but its low four bits fall off the word. */
  function ParseUint32(data: seq<byte>): (r: nat)
    requires |data| >= 1
  {
    var low := Low7(data[0])
               + (if |data| > 1 then Low7(data[1]) * 0x80 else 0)
               + (if |data| > 2 then Low7(data[2]) * 0x4000 else 0)
               + (if |data| > 3 then Low7(data[3]) * 0x20_0000 else 0);
    if |data| > 4 then low + ShiftedByte(data[4]) else low
  }

  function ShiftedByte(b: byte): (r: nat)
  {
    var i: int := b;
    i * 0x1000_0000 % TWO32
  }

  /** The value group by group, so far as the first four groups reach. */
  lemma FirstGroups(b: seq<byte>)
    requires |b| >= 1
    ensures |b| == 1 ==> VarintValue(b) == Low7(b[0])
    ensures |b| == 2 ==> VarintValue(b) == Low7(b[0]) + Low7(b[1]) * 0x80
    ensures |b| == 3 ==> VarintValue(b) == Low7(b[0]) + Low7(b[1]) * 0x80 + Low7(b[2]) * 0x4000
    ensures |b| >= 4 ==> VarintValue(b) == Low7(b[0]) + Low7(b[1]) * 0x80 + Low7(b[2]) * 0x4000
                                           + Low7(b[3]) * 0x20_0000 + 0x1000_0000 * VarintValue(b[4..])
  {
    assert VarintValue(b) == Low7(b[0]) + 128 * VarintValue(b[1..]);
    if |b| > 1 {
      assert b[1..][1..] == b[2..];
      assert VarintValue(b[1..]) == Low7(b[1]) + 128 * VarintValue(b[2..]);
      if |b| > 2 {
        assert b[2..][1..] == b[3..];
        assert VarintValue(b[2..]) == Low7(b[2]) + 128 * VarintValue(b[3..]);
        if |b| > 3 {
          assert b[3..][1..] == b[4..];
          assert VarintValue(b[3..]) == Low7(b[3]) + 128 * VarintValue(b[4..]);
        }
      }
    }
  }

  /** Whatever the number of groups, `parse_uint32` yields the value of the varint modulo 2^32. */
  lemma ParseUint32IsLowWord(data: seq<byte>)
    requires |data| >= 1
    ensures ParseUint32(data) == VarintValue(data) % TWO32
  {
    hide VarintValue, Low7, ShiftedByte;
    FirstGroups(data);
    ShortVarintValue(data);
    if |data| < 4 {
      FitsWord(VarintValue(data));
    } else if |data| == 4 {
      ShortVarintValue(data[4..]);
      FitsWord(VarintValue(data));
    } else {
      var low := Low7(data[0]) + Low7(data[1]) * 0x80 + Low7(data[2]) * 0x4000 + Low7(data[3]) * 0x20_0000;
      GroupAt(data, 4);
      LowWord(VarintValue(data), low, data[4], VarintValue(data[5..]));
    }
  }

  lemma FitsWord(v: nat)
    requires v < TWO32
    ensures v % TWO32 == v
  {
  }

  lemma GroupAt(data: seq<byte>, i: nat)
    requires i < |data|
    ensures VarintValue(data[i..]) == Low7(data[i]) + 128 * VarintValue(data[i + 1..])
  {
    assert data[i..][1..] == data[i + 1..];
  }

  lemma LowWord(v: nat, low: nat, b: byte, high: nat)
    requires low < 0x1000_0000 && v == low + 0x1000_0000 * (Low7(b) + 128 * high)
    ensures v % TWO32 == low + ShiftedByte(b)
  {
    hide Low7, ShiftedByte;
    var i: int := b;
    var q, r := i / 16, i % 16;
    Shifted(b, q, r);
    LowBits(b, q, r);
    Overflow(v, low, r, q % 8 + 8 * high);
  }

  lemma Shifted(b: byte, q: nat, r: nat)
    requires b as int == 16 * q + r && r < 16
    ensures ShiftedByte(b) == r * 0x1000_0000
  {
    assert (b as int) * 0x1000_0000 == q * TWO32 + r * 0x1000_0000;
  }

  lemma LowBits(b: byte, q: nat, r: nat)
    requires b as int == 16 * q + r && r < 16
    ensures Low7(b) == q % 8 * 16 + r
  {
    Mod128(b, q / 8, q % 8 * 16 + r);
  }

  lemma Overflow(v: nat, low: nat, r: nat, k: nat)
    requires low < 0x1000_0000 && r < 16 && v == low + 0x1000_0000 * (16 * k + r)
    ensures v % TWO32 == low + r * 0x1000_0000
  {
    assert v == (low + r * 0x1000_0000) + TWO32 * k;
  }

  lemma {:induction false} VarintValueSnoc(b: seq<byte>, x: byte)
    ensures VarintValue(b + [x]) == VarintValue(b) + Low7(x) * Pow128(|b|)
  {
    if b != [] {
      assert (b + [x])[1..] == b[1..] + [x];
      VarintValueSnoc(b[1..], x);
      Distribute(Low7(x), Pow128(|b| - 1));
    } else {
      assert VarintValue((b + [x])[1..]) == 0;
    }
  }

  lemma Distribute(x: nat, p: nat)
    ensures 128 * (x * p) == x * (128 * p)
  {
  }

  lemma Pow128Values()
    ensures Pow128(4) == 0x1000_0000 && Pow128(9) == TWO63
  {
    assert Pow128(2) == 0x4000;
    assert Pow128(5) == 128 * Pow128(4);
    assert Pow128(7) == 128 * (128 * Pow128(5));
  }

  /** The loop drops what is shifted past bit 63; with at most ten groups only the tenth can lose bits. */
  method ParseUint64(data: seq<byte>) returns (rv: nat)
    requires 1 <= |data| <= 10
    ensures rv == VarintValue(data) % TWO64
  {
    hide ParseUint32, VarintValue;
    if |data| < 5 {
      ParseUint32IsLowWord(data);
      ShortVarintValue(data);
      return ParseUint32(data);
    }
    rv := Low7(data[0]) + Low7(data[1]) * 0x80 + Low7(data[2]) * 0x4000 + Low7(data[3]) * 0x20_0000;
    FourGroups(data);
    var scale: nat := 0x1000_0000;
    var i := 4;
    while i < |data|
      invariant 4 <= i <= |data|
      invariant scale == Pow128(i)
      invariant rv == VarintValue(data[..i]) % TWO64
    {
      NextGroup(data, i, rv);
      rv := (rv + Low7(data[i]) * scale) % TWO64;
      scale := scale * 128;
      i := i + 1;
    }
    assert data[..i] == data;
  }

  lemma FourGroups(data: seq<byte>)
    requires |data| > 4
    ensures Pow128(4) == 0x1000_0000
    ensures Low7(data[0]) + Low7(data[1]) * 0x80 + Low7(data[2]) * 0x4000 + Low7(data[3]) * 0x20_0000
            == VarintValue(data[..4]) % TWO64
  {
    Pow128Values();
    FirstGroups(data[..4]);
    assert data[..4][4..] == [];
    assert VarintValue(data[..4][4..]) == 0;
  }

  lemma NextGroup(data: seq<byte>, i: nat, rv: nat)
    requires i < |data| && rv == VarintValue(data[..i]) % TWO64
    ensures (rv + Low7(data[i]) * Pow128(i)) % TWO64 == VarintValue(data[..i + 1]) % TWO64
  {
    VarintValueSnoc(data[..i], data[i]);
    assert data[..i + 1] == data[..i] + [data[i]];
    AddModulo(VarintValue(data[..i]), Low7(data[i]) * Pow128(i));
  }

  lemma AddModulo(a: nat, b: nat)
    ensures (a % TWO64 + b) % TWO64 == (a + b) % TWO64
  {
  }

  lemma {:induction false} ShortVarintValue(b: seq<byte>)
    ensures VarintValue(b) < Pow128(|b|)
    ensures |b| <= 4 ==> VarintValue(b) < 0x1000_0000
  {
    if b != [] { ShortVarintValue(b[1..]); }
    if |b| <= 3 { assert Pow128(|b|) <= Pow128(3) == 0x20_0000; }
    if |b| == 4 { Pow128Values(); }
  }
}
