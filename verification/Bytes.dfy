/** Bytes, machine word sizes, and the one way this project says what a writer did to a buffer. */
module Bytes {

  type byte = b: int | 0 <= b < 256

  const TWO31: int := 0x8000_0000
  const TWO32: int := 0x1_0000_0000
  const TWO63: int := 0x8000_0000_0000_0000
  const TWO64: int := 0x1_0000_0000_0000_0000

  predicate IsU32(v: int) { 0 <= v < TWO32 }

  predicate IsU64(v: int) { 0 <= v < TWO64 }

  predicate IsI32(v: int) { -TWO31 <= v < TWO31 }

  predicate IsI64(v: int) { -TWO63 <= v < TWO63 }

  datatype Option<+T> = None | Some(value: T)

  /** The contents of a buffer after `b` has been written at offset `at` and nothing else touched. */
  function Splice<T>(s: seq<T>, at: nat, b: seq<T>): (r: seq<T>)
    requires at + |b| <= |s|
    ensures |r| == |s| && r[at..at + |b|] == b && r[..at] == s[..at] && r[at + |b|..] == s[at + |b|..]
  {
    s[..at] + b + s[at + |b|..]
  }

  /** Two adjacent writes are one write of the concatenation. */
  lemma SpliceAppend<T>(s: seq<T>, at: nat, a: seq<T>, b: seq<T>)
    requires at + |a| + |b| <= |s|
    ensures Splice(Splice(s, at, a), at + |a|, b) == Splice(s, at, a + b)
  {
    var t := Splice(s, at, a);
    assert t[..at + |a|] == s[..at] + a;
    assert t[at + |a| + |b|..] == s[at + |a| + |b|..];
  }

  lemma SliceOfConcat<T>(a: seq<T>, b: seq<T>, i: nat, j: nat)
    requires i <= j <= |a|
    ensures (a + b)[i..j] == a[i..j] && (a + b)[i..] == a[i..] + b
  {
  }

  lemma SliceOfSlice<T>(s: seq<T>, from: nat, to: nat, i: nat, j: nat)
    requires i <= j && from + j <= to <= |s|
    ensures s[from..to][i..j] == s[from + i..from + j]
  {
    var t := s[from..to];
    assert |t[i..j]| == |s[from + i..from + j]|;
    assert forall k :: 0 <= k < j - i ==> t[i..j][k] == t[i + k];
  }

  lemma ConcatAssociates<T>(a: seq<T>, b: seq<T>, c: seq<T>)
    ensures a + (b + c) == (a + b) + c
  {
  }

  /** Of the bytes `all` meant for offset `at`, the first `rv` are in place and `rest` is still to come. */
  ghost predicate Written<T>(was: seq<T>, now: seq<T>, at: nat, all: seq<T>, rv: nat, rest: seq<T>)
  {
    && at + |all| <= |was|
    && rv + |rest| == |all| && all[rv..] == rest
    && now == Splice(was, at, all[..rv])
  }

  lemma WrittenStart<T>(was: seq<T>, at: nat, all: seq<T>)
    requires at + |all| <= |was|
    ensures Written(was, was, at, all, 0, all)
  {
    assert Splice(was, at, all[..0]) == was;
  }

  lemma WrittenStep<T>(was: seq<T>, now: seq<T>, at: nat, all: seq<T>, rv: nat, e: seq<T>, rest: seq<T>)
    requires Written(was, now, at, all, rv, e + rest)
    ensures at + rv + |e| <= |now|
    ensures Written(was, Splice(now, at + rv, e), at, all, rv + |e|, rest)
  {
    SpliceAppend(was, at, all[..rv], e);
    assert all[rv..][..|e|] == e && all[rv..][|e|..] == rest;
    assert all[..rv + |e|] == all[..rv] + e;
  }

  lemma WrittenEnd<T>(was: seq<T>, now: seq<T>, at: nat, all: seq<T>, rv: nat)
    requires Written(was, now, at, all, rv, [])
    ensures rv == |all| && now == Splice(was, at, all)
  {
    assert all[..rv] == all;
  }

  /** memcpy into a buffer. */
  method CopyIn(b: seq<byte>, out: array<byte>, at: nat)
    requires at + |b| <= out.Length
    modifies out
    ensures out[..] == Splice(old(out[..]), at, b)
  {
    ghost var was := out[..];
    forall i | 0 <= i < |b| { out[at + i] := b[i]; }
    assert out[at..at + |b|] == b;
    assert out[..] == out[..at] + out[at..at + |b|] + out[at + |b|..];
  }

  /** Little-endian bytes of a fixed-width word: htole32 and htole64 of the C code. */
  function LittleEndian(v: nat, n: nat): (r: seq<byte>)
    ensures |r| == n
  {
    if n == 0 then [] else [v % 256] + LittleEndian(v / 256, n - 1)
  }

  function FromLittleEndian(b: seq<byte>): (v: nat)
  {
    if b == [] then 0 else b[0] + 256 * FromLittleEndian(b[1..])
  }

  function Pow256(n: nat): (r: nat)
    ensures r > 0
  {
    if n == 0 then 1 else 256 * Pow256(n - 1)
  }

  lemma {:induction false} LittleEndianRoundTrip(v: nat, n: nat)
    requires v < Pow256(n)
    ensures FromLittleEndian(LittleEndian(v, n)) == v
  {
    if n > 0 {
      var b := LittleEndian(v, n);
      assert b[1..] == LittleEndian(v / 256, n - 1);
      LittleEndianRoundTrip(v / 256, n - 1);
    }
  }

  lemma {:induction false} FromLittleEndianBound(b: seq<byte>)
    ensures FromLittleEndian(b) < Pow256(|b|)
  {
    if b != [] { FromLittleEndianBound(b[1..]); }
  }
}
