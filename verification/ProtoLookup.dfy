/** Field lookup: int_range_lookup, the range tables of descriptors, and the one-entry cache. */
module ProtoLookup {
  import opened Bytes
  import opened ProtoModel

  function RangeSize(rs: seq<IntRange>, i: nat): int
    requires i + 1 < |rs|
  {
    rs[i + 1].orig - rs[i].orig
  }

  /** Sorted, disjoint, closed by a sentinel, and free of overflow in 32-bit signed arithmetic. */
  ghost predicate TableOk(rs: seq<IntRange>)
  {
    && |rs| >= 1
    && (forall i | 0 <= i < |rs| - 1 ::
          RangeSize(rs, i) >= 0 && -TWO31 <= rs[i].start && rs[i].start + RangeSize(rs, i) < TWO31)
    && (forall i, j | 0 <= i < j < |rs| - 1 :: rs[i].start + RangeSize(rs, i) <= rs[j].start)
  }

  predicate InRangeAt(rs: seq<IntRange>, i: nat, value: int)
    requires i + 1 < |rs|
  {
    rs[i].start <= value < rs[i].start + RangeSize(rs, i)
  }

  /** The reference: try one range after the other. */
  function LinearScan(rs: seq<IntRange>, value: int, i: nat): (r: int)
    requires i < |rs|
    ensures r >= 0 || r == -1 || exists k :: i <= k < |rs| - 1 && InRangeAt(rs, k, value)
    decreases |rs| - i
  {
    if i == |rs| - 1 then -1
    else if InRangeAt(rs, i, value) then value - rs[i].start + rs[i].orig
    else LinearScan(rs, value, i + 1)
  }

  lemma {:induction false} ScanHits(rs: seq<IntRange>, value: int, i: nat, hit: nat)
    requires TableOk(rs) && i <= hit < |rs| - 1 && InRangeAt(rs, hit, value)
    ensures LinearScan(rs, value, i) == value - rs[hit].start + rs[hit].orig
    decreases hit - i
  {
    if i < hit {
      assert rs[i].start + RangeSize(rs, i) <= rs[hit].start;
      ScanHits(rs, value, i + 1, hit);
    }
  }

  lemma {:induction false} ScanMisses(rs: seq<IntRange>, value: int, i: nat)
    requires i < |rs| && forall k | i <= k < |rs| - 1 :: !InRangeAt(rs, k, value)
    ensures LinearScan(rs, value, i) == -1
    decreases |rs| - i
  {
    if i < |rs| - 1 { ScanMisses(rs, value, i + 1); }
  }

  /** The binary search finds what the linear scan finds, on every table and for every value. */
  method IntRangeLookup(rs: seq<IntRange>, value: int) returns (r: int)
    requires TableOk(rs)
    ensures r == LinearScan(rs, value, 0)
  {
    var nRanges := |rs| - 1;
    if nRanges == 0 { return -1; }
    var start, n := 0, nRanges;
    while n > 1
      invariant 0 <= start && 0 <= n && start + n <= nRanges
      invariant forall k | 0 <= k < nRanges && !(start <= k < start + n) :: !InRangeAt(rs, k, value)
    {
      var mid := start + n / 2;
      if value < rs[mid].start {
        Below(rs, mid, value);
        n := mid - start;
      } else if value >= rs[mid].start + RangeSize(rs, mid) {
        var newStart := mid + 1;
        n := start + n - newStart;
        start := newStart;
      } else {
        ScanHits(rs, value, 0, mid);
        return value - rs[mid].start + rs[mid].orig;
      }
    }
    if n > 0 {
      if InRangeAt(rs, start, value) {
        ScanHits(rs, value, 0, start);
        return value - rs[start].start + rs[start].orig;
      }
    }
    ScanMisses(rs, value, 0);
    r := -1;
  }

  lemma Below(rs: seq<IntRange>, mid: nat, value: int)
    requires TableOk(rs) && mid < |rs| - 1 && value < rs[mid].start
    ensures forall k | mid <= k < |rs| - 1 :: !InRangeAt(rs, k, value)
  {
    forall k | mid < k < |rs| - 1 ensures !InRangeAt(rs, k, value) {
      assert rs[mid].start + RangeSize(rs, mid) <= rs[k].start;
    }
  }

  // ---------- descriptors ----------

  /** The field with number `id`, by position. */
  function FindField(fs: seq<Field>, id: nat): (r: Option<nat>)
    ensures r.Some? ==> r.value < |fs| && fs[r.value].id == id
    ensures r.None? ==> forall i | 0 <= i < |fs| :: fs[i].id != id
  {
    if fs == [] then None
    else if fs[|fs| - 1].id == id then Some(|fs| - 1)
    else FindField(fs[..|fs| - 1], id)
  }

  /** The table spells out the field numbers run by run. */
  ghost predicate RangesDescribe(d: Desc)
  {
    && TableOk(d.ranges)
    && d.ranges[0].orig == 0 && d.ranges[|d.ranges| - 1].orig == |d.fields|
    && (forall i | 0 <= i < |d.ranges| :: d.ranges[i].orig <= |d.fields|)
    && (forall i, k | 0 <= i < |d.ranges| - 1 && d.ranges[i].orig <= k < d.ranges[i + 1].orig ::
          d.fields[k].id == d.ranges[i].start + (k - d.ranges[i].orig))
  }

  /** A tag reaches the lookup as an int: from 2^31 on it is negative, and no field has such a number. */
  function AsInt(tag: nat): int
  {
    if tag < TWO31 then tag else tag - TWO32
  }

  lemma {:induction false} RunOf(rs: seq<IntRange>, k: nat, i: nat) returns (hit: nat)
    requires i < |rs| && rs[i].orig <= k < rs[|rs| - 1].orig
    ensures i <= hit < |rs| - 1 && rs[hit].orig <= k < rs[hit + 1].orig
    decreases |rs| - i
  {
    if k < rs[i + 1].orig {
      hit := i;
    } else {
      hit := RunOf(rs, k, i + 1);
    }
  }

  lemma InRangeIsField(s: Schema, d: Desc, i: nat, value: int) returns (k: nat)
    requires DescOk(s, d) && RangesDescribe(d) && i < |d.ranges| - 1 && InRangeAt(d.ranges, i, value)
    ensures k < |d.fields| && d.fields[k].id == value && value > 0
  {
    assert d.ranges[i + 1].orig <= |d.fields|;
    k := d.ranges[i].orig + (value - d.ranges[i].start);
    assert FieldOk(s, d.fields[k]);
  }

  /** Looking a tag up in the table of a descriptor is finding the field that carries it. */
  lemma LookupFindsField(s: Schema, d: Desc, tag: nat)
    requires DescOk(s, d) && RangesDescribe(d) && IsU32(tag)
    ensures LinearScan(d.ranges, AsInt(tag), 0)
         == (if FindField(d.fields, tag).Some? then FindField(d.fields, tag).value else -1)
  {
    var found := FindField(d.fields, tag);
    if found.Some? {
      var k := found.value;
      assert FieldOk(s, d.fields[k]);
      var hit := RunOf(d.ranges, k, 0);
      ScanHits(d.ranges, tag, 0, hit);
    } else {
      forall i | 0 <= i < |d.ranges| - 1 ensures !InRangeAt(d.ranges, i, AsInt(tag)) {
        if InRangeAt(d.ranges, i, AsInt(tag)) {
          var k := InRangeIsField(s, d, i, AsInt(tag));
          assert false;
        }
      }
      ScanMisses(d.ranges, AsInt(tag), 0);
    }
  }

  /** The cache of the scan loop: a field whose number matches is the field a fresh lookup would return. */
  lemma CachedFieldIsFresh(s: Schema, d: Desc, last: nat, tag: nat)
    requires DescOk(s, d) && last < |d.fields| && d.fields[last].id == tag
    ensures FindField(d.fields, tag) == Some(last)
  {
  }
}
