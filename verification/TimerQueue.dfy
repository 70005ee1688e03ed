/**
 The timer queue as a value: a list of deadlines that is kept sorted, aged at every wrap of the 32-bit
 counter, and followed by one hardware match register.
 */
module TimerQueue {
  import opened Bytes

  /** A pending timer: its target in counter ticks, and how many counter wraps lie before it. */
  datatype Entry<+T> = Entry(timer: T, target: nat, long: nat)

  /** `reg` is the match register, None while matching is switched off. */
  datatype Machine<+T> = Machine(queue: seq<Entry<T>>, wrap: nat, reg: Option<nat>)

  function Key<T>(e: Entry<T>): nat
  {
    e.long * TWO32 + e.target
  }

  predicate EntryOk<T>(e: Entry<T>)
  {
    e.target < TWO32 && e.long < TWO32
  }

  predicate Sorted<T>(q: seq<Entry<T>>)
  {
    forall i, j | 0 <= i < j < |q| :: Key(q[i]) <= Key(q[j])
  }

  predicate Distinct<T(==)>(q: seq<Entry<T>>)
  {
    forall i, j | 0 <= i < j < |q| :: q[i].timer != q[j].timer
  }

  predicate Pending<T(==)>(q: seq<Entry<T>>, t: T)
  {
    exists i | 0 <= i < |q| :: q[i].timer == t
  }

  /** The register follows the head as soon as the head is due in the current epoch. */
  predicate Armed<T>(m: Machine<T>)
  {
    m.queue != [] && m.queue[0].long == 0 ==> m.reg == Some(m.queue[0].target)
  }

  predicate Inv<T(==)>(m: Machine<T>)
  {
    && (forall i | 0 <= i < |m.queue| :: EntryOk(m.queue[i]))
    && Sorted(m.queue) && Distinct(m.queue) && Armed(m) && m.wrap < TWO32
  }

  // ---------- insertion ----------

  /** Behind everything that is due no later, in front of the rest. */
  function Insert<T>(q: seq<Entry<T>>, e: Entry<T>): (r: seq<Entry<T>>)
    ensures |r| == |q| + 1
  {
    if q == [] || Key(e) < Key(q[0]) then [e] + q else [q[0]] + Insert(q[1..], e)
  }

  /** Insert splits the queue at `k` if everything before `k` is due no later and the entry at `k` is due later. */
  lemma {:induction false} InsertAt<T>(q: seq<Entry<T>>, e: Entry<T>, k: nat)
    requires k <= |q| && (forall i | 0 <= i < k :: Key(q[i]) <= Key(e)) && (k < |q| ==> Key(e) < Key(q[k]))
    ensures Insert(q, e) == q[..k] + [e] + q[k..]
  {
    if k > 0 {
      InsertAt(q[1..], e, k - 1);
      assert q[..k] == [q[0]] + q[1..][..k - 1];
    }
  }

  /** The place where Insert puts a new entry. */
  lemma {:induction false} InsertionPoint<T>(q: seq<Entry<T>>, e: Entry<T>) returns (k: nat)
    requires Sorted(q)
    ensures k <= |q| && Insert(q, e) == q[..k] + [e] + q[k..]
    ensures forall i | 0 <= i < k :: Key(q[i]) <= Key(e)
    ensures forall i | k <= i < |q| :: Key(e) < Key(q[i])
  {
    k := 0;
    while k < |q| && Key(q[k]) <= Key(e)
      invariant k <= |q| && forall i | 0 <= i < k :: Key(q[i]) <= Key(e)
    {
      k := k + 1;
    }
    InsertAt(q, e, k);
  }

  /** `a` is queued in front of `b`. */
  predicate Before<T(==)>(q: seq<Entry<T>>, a: T, b: T)
  {
    exists i, j | 0 <= i < j < |q| :: q[i].timer == a && q[j].timer == b
  }

  /**
   Insertion keeps the order and every precedence there is, and puts the new entry behind all that are due no later,
   so those due at the same tick stand in the order in which they were set.
   */
  lemma InsertKeeps<T>(q: seq<Entry<T>>, e: Entry<T>)
    requires Sorted(q) && Distinct(q) && !Pending(q, e.timer)
    ensures Sorted(Insert(q, e)) && Distinct(Insert(q, e))
    ensures forall i | 0 <= i < |q| && Key(q[i]) <= Key(e) :: Before(Insert(q, e), q[i].timer, e.timer)
    ensures forall i | 0 <= i < |q| && Key(e) < Key(q[i]) :: Before(Insert(q, e), e.timer, q[i].timer)
    ensures forall a, b :: Before(q, a, b) ==> Before(Insert(q, e), a, b)
  {
    hide Key, Insert, Sorted, Distinct, Before;
    var k := InsertionPoint(q, e);
    InsertedAt(q, e, k);
    PlacedAt(q, e, k, Insert(q, e));
  }

  /** An entry placed at `k` has those before `k` in front of it and the others behind it. */
  lemma PlacedAt<T>(q: seq<Entry<T>>, e: Entry<T>, k: nat, r: seq<Entry<T>>)
    requires |r| == |q| + 1 && k <= |q| && r[k] == e && forall i | 0 <= i < |q| :: r[if i < k then i else i + 1] == q[i]
    ensures forall i | 0 <= i < k :: Before(r, q[i].timer, e.timer)
    ensures forall i | k <= i < |q| :: Before(r, e.timer, q[i].timer)
    ensures forall a, b :: Before(q, a, b) ==> Before(r, a, b)
  {
    forall i | 0 <= i < k ensures Before(r, q[i].timer, e.timer) {
      assert r[i].timer == q[i].timer && r[k].timer == e.timer;
    }
    forall i | k <= i < |q| ensures Before(r, e.timer, q[i].timer) {
      assert r[k].timer == e.timer && r[i + 1].timer == q[i].timer;
    }
    forall a, b | Before(q, a, b) ensures Before(r, a, b) {
      var i, j :| 0 <= i < j < |q| && q[i].timer == a && q[j].timer == b;
      assert r[if i < k then i else i + 1].timer == a && r[if j < k then j else j + 1].timer == b;
    }
  }

  /** The same for an entry placed at `k`. */
  lemma InsertedAt<T>(q: seq<Entry<T>>, e: Entry<T>, k: nat)
    requires Sorted(q) && Distinct(q) && !Pending(q, e.timer) && k <= |q|
    requires (forall i | 0 <= i < k :: Key(q[i]) <= Key(e)) && forall i | k <= i < |q| :: Key(e) < Key(q[i])
    ensures var r := q[..k] + [e] + q[k..];
            && Sorted(r) && Distinct(r) && r[k] == e
            && forall i | 0 <= i < |q| :: r[if i < k then i else i + 1] == q[i]
  {
    var r := q[..k] + [e] + q[k..];
    forall i, j | 0 <= i < j < |r| ensures Key(r[i]) <= Key(r[j]) && r[i].timer != r[j].timer {
      if i < k { assert r[i] == q[i]; }
      if j < k { assert r[j] == q[j]; }
      if i > k { assert r[i] == q[i - 1]; }
      if j > k { assert r[j] == q[j - 1]; }
    }
  }

  // ---------- removal ----------

  function Without<T(==)>(q: seq<Entry<T>>, t: T): (r: seq<Entry<T>>)
    ensures |r| <= |q|
  {
    if q == [] then [] else if q[0].timer == t then q[1..] else [q[0]] + Without(q[1..], t)
  }

  lemma {:induction false} WithoutAt<T>(q: seq<Entry<T>>, t: T, k: nat)
    requires k < |q| && q[k].timer == t && forall i | 0 <= i < k :: q[i].timer != t
    ensures Without(q, t) == q[..k] + q[k + 1..]
  {
    if k > 0 {
      WithoutAt(q[1..], t, k - 1);
      assert q[..k] == [q[0]] + q[1..][..k - 1];
    }
  }

  lemma {:induction false} WithoutIdle<T>(q: seq<Entry<T>>, t: T)
    requires !Pending(q, t)
    ensures Without(q, t) == q
  {
    if q != [] {
      assert q[0].timer != t;
      forall i | 0 <= i < |q| - 1 ensures q[1..][i].timer != t { assert q[i + 1].timer != t; }
      WithoutIdle(q[1..], t);
    }
  }

  /** Removal takes out one entry and leaves the others as and where they were. */
  lemma WithoutSplits<T>(q: seq<Entry<T>>, t: T) returns (k: nat)
    requires Pending(q, t)
    ensures k < |q| && q[k].timer == t && Without(q, t) == q[..k] + q[k + 1..]
  {
    k := 0;
    var hit :| 0 <= hit < |q| && q[hit].timer == t;
    while q[k].timer != t
      invariant k <= hit && forall i | 0 <= i < k :: q[i].timer != t
      decreases hit - k
    {
      k := k + 1;
    }
    WithoutAt(q, t, k);
  }

  lemma WithoutKeeps<T>(q: seq<Entry<T>>, t: T)
    requires Sorted(q) && Distinct(q)
    ensures Sorted(Without(q, t)) && Distinct(Without(q, t)) && !Pending(Without(q, t), t)
    ensures forall i | 0 <= i < |Without(q, t)| :: Without(q, t)[i] in q
    ensures forall e | e in q && e.timer != t :: e in Without(q, t)
    ensures forall a, b | a != t && b != t && Before(q, a, b) :: Before(Without(q, t), a, b)
  {
    if Pending(q, t) {
      var k := WithoutSplits(q, t);
      CutKeeps(q, k);
      CutKeepsBefore(q, k);
    } else {
      WithoutIdle(q, t);
    }
  }

  lemma CutKeeps<T>(q: seq<Entry<T>>, k: nat)
    requires Sorted(q) && Distinct(q) && k < |q|
    ensures var r := q[..k] + q[k + 1..];
            && Sorted(r) && Distinct(r) && !Pending(r, q[k].timer)
            && (forall i | 0 <= i < |r| :: r[i] in q) && (forall e | e in q && e.timer != q[k].timer :: e in r)
  {
    var r := q[..k] + q[k + 1..];
    forall i | 0 <= i < |r| ensures r[i] == q[if i < k then i else i + 1] {}
    forall e | e in q && e.timer != q[k].timer ensures e in r {
      var i :| 0 <= i < |q| && q[i] == e;
      assert r[if i < k then i else i - 1] == e;
    }
  }

  lemma CutKeepsBefore<T>(q: seq<Entry<T>>, k: nat)
    requires k < |q|
    ensures var r := q[..k] + q[k + 1..];
            forall a, b | a != q[k].timer && b != q[k].timer && Before(q, a, b) :: Before(r, a, b)
  {
    var r := q[..k] + q[k + 1..];
    forall a, b | a != q[k].timer && b != q[k].timer && Before(q, a, b) ensures Before(r, a, b) {
      var i, j :| 0 <= i < j < |q| && q[i].timer == a && q[j].timer == b;
      assert r[if i < k then i else i - 1].timer == a && r[if j < k then j else j - 1].timer == b;
    }
  }

  // ---------- the operations ----------

  /** _add_timer_to_list: a new head that is due in this epoch goes into the match register. */
  function AddStep<T(==)>(m: Machine<T>, e: Entry<T>): Machine<T>
  {
    var q := Insert(m.queue, e);
    m.(queue := q, reg := if q[0].timer == e.timer && e.long == 0 then Some(e.target) else m.reg)
  }

  /** _remove: if the head goes, the register takes the target of the next one, whatever its epoch. */
  function RemoveStep<T(==)>(m: Machine<T>, t: T): Machine<T>
  {
    var q := Without(m.queue, t);
    if m.queue != [] && m.queue[0].timer == t then
      m.(queue := q, reg := if q == [] then m.reg else Some(q[0].target))
    else m.(queue := q)
  }

  /** xtimer_remove: a zero target word is taken for "not pending". */
  function XtimerRemoveStep<T(==)>(m: Machine<T>, t: T, target: nat): Machine<T>
  {
    if target == 0 then m else RemoveStep(m, t)
  }

  function Aged<T>(q: seq<Entry<T>>): (r: seq<Entry<T>>)
    requires forall i | 0 <= i < |q| :: q[i].long > 0
    ensures |r| == |q| && forall i | 0 <= i < |q| :: r[i] == q[i].(long := q[i].long - 1)
  {
    seq(|q|, i requires 0 <= i < |q| => q[i].(long := q[i].long - 1))
  }

  /** How many timers a wrap fires; `clock(i)` is what the counter reads at the i-th node. */
  function Expired<T>(q: seq<Entry<T>>, clock: nat -> nat, i: nat): (k: nat)
    ensures k <= |q|
  {
    if q != [] && q[0].long == 1 && clock(i) > q[0].target then 1 + Expired(q[1..], clock, i + 1) else 0
  }

  /** _timer_wrap. */
  function WrapStep<T>(m: Machine<T>, clock: nat -> nat): Machine<T>
    requires forall i | 0 <= i < |m.queue| :: m.queue[i].long > 0
  {
    var q := Aged(m.queue[Expired(m.queue, clock, 0)..]);
    Machine(q, (m.wrap + 1) % TWO32, if q != [] && q[0].long == 0 then Some(q[0].target) else m.reg)
  }

  /** The match interrupt, when its handler fires `k` timers: matching is off unless the handler re-arms it. */
  function MatchStep<T>(m: Machine<T>, k: nat): Machine<T>
    requires k <= |m.queue|
  {
    var q := m.queue[k..];
    m.(queue := q, reg := if q != [] && q[0].long == 0 then Some(q[0].target) else None)
  }

  // ---------- what every operation keeps ----------

  lemma AddKeepsInv<T>(m: Machine<T>, e: Entry<T>)
    requires Inv(m) && EntryOk(e) && !Pending(m.queue, e.timer)
    ensures Inv(AddStep(m, e))
  {
    InsertKeeps(m.queue, e);
    var k := InsertionPoint(m.queue, e);
    var r := Insert(m.queue, e);
    forall i | 0 <= i < |r| ensures EntryOk(r[i]) {
      if i < k { assert r[i] == m.queue[i]; }
      if i > k { assert r[i] == m.queue[i - 1]; }
    }
    if k > 0 { assert r[0] == m.queue[0]; }
  }

  lemma RemoveKeepsInv<T>(m: Machine<T>, t: T)
    requires Inv(m)
    ensures Inv(RemoveStep(m, t)) && !Pending(RemoveStep(m, t).queue, t)
  {
    WithoutKeeps(m.queue, t);
    if m.queue != [] && m.queue[0].timer != t {
      assert Without(m.queue, t)[0] == m.queue[0];
    }
  }

  lemma WrapKeepsInv<T>(m: Machine<T>, clock: nat -> nat)
    requires Inv(m) && forall i | 0 <= i < |m.queue| :: m.queue[i].long > 0
    ensures Inv(WrapStep(m, clock))
  {
    var k := Expired(m.queue, clock, 0);
    var q := WrapStep(m, clock).queue;
    forall i | 0 <= i < |q| ensures q[i] == m.queue[k + i].(long := m.queue[k + i].long - 1) {}
  }

  lemma MatchKeepsInv<T>(m: Machine<T>, k: nat)
    requires Inv(m) && k <= |m.queue|
    ensures Inv(MatchStep(m, k))
  {
  }

  // ---------- the match register ----------

  /** Setting a timer arms the register exactly if it becomes the head and is due in this epoch. */
  lemma AddArms<T>(m: Machine<T>, e: Entry<T>)
    requires Inv(m) && EntryOk(e) && !Pending(m.queue, e.timer)
    ensures AddStep(m, e).wrap == m.wrap && |AddStep(m, e).queue| == |m.queue| + 1
    ensures AddStep(m, e).reg ==
            if e.long == 0 && (m.queue == [] || m.queue[0].long > 0 || e.target < m.queue[0].target)
            then Some(e.target) else m.reg
  {
    var k := InsertionPoint(m.queue, e);
    assert Insert(m.queue, e)[0] == if k == 0 then e else m.queue[0];
  }

  /** Removing the head arms it for the next timer, whatever its epoch; any other removal leaves it alone. */
  lemma RemoveArms<T>(m: Machine<T>, t: T)
    requires Inv(m)
    ensures RemoveStep(m, t).wrap == m.wrap
    ensures RemoveStep(m, t).reg ==
            if |m.queue| >= 2 && m.queue[0].timer == t then Some(m.queue[1].target) else m.reg
    ensures m.queue != [] && m.queue[0].timer == t ==> RemoveStep(m, t).queue == m.queue[1..]
    ensures !Pending(m.queue, t) ==> RemoveStep(m, t).queue == m.queue
  {
    if !Pending(m.queue, t) { WithoutIdle(m.queue, t); }
    if m.queue != [] && m.queue[0].timer == t { assert Pending(m.queue, t); }
  }

  /** A wrap arms it for the first timer that is left, if that is due in the new epoch. */
  lemma WrapArms<T>(m: Machine<T>, clock: nat -> nat)
    requires forall i | 0 <= i < |m.queue| :: m.queue[i].long > 0
    ensures var k, r := Expired(m.queue, clock, 0), WrapStep(m, clock);
            && |r.queue| == |m.queue| - k && r.wrap == (m.wrap + 1) % 0x1_0000_0000
            && (forall i | 0 <= i < |r.queue| ::
                  r.queue[i] == Entry(m.queue[k + i].timer, m.queue[k + i].target, m.queue[k + i].long - 1))
            && r.reg == if k < |m.queue| && m.queue[k].long == 1 then Some(m.queue[k].target) else m.reg
  {
  }

  /** The match handler leaves it armed for a head that is due in this epoch, and switched off otherwise. */
  lemma MatchArms<T>(m: Machine<T>, k: nat)
    requires k <= |m.queue|
    ensures var r := MatchStep(m, k);
            && r.queue == m.queue[k..] && r.wrap == m.wrap
            && r.reg == if k < |m.queue| && m.queue[k].long == 0 then Some(m.queue[k].target) else None
  {
  }

  // ---------- deadlines ----------

  /** The deadline in ticks since the counter was started, modulo 2^64. */
  function Deadline<T>(wrap: nat, e: Entry<T>): nat
  {
    (wrap + e.long) % TWO32 * TWO32 + e.target
  }

  /** The timers fired at a wrap are a prefix, each found past its target in the epoch that has begun. */
  lemma {:induction false} ExpiredArePast<T>(q: seq<Entry<T>>, clock: nat -> nat, i: nat)
    ensures var k := Expired(q, clock, i);
            && (forall j | 0 <= j < k :: q[j].long == 1 && clock(i + j) > q[j].target)
            && (k < |q| ==> !(q[k].long == 1 && clock(i + k) > q[k].target))
  {
    if Expired(q, clock, i) > 0 {
      ExpiredArePast(q[1..], clock, i + 1);
      var k := Expired(q, clock, i);
      forall j | 0 <= j < k ensures q[j].long == 1 && clock(i + j) > q[j].target {
        if j > 0 { assert q[j] == q[1..][j - 1]; }
      }
    }
  }

  /** A wrap moves the epoch and every remaining timer together: no deadline changes. */
  lemma WrapKeepsDeadlines<T>(m: Machine<T>, clock: nat -> nat, i: nat)
    requires forall i | 0 <= i < |m.queue| :: m.queue[i].long > 0
    requires i < |WrapStep(m, clock).queue|
    ensures var k, e := Expired(m.queue, clock, 0), WrapStep(m, clock).queue[i];
            && e.timer == m.queue[k + i].timer
            && Deadline(WrapStep(m, clock).wrap, e) == Deadline(m.wrap, m.queue[k + i])
  {
    var e := m.queue[Expired(m.queue, clock, 0) + i];
    WrapAround(m.wrap, e.long);
  }

  lemma WrapAround(w: nat, l: nat)
    requires l > 0
    ensures ((w + 1) % TWO32 + (l - 1)) % TWO32 == (w + l) % TWO32
  {
  }

  // ---------- whole runs ----------

  /**
   Setting a timer is `Cancel`, if it is pending, and then `Add`. A match interrupt fires as many timers as there are
   readings of the counter in `nows`.
   */
  datatype Event<T> = Add(e: Entry<T>) | Cancel(t: T) | Wrapped(clock: nat -> nat) | Matched(nows: seq<nat>)

  ghost predicate Enabled<T>(m: Machine<T>, ev: Event<T>)
  {
    match ev
    case Add(e) => EntryOk(e) && !Pending(m.queue, e.timer)
    case Cancel(_) => true
    case Wrapped(_) => forall i | 0 <= i < |m.queue| :: m.queue[i].long > 0
    case Matched(nows) =>
      && |nows| <= |m.queue|
      && forall j | 0 <= j < |nows| :: m.queue[j].long == 0 && m.queue[j].target <= nows[j]
  }

  ghost function Step<T>(m: Machine<T>, ev: Event<T>): Machine<T>
    requires Enabled(m, ev)
  {
    match ev
    case Add(e) => AddStep(m, e)
    case Cancel(t) => RemoveStep(m, t)
    case Wrapped(clock) => WrapStep(m, clock)
    case Matched(nows) => MatchStep(m, |nows|)
  }

  ghost predicate Possible<T>(m: Machine<T>, evs: seq<Event<T>>)
    decreases |evs|
  {
    evs == [] || (Enabled(m, evs[0]) && Possible(Step(m, evs[0]), evs[1..]))
  }

  ghost function Run<T>(m: Machine<T>, evs: seq<Event<T>>): Machine<T>
    requires Possible(m, evs)
    decreases |evs|
  {
    if evs == [] then m else Run(Step(m, evs[0]), evs[1..])
  }

  lemma StepKeepsInv<T>(m: Machine<T>, ev: Event<T>)
    requires Inv(m) && Enabled(m, ev)
    ensures Inv(Step(m, ev))
  {
    match ev
    case Add(e) => AddKeepsInv(m, e);
    case Cancel(t) => RemoveKeepsInv(m, t);
    case Wrapped(clock) => WrapKeepsInv(m, clock);
    case Matched(nows) => MatchKeepsInv(m, |nows|);
  }

  /** In every reachable state the queue is sorted and free of duplicates, and the register follows its head. */
  lemma {:induction false} RunKeepsInv<T>(m: Machine<T>, evs: seq<Event<T>>)
    requires Inv(m) && Possible(m, evs)
    ensures Inv(Run(m, evs))
    decreases |evs|
  {
    if evs != [] {
      StepKeepsInv(m, evs[0]);
      RunKeepsInv(Step(m, evs[0]), evs[1..]);
    }
  }

  /** `e` is how `t` is queued, and `at` is when it is due. */
  ghost predicate DueAt<T>(m: Machine<T>, t: T, at: nat)
  {
    exists i | 0 <= i < |m.queue| :: m.queue[i].timer == t && Deadline(m.wrap, m.queue[i]) == at
  }

  lemma AddKeepsDeadline<T>(m: Machine<T>, e: Entry<T>, t: T, at: nat)
    requires Sorted(m.queue) && e.timer != t && DueAt(AddStep(m, e), t, at)
    ensures DueAt(m, t, at)
  {
    hide Key, Deadline, Sorted, Insert;
    var q := Insert(m.queue, e);
    var i :| 0 <= i < |q| && q[i].timer == t && Deadline(m.wrap, q[i]) == at;
    var k := InsertionPoint(m.queue, e);
    assert q[i] == m.queue[if i < k then i else i - 1];
  }

  lemma RemoveKeepsDeadline<T>(m: Machine<T>, c: T, t: T, at: nat)
    requires Inv(m) && DueAt(RemoveStep(m, c), t, at)
    ensures DueAt(m, t, at)
  {
    var q := Without(m.queue, c);
    var i :| 0 <= i < |q| && q[i].timer == t && Deadline(m.wrap, q[i]) == at;
    WithoutKeeps(m.queue, c);
    assert q[i] in m.queue;
  }

  lemma WrapKeepsDueAt<T>(m: Machine<T>, clock: nat -> nat, t: T, at: nat)
    requires (forall i | 0 <= i < |m.queue| :: m.queue[i].long > 0) && DueAt(WrapStep(m, clock), t, at)
    ensures DueAt(m, t, at)
  {
    var m' := WrapStep(m, clock);
    var i :| 0 <= i < |m'.queue| && m'.queue[i].timer == t && Deadline(m'.wrap, m'.queue[i]) == at;
    WrapKeepsDeadlines(m, clock, i);
    assert Deadline(m.wrap, m.queue[Expired(m.queue, clock, 0) + i]) == at;
  }

  lemma MatchKeepsDueAt<T>(m: Machine<T>, k: nat, t: T, at: nat)
    requires k <= |m.queue| && DueAt(MatchStep(m, k), t, at)
    ensures DueAt(m, t, at)
  {
    var q := m.queue[k..];
    var i :| 0 <= i < |q| && q[i].timer == t && Deadline(m.wrap, q[i]) == at;
    assert q[i] == m.queue[k + i];
  }

  /** Whatever is pending after a step that did not set it was pending before, with the same deadline. */
  lemma StepKeepsDeadline<T>(m: Machine<T>, ev: Event<T>, t: T, at: nat)
    requires Inv(m) && Enabled(m, ev) && (ev.Add? ==> ev.e.timer != t) && DueAt(Step(m, ev), t, at)
    ensures DueAt(m, t, at)
  {
    hide AddStep, RemoveStep, WrapStep, MatchStep, DueAt;
    match ev
    case Add(e) => AddKeepsDeadline(m, e, t, at);
    case Cancel(c) => RemoveKeepsDeadline(m, c, t, at);
    case Wrapped(clock) => WrapKeepsDueAt(m, clock, t, at);
    case Matched(nows) => MatchKeepsDueAt(m, |nows|, t, at);
  }

  /** Over a whole run in which `t` is not set again: if it is still pending, it is due when it always was. */
  lemma {:induction false} RunKeepsDeadline<T>(m: Machine<T>, evs: seq<Event<T>>, t: T, at: nat)
    requires Inv(m) && Possible(m, evs) && DueAt(Run(m, evs), t, at)
    requires forall i | 0 <= i < |evs| :: evs[i].Add? ==> evs[i].e.timer != t
    ensures DueAt(m, t, at)
    decreases |evs|
  {
    if evs != [] {
      StepKeepsInv(m, evs[0]);
      RunKeepsDeadline(Step(m, evs[0]), evs[1..], t, at);
      StepKeepsDeadline(m, evs[0], t, at);
    }
  }

  lemma {:induction false} RunConcat<T>(m: Machine<T>, a: seq<Event<T>>, b: seq<Event<T>>)
    requires Possible(m, a + b)
    ensures Possible(m, a) && Possible(Run(m, a), b) && Run(m, a + b) == Run(Run(m, a), b)
    decreases |a|
  {
    if a == [] {
      assert a + b == b;
    } else {
      assert (a + b)[1..] == a[1..] + b;
      RunConcat(Step(m, a[0]), a[1..], b);
    }
  }

  // ---------- ties ----------

  lemma SuffixKeepsBefore<T>(q: seq<Entry<T>>, r: seq<Entry<T>>, k: nat, a: T, b: T)
    requires Distinct(q) && k + |r| == |q| && forall i | 0 <= i < |r| :: r[i].timer == q[k + i].timer
    requires Before(q, a, b) && Pending(r, a)
    ensures Before(r, a, b)
  {
    var i, j :| 0 <= i < j < |q| && q[i].timer == a && q[j].timer == b;
    var x :| 0 <= x < |r| && r[x].timer == a;
    assert q[k + x].timer == a;
    assert r[i - k].timer == a && r[j - k].timer == b;
  }

  lemma WrapSuffix<T>(m: Machine<T>, clock: nat -> nat)
    requires forall i | 0 <= i < |m.queue| :: m.queue[i].long > 0
    ensures var k, r := Expired(m.queue, clock, 0), WrapStep(m, clock).queue;
            k + |r| == |m.queue| && forall i | 0 <= i < |r| :: r[i].timer == m.queue[k + i].timer
  {
    hide Expired;
  }

  lemma StepKeepsBefore<T>(m: Machine<T>, ev: Event<T>, a: T, b: T)
    requires Inv(m) && Enabled(m, ev) && (ev.Add? ==> ev.e.timer != a && ev.e.timer != b) && Before(m.queue, a, b)
    requires Pending(Step(m, ev).queue, a) && Pending(Step(m, ev).queue, b)
    ensures Before(Step(m, ev).queue, a, b)
  {
    hide Before, Key, Insert, Without, Sorted, Distinct, EntryOk, Armed, WrapStep, Pending;
    match ev
    case Add(e) => InsertKeeps(m.queue, e);
    case Cancel(c) =>
      WithoutKeeps(m.queue, c);
      assert c != a && c != b;
    case Wrapped(clock) =>
      WrapSuffix(m, clock);
      SuffixKeepsBefore(m.queue, WrapStep(m, clock).queue, Expired(m.queue, clock, 0), a, b);
    case Matched(nows) => SuffixKeepsBefore(m.queue, m.queue[|nows|..], |nows|, a, b);
  }

  lemma {:induction false} RunKeepsBefore<T>(m: Machine<T>, evs: seq<Event<T>>, a: T, b: T)
    requires Inv(m) && Possible(m, evs) && Before(m.queue, a, b)
    requires forall i | 0 <= i < |evs| :: evs[i].Add? ==> evs[i].e.timer != a && evs[i].e.timer != b
    requires Pending(Run(m, evs).queue, a) && Pending(Run(m, evs).queue, b)
    ensures Before(Run(m, evs).queue, a, b)
    decreases |evs|
  {
    if evs != [] {
      var next := Step(m, evs[0]);
      StepKeepsInv(m, evs[0]);
      StillPending(next, evs[1..], a);
      StillPending(next, evs[1..], b);
      StepKeepsBefore(m, evs[0], a, b);
      RunKeepsBefore(next, evs[1..], a, b);
    }
  }

  /** What is pending after a run in which it was not set was pending before. */
  lemma StillPending<T>(m: Machine<T>, evs: seq<Event<T>>, t: T)
    requires Inv(m) && Possible(m, evs) && Pending(Run(m, evs).queue, t)
    requires forall i | 0 <= i < |evs| :: evs[i].Add? ==> evs[i].e.timer != t
    ensures Pending(m.queue, t)
  {
    var end := Run(m, evs);
    var i :| 0 <= i < |end.queue| && end.queue[i].timer == t;
    RunKeepsDeadline(m, evs, t, Deadline(end.wrap, end.queue[i]));
  }

  lemma SameDeadlineSameKey<T>(wrap: nat, a: Entry<T>, b: Entry<T>)
    requires EntryOk(a) && EntryOk(b) && Deadline(wrap, a) == Deadline(wrap, b)
    ensures Key(a) == Key(b)
  {
    var x, y := (wrap + a.long) % TWO32, (wrap + b.long) % TWO32;
    assert x == y && a.target == b.target;
    assert wrap + a.long == (wrap + a.long) / TWO32 * TWO32 + x && wrap + b.long == (wrap + b.long) / TWO32 * TWO32 + y;
  }

  /**
   Ties stand in setting order, over every run: if `e` is set after `a` was last set, and later both are pending with
   the same 64-bit deadline, then `a` is in front.
   */
  lemma TiesInSettingOrder<T>(m: Machine<T>, before: seq<Event<T>>, e: Entry<T>, after: seq<Event<T>>, a: T, at: nat)
    requires Inv(m) && a != e.timer && Possible(m, before + ([Add(e)] + after))
    requires forall i | 0 <= i < |after| :: after[i].Add? ==> after[i].e.timer != a && after[i].e.timer != e.timer
    requires var end := Run(m, before + ([Add(e)] + after)); DueAt(end, a, at) && DueAt(end, e.timer, at)
    ensures Before(Run(m, before + ([Add(e)] + after)).queue, a, e.timer)
  {
    hide Deadline, Key, EntryOk;
    RunConcat(m, before, [Add(e)] + after);
    var mid := Run(m, before);
    RunKeepsInv(m, before);
    assert ([Add(e)] + after)[0] == Add(e) && ([Add(e)] + after)[1..] == after;
    var next := Step(mid, Add(e));
    StepKeepsInv(mid, Add(e));
    RunKeepsDeadline(next, after, a, at);
    RunKeepsDeadline(next, after, e.timer, at);
    TieBehind(mid, e, a, at);
    RunKeepsBefore(next, after, a, e.timer);
  }

  lemma OnlyOnce<T>(q: seq<Entry<T>>, j: nat, k: nat)
    requires Distinct(q) && j < |q| && k < |q| && q[j].timer == q[k].timer
    ensures j == k
  {
  }

  lemma TieBehind<T>(m: Machine<T>, e: Entry<T>, a: T, at: nat)
    requires Inv(m) && Enabled(m, Add(e)) && a != e.timer
    requires DueAt(AddStep(m, e), a, at) && DueAt(AddStep(m, e), e.timer, at)
    ensures Before(AddStep(m, e).queue, a, e.timer)
  {
    hide Key, Deadline, Insert, Sorted, Distinct, Before;
    AddKeepsDeadline(m, e, a, at);
    InsertKeeps(m.queue, e);
    var i :| 0 <= i < |m.queue| && m.queue[i].timer == a && Deadline(m.wrap, m.queue[i]) == at;
    var q := Insert(m.queue, e);
    var k := InsertionPoint(m.queue, e);
    var j :| 0 <= j < |q| && q[j].timer == e.timer && Deadline(m.wrap, q[j]) == at;
    OnlyOnce(q, j, k);
    SameDeadlineSameKey(m.wrap, m.queue[i], e);
  }

  // ---------- leaving the queue ----------

  /** `ev` fires `t`, at a reading of the counter that is not before `at`. */
  ghost predicate FiresDue<T>(m: Machine<T>, ev: Event<T>, t: T, at: nat)
  {
    match ev
    case Wrapped(clock) =>
      exists j | 0 <= j < Expired(m.queue, clock, 0) ::
        m.queue[j].timer == t && at <= (m.wrap + 1) % TWO32 * TWO32 + clock(j)
    case Matched(nows) =>
      |nows| <= |m.queue| && exists j | 0 <= j < |nows| :: m.queue[j].timer == t && at <= m.wrap * TWO32 + nows[j]
    case _ => false
  }

  /** A pending timer that a step does not set stays as it is, or is cancelled, or is fired when it is due. */
  lemma StepLeavesOnlyDue<T>(m: Machine<T>, ev: Event<T>, t: T, at: nat)
    requires Inv(m) && Enabled(m, ev) && (ev.Add? ==> ev.e.timer != t) && DueAt(m, t, at)
    ensures DueAt(Step(m, ev), t, at) || ev == Cancel(t) || FiresDue(m, ev, t, at)
  {
    hide Key, Deadline, Insert, Without, Sorted, Distinct, WrapStep, Expired;
    var i :| 0 <= i < |m.queue| && m.queue[i].timer == t && Deadline(m.wrap, m.queue[i]) == at;
    match ev
    case Add(e) =>
      var k := InsertionPoint(m.queue, e);
      assert Insert(m.queue, e)[if i < k then i else i + 1] == m.queue[i];
    case Cancel(c) =>
      WithoutKeeps(m.queue, c);
      if c != t { assert m.queue[i] in Without(m.queue, c); }
    case Wrapped(clock) => WrapLeavesOnlyDue(m, clock, t, at, i);
    case Matched(nows) =>
      if i < |nows| {
        ThisEpoch(m.wrap, m.queue[i], nows[i]);
        assert m.queue[i].timer == t && at <= m.wrap * TWO32 + nows[i];
      } else {
        assert m.queue[|nows|..][i - |nows|] == m.queue[i];
      }
  }

  lemma WrapLeavesOnlyDue<T>(m: Machine<T>, clock: nat -> nat, t: T, at: nat, i: nat)
    requires Inv(m) && Enabled(m, Wrapped(clock)) && i < |m.queue|
    requires m.queue[i].timer == t && Deadline(m.wrap, m.queue[i]) == at
    ensures DueAt(WrapStep(m, clock), t, at) || FiresDue(m, Wrapped(clock), t, at)
  {
    hide Key, Expired, Deadline, WrapStep;
    var k := Expired(m.queue, clock, 0);
    ExpiredArePast(m.queue, clock, 0);
    if i < k {
      assert m.queue[i].long == 1 && clock(0 + i) > m.queue[i].target;
      NextEpoch(m.wrap, m.queue[i], clock(i));
      assert m.queue[i].timer == t && at <= (m.wrap + 1) % TWO32 * TWO32 + clock(i);
    } else {
      WrapSuffix(m, clock);
      WrapKeepsDeadlines(m, clock, i - k);
      assert WrapStep(m, clock).queue[i - k].timer == t;
    }
  }

  lemma NextEpoch<T>(wrap: nat, e: Entry<T>, now: nat)
    requires e.long == 1 && e.target < now
    ensures Deadline(wrap, e) <= (wrap + 1) % TWO32 * TWO32 + now
  {
  }

  lemma ThisEpoch<T>(wrap: nat, e: Entry<T>, now: nat)
    requires e.long == 0 && e.target <= now && wrap < TWO32
    ensures Deadline(wrap, e) <= wrap * TWO32 + now
  {
  }

  lemma DueIsPending<T>(m: Machine<T>, t: T, at: nat)
    requires DueAt(m, t, at)
    ensures Pending(m.queue, t)
  {
  }

  lemma StepFirst<T>(m: Machine<T>, evs: seq<Event<T>>, i: nat)
    requires i + 1 < |evs| && Enabled(m, evs[0]) && Possible(Step(m, evs[0]), evs[1..][..i])
    ensures Possible(m, evs[..i + 1]) && Run(m, evs[..i + 1]) == Run(Step(m, evs[0]), evs[1..][..i])
    ensures evs[1..][i] == evs[i + 1]
  {
    hide Step, Enabled;
    assert evs[..i + 1][0] == evs[0] && evs[..i + 1][1..] == evs[1..][..i];
  }

  /**
   Over a whole run in which it is not set again, a pending timer stays pending until it is cancelled or fired, and it
   is fired at or after its 64-bit deadline.
   */
  lemma {:induction false} RunLeavesOnlyDue<T>(m: Machine<T>, evs: seq<Event<T>>, t: T, at: nat)
    requires Inv(m) && Possible(m, evs) && DueAt(m, t, at) && !Pending(Run(m, evs).queue, t)
    requires forall i | 0 <= i < |evs| :: evs[i].Add? ==> evs[i].e.timer != t
    ensures exists i | 0 <= i < |evs| ::
              Possible(m, evs[..i]) && DueAt(Run(m, evs[..i]), t, at)
              && (evs[i] == Cancel(t) || FiresDue(Run(m, evs[..i]), evs[i], t, at))
    decreases |evs|
  {
    assert evs != [] by { DueIsPending(m, t, at); }
    hide DueAt, FiresDue, Pending, Inv, Step, Enabled;
    var next := Step(m, evs[0]);
    StepLeavesOnlyDue(m, evs[0], t, at);
    if DueAt(next, t, at) {
      StepKeepsInv(m, evs[0]);
      RunLeavesOnlyDue(next, evs[1..], t, at);
      var i :| 0 <= i < |evs| - 1 && Possible(next, evs[1..][..i]) && DueAt(Run(next, evs[1..][..i]), t, at)
        && (evs[1..][i] == Cancel(t) || FiresDue(Run(next, evs[1..][..i]), evs[1..][i], t, at));
      StepFirst(m, evs, i);
    } else {
      assert evs[..0] == [] && Run(m, evs[..0]) == m;
    }
  }
}
