/**
 xtimer as the original keeps it: a singly linked list of caller-owned timers over a 32-bit counter, a
 wrap counter and one match register. Every operation is proved to be a step of the timer queue.

 What the counter reads is a parameter: `clock(i)` is the i-th reading that a handler takes.
 */
module XTimer {
  import opened Bytes
  import opened TimerQueue

  const BACKOFF: nat := 720
  const OVERHEAD: nat := 320

  class Timer {
    var next: Timer?
    var target: nat
    var long: nat
    var callback: bool

    constructor ()
      ensures target == 0 && long == 0 && next == null
    {
      next, target, long, callback := null, 0, 0, true;
    }
  }

  /** One call of a callback: which timer, and what the counter had read when it was decided. */
  datatype Shot = Shot(timer: Timer, entry: Entry<Timer>, now: nat)

  ghost function EntryOf(t: Timer): Entry<Timer>
    reads t`target, t`long
  {
    Entry(t, t.target, t.long)
  }

  ghost function EntriesOf(nodes: seq<Timer>): (r: seq<Entry<Timer>>)
    reads nodes`target, nodes`long
    ensures |r| == |nodes| && forall i | 0 <= i < |nodes| :: r[i] == EntryOf(nodes[i])
  {
    if nodes == [] then [] else EntriesOf(nodes[..|nodes| - 1]) + [EntryOf(nodes[|nodes| - 1])]
  }

  /** Each node once, each linked to the one behind it. */
  ghost predicate Chain(nodes: seq<Timer>)
    reads nodes`next
  {
    && (forall i {:trigger nodes[i].next} | 0 <= i < |nodes| ::
          nodes[i].next == if i + 1 < |nodes| then nodes[i + 1] else null)
    && (forall i, j | 0 <= i < j < |nodes| :: nodes[i] != nodes[j])
  }

  lemma NextOf(nodes: seq<Timer>, i: nat)
    requires Chain(nodes) && i < |nodes|
    ensures nodes[i].next == if i + 1 < |nodes| then nodes[i + 1] else null
  {
  }

  lemma ChainSuffix(nodes: seq<Timer>, k: nat)
    requires Chain(nodes) && k <= |nodes|
    ensures Chain(nodes[k..])
  {
    var r := nodes[k..];
    forall i | 0 <= i < |r| ensures r[i].next == if i + 1 < |r| then r[i + 1] else null {
      assert nodes[k + i].next == if k + i + 1 < |nodes| then nodes[k + i + 1] else null;
    }
  }

  lemma EntriesConcat(a: seq<Timer>, b: seq<Timer>)
    ensures EntriesOf(a + b) == EntriesOf(a) + EntriesOf(b)
  {
    hide EntriesOf, EntryOf;
    forall k | 0 <= k < |a + b| ensures EntriesOf(a + b)[k] == (EntriesOf(a) + EntriesOf(b))[k] {
      assert (a + b)[k] == if k < |a| then a[k] else b[k - |a|];
    }
  }

  lemma EntriesInserted(nodes: seq<Timer>, t: Timer, i: nat)
    requires i <= |nodes|
    ensures EntriesOf(nodes[..i] + [t] + nodes[i..]) == EntriesOf(nodes)[..i] + [EntryOf(t)] + EntriesOf(nodes)[i..]
  {
    hide EntriesOf, EntryOf;
    EntriesSlices(nodes, i);
    EntriesConcat(nodes[..i], [t]);
    EntriesConcat(nodes[..i] + [t], nodes[i..]);
    assert EntriesOf([t]) == [EntryOf(t)];
  }

  lemma EntriesSlices(nodes: seq<Timer>, i: nat)
    requires i <= |nodes|
    ensures EntriesOf(nodes[..i]) == EntriesOf(nodes)[..i] && EntriesOf(nodes[i..]) == EntriesOf(nodes)[i..]
  {
    hide EntriesOf, EntryOf;
    EntriesConcat(nodes[..i], nodes[i..]);
    assert nodes[..i] + nodes[i..] == nodes;
  }

  lemma EntriesRemoved(nodes: seq<Timer>, i: nat)
    requires i < |nodes|
    ensures EntriesOf(nodes[..i] + nodes[i + 1..]) == EntriesOf(nodes)[..i] + EntriesOf(nodes)[i + 1..]
  {
    hide EntriesOf, EntryOf;
    EntriesSlices(nodes, i);
    EntriesSlices(nodes, i + 1);
    EntriesConcat(nodes[..i], nodes[i + 1..]);
  }

  lemma NodesInserted(was: seq<Timer>, t: Timer, i: nat)
    requires i <= |was| && t !in was && forall j, k | 0 <= j < k < |was| :: was[j] != was[k]
    ensures var r := was[..i] + [t] + was[i..];
            && |r| == |was| + 1
            && (forall j | 0 <= j < |r| :: r[j] == if j < i then was[j] else if j == i then t else was[j - 1])
            && (forall j, k | 0 <= j < k < |r| :: r[j] != r[k])
  {
    var r := was[..i] + [t] + was[i..];
    forall j | 0 <= j < |r| ensures r[j] == if j < i then was[j] else if j == i then t else was[j - 1] {}
  }

  lemma NodesRemoved(was: seq<Timer>, i: nat)
    requires i < |was| && forall j, k | 0 <= j < k < |was| :: was[j] != was[k]
    ensures var r := was[..i] + was[i + 1..];
            && |r| == |was| - 1
            && (forall j | 0 <= j < |r| :: r[j] == if j < i then was[j] else was[j + 1])
            && (forall j, k | 0 <= j < k < |r| :: r[j] != r[k])
  {
    var r := was[..i] + was[i + 1..];
    forall j | 0 <= j < |r| ensures r[j] == if j < i then was[j] else was[j + 1] {}
  }

  lemma NotPending(nodes: seq<Timer>, t: Timer)
    ensures Pending(EntriesOf(nodes), t) <==> t in nodes
  {
    hide EntriesOf;
    if t in nodes {
      var i :| 0 <= i < |nodes| && nodes[i] == t;
      assert EntriesOf(nodes)[i].timer == t;
    }
  }

  /** Deadlines compare word by word. */
  lemma KeyOrder(a: Entry<Timer>, b: Entry<Timer>)
    requires EntryOk(a) && EntryOk(b)
    ensures a.long < b.long ==> Key(a) < Key(b)
    ensures a.long > b.long ==> Key(a) > Key(b)
    ensures a.long == b.long ==> (Key(a) <= Key(b) <==> a.target <= b.target)
  {
  }

  /** In a sorted queue the epochs ascend. */
  lemma EpochsAscend(q: seq<Entry<Timer>>, a: nat)
    requires Sorted(q) && a < |q| && forall i | 0 <= i < |q| :: EntryOk(q[i])
    ensures forall b | a <= b < |q| :: q[a].long <= q[b].long
  {
    forall b | a <= b < |q| ensures q[a].long <= q[b].long {
      if a < b { assert Key(q[a]) <= Key(q[b]) && EntryOk(q[a]) && EntryOk(q[b]); }
    }
  }

  // ---------- a list with a timer out of place ----------

  /** Where the two walks stop: behind the entries of earlier epochs in front, and those behind them due no later. */
  function Stop(q: seq<Entry<Timer>>, e: Entry<Timer>): (i: nat)
    ensures i <= |q|
  {
    NotLater(q, e, Earlier(q, e, 0))
  }

  function Earlier(q: seq<Entry<Timer>>, e: Entry<Timer>, i: nat): (r: nat)
    requires i <= |q|
    ensures i <= r <= |q|
    decreases |q| - i
  {
    if i == |q| || q[i].long >= e.long then i else Earlier(q, e, i + 1)
  }

  function NotLater(q: seq<Entry<Timer>>, e: Entry<Timer>, i: nat): (r: nat)
    requires i <= |q|
    ensures i <= r <= |q|
    decreases |q| - i
  {
    if i == |q| || !(q[i].target <= e.target && q[i].long <= e.long) then i else NotLater(q, e, i + 1)
  }

  /** The first walk passes what is of an earlier epoch and no more, the second what is due no later and no more. */
  lemma StopMeaning(q: seq<Entry<Timer>>, e: Entry<Timer>) returns (a: nat)
    ensures a <= Stop(q, e) <= |q|
    ensures (forall j | 0 <= j < a :: q[j].long < e.long) && (a < |q| ==> q[a].long >= e.long)
    ensures forall j | a <= j < Stop(q, e) :: q[j].target <= e.target && q[j].long <= e.long
    ensures Stop(q, e) < |q| ==> q[Stop(q, e)].target > e.target || q[Stop(q, e)].long > e.long
  {
    a := Earlier(q, e, 0);
    EarlierMeaning(q, e, 0);
    NotLaterMeaning(q, e, a);
  }

  lemma {:induction false} EarlierMeaning(q: seq<Entry<Timer>>, e: Entry<Timer>, i: nat)
    requires i <= |q|
    ensures var r := Earlier(q, e, i);
            (forall j | i <= j < r :: q[j].long < e.long) && (r < |q| ==> q[r].long >= e.long)
    decreases |q| - i
  {
    if i < |q| { EarlierMeaning(q, e, i + 1); }
  }

  lemma {:induction false} NotLaterMeaning(q: seq<Entry<Timer>>, e: Entry<Timer>, i: nat)
    requires i <= |q|
    ensures var r := NotLater(q, e, i);
            && (forall j | i <= j < r :: q[j].target <= e.target && q[j].long <= e.long)
            && (r < |q| ==> q[r].target > e.target || q[r].long > e.long)
    decreases |q| - i
  {
    if i < |q| { NotLaterMeaning(q, e, i + 1); }
  }

  /** Never at the timer itself, which is neither earlier nor later than it is. */
  lemma StopsElsewhere(q: seq<Entry<Timer>>, j: nat)
    requires j < |q|
    ensures Stop(q, q[j]) != j
  {
    NotLaterPasses(q, j, Earlier(q, q[j], 0));
  }

  lemma {:induction false} NotLaterPasses(q: seq<Entry<Timer>>, j: nat, i: nat)
    requires j < |q| && i <= |q|
    ensures NotLater(q, q[j], i) != j
    decreases |q| - i
  {
    if i < |q| && q[i].target <= q[j].target && q[i].long <= q[j].long { NotLaterPasses(q, j, i + 1); }
  }

  lemma EntryAt(nodes: seq<Timer>, i: nat)
    requires i < |nodes|
    ensures EntriesOf(nodes)[i] == EntryOf(nodes[i])
  {
  }

  /** `l` from its first node on, and then back to node `b`. */
  ghost predicate Circle(first: Timer?, l: seq<Timer>, b: nat)
    reads l
  {
    && b < |l| && first == l[0] && l[|l| - 1].next == l[b]
    && forall k | 0 <= k < |l| - 1 :: l[k].next == l[k + 1]
  }

  ghost function Nth(first: Timer?, n: nat): Timer?
    reads *
  {
    if n == 0 || first == null then first else Nth(first.next, n - 1)
  }

  /** Whoever follows it never comes to an end. */
  lemma CircleHasNoEnd(l: seq<Timer>, b: nat, k: nat, n: nat)
    requires l != [] && Circle(l[0], l, b) && k < |l|
    ensures Nth(l[k], n) != null
    decreases n
  {
    if n > 0 { CircleHasNoEnd(l, b, if k + 1 < |l| then k + 1 else b, n - 1); }
  }

  lemma ChainLinks(nodes: seq<Timer>)
    requires Chain(nodes)
    ensures forall k {:trigger nodes[k].next} | 0 <= k < |nodes| ::
              nodes[k].next == if k + 1 < |nodes| then nodes[k + 1] else null
    ensures forall a, b | 0 <= a < b < |nodes| :: nodes[a] != nodes[b]
  {
  }

  lemma OtherEntries(nodes: seq<Timer>, j: nat)
    requires j < |nodes| && Chain(nodes)
    ensures forall k | 0 <= k < |nodes| :: EntriesOf(nodes)[k] == EntryOf(nodes[k])
    ensures forall k | 0 <= k < |nodes| && k != j :: nodes[k] != nodes[j]
  {
  }

  lemma EntriesChanged(nodes: seq<Timer>, q: seq<Entry<Timer>>, j: nat, e: Entry<Timer>)
    requires j < |nodes| == |q| && EntryOf(nodes[j]) == e
    requires forall k | 0 <= k < |nodes| && k != j :: EntryOf(nodes[k]) == q[k]
    ensures EntriesOf(nodes) == q[j := e]
  {
    hide EntryOf;
  }

  /** What the two assignments at the end make of the list: node `j` is linked in once more in front of node `i`. */
  lemma LinkedTwice(first: Timer?, nodes: seq<Timer>, j: nat, i: nat)
    requires j < |nodes| && i <= |nodes| && i != j
    requires forall a, b | 0 <= a < b < |nodes| :: nodes[a] != nodes[b]
    requires first == if i == 0 then nodes[j] else nodes[0]
    requires forall k {:trigger nodes[k].next} | 0 <= k < |nodes| && k != j && k != i - 1 ::
               nodes[k].next == if k + 1 < |nodes| then nodes[k + 1] else null
    requires i != j + 1 ==> nodes[j].next == if i < |nodes| then nodes[i] else null
    requires i > 0 ==> nodes[i - 1].next == nodes[j]
    ensures i < j ==> Circle(first, nodes[..i] + [nodes[j]] + nodes[i..j], i)
    ensures i == j + 1 ==> Circle(first, nodes[..j + 1], j)
    ensures i > j + 1 ==> first == nodes[0] && Chain(nodes[..j + 1] + nodes[i..])
  {
    if i < j {
      var l := nodes[..i] + [nodes[j]] + nodes[i..j];
      forall k | 0 <= k < |l| ensures l[k] == if k < i then nodes[k] else if k == i then nodes[j] else nodes[k - 1] {}
      forall k | 0 <= k < |l| - 1 ensures l[k].next == l[k + 1] {
        if k < i { NextAt(nodes, j, i, k); } else if k > i { NextAt(nodes, j, i, k - 1); }
      }
      NextAt(nodes, j, i, j - 1);
    } else if i == j + 1 {
      forall k | 0 <= k < j ensures nodes[k].next == nodes[k + 1] { NextAt(nodes, j, i, k); }
    } else {
      var l := nodes[..j + 1] + nodes[i..];
      forall k | 0 <= k < |l| ensures l[k] == if k <= j then nodes[k] else nodes[k + i - j - 1] {}
      forall k | 0 <= k < |l| ensures l[k].next == if k + 1 < |l| then l[k + 1] else null {
        if k < j { NextAt(nodes, j, i, k); } else if k > j { NextAt(nodes, j, i, k + i - j - 1); }
      }
    }
  }

  lemma NextAt(nodes: seq<Timer>, j: nat, i: nat, k: nat)
    requires j < |nodes| && k < |nodes| && k != j
    requires forall k {:trigger nodes[k].next} | 0 <= k < |nodes| && k != j && k != i - 1 ::
               nodes[k].next == if k + 1 < |nodes| then nodes[k + 1] else null
    requires i > 0 && i <= |nodes| ==> nodes[i - 1].next == nodes[j]
    ensures nodes[k].next ==
            if k + 1 == i then nodes[j] else if k + 1 < |nodes| then nodes[k + 1] else null
  {
  }

  /** _time_left: the 64-bit distance to the target, 0 when it is reached or the counter has wrapped. */
  function TimeLeft(target: nat, long: nat, reference: nat, now: nat): nat
  {
    var val := long * TWO32 + target;
    if now < reference then 0 else if val > now then val - now else 0
  }

  /** None if the counter reads less than before, or has reached the target; otherwise what is missing in 64 bits. */
  lemma TimeLeftMeaning(target: nat, long: nat, reference: nat, now: nat)
    ensures var due := long * 0x1_0000_0000 + target;
            TimeLeft(target, long, reference, now) ==
            if reference <= now && now < due then due - now else 0
  {
  }

  class XTimer {
    var head: Timer?
    var wrap: nat
    var inHandler: bool
    var reg: Option<nat>
    var fired: seq<Shot>
    const isrBackoff: nat
    ghost var nodes: seq<Timer>

    /** The list: `nodes` in order, each once, linked by `next`. */
    ghost predicate Linked()
      reads this, nodes
    {
      && head == (if nodes == [] then null else nodes[0])
      && Chain(nodes)
    }

    ghost function View(): Machine<Timer>
      reads this, nodes
    {
      Machine(EntriesOf(nodes), wrap, reg)
    }

    ghost predicate Valid()
      reads this, nodes
    {
      Linked() && Inv(View()) && !inHandler
    }

    constructor (isrBackoff: nat)
      ensures Valid() && View() == Machine([], 0, None) && fired == [] && this.isrBackoff == isrBackoff
    {
      this.isrBackoff := isrBackoff;
      head, wrap, inHandler, reg, fired, nodes := null, 0, false, None, [], [];
    }

    /** _lltimer_set: no effect while the match handler runs. */
    method LltimerSet(target: nat)
      modifies this`reg
      ensures reg == if inHandler then old(reg) else Some(target)
    {
      if inHandler { return; }
      reg := Some(target);
    }

    /** _add_timer_to_list: two walks, past the earlier epochs and then past the targets due no later. */
    method AddTimerToList(t: Timer)
      requires Valid() && t !in nodes && EntryOk(EntryOf(t))
      modifies this`head, this`nodes, this`reg, nodes`next, t`next
      ensures Valid() && t in nodes && View() == AddStep(old(View()), old(EntryOf(t)))
      ensures fired == old(fired) && (forall n | n in nodes :: n == t || n in old(nodes))
    {
      hide Inv, Key, EntriesOf, Chain, Insert;
      ghost var m, e := View(), EntryOf(t);
      var prev, cur;
      ghost var i;
      prev, cur, i := FindPlace(t);
      InsertAt(m.queue, e, i);
      AddKeepsInv(m, e);
      ghost var was := nodes;
      LinkIn(t, prev, cur, i);
      EntriesInserted(was, t, i);
      assert head == t <==> i == 0;
      assert Insert(m.queue, e)[0].timer == t <==> i == 0;
      if head == t && t.long == 0 {
        LltimerSet(t.target);
      }
    }

    /** The two loops of _add_timer_to_list. */
    method FindPlace(t: Timer) returns (prev: Timer?, cur: Timer?, ghost i: nat)
      requires Valid() && EntryOk(EntryOf(t))
      ensures Cursor(prev, cur, i)
      ensures var q, e := View().queue, EntryOf(t);
              (forall j | 0 <= j < i :: Key(q[j]) <= Key(e)) && (i < |q| ==> Key(e) < Key(q[i]))
    {
      hide Distinct, Armed, EntriesOf, Key, Sorted, Chain;
      ghost var q, e := EntriesOf(nodes), EntryOf(t);
      prev, cur, i := null, head, 0;
      while cur != null && cur.long < t.long
        invariant Cursor(prev, cur, i) && forall j | 0 <= j < i :: Key(q[j]) <= Key(e)
        decreases |nodes| - i
      {
        KeyOrder(q[i], e);
        NextOf(nodes, i);
        prev, cur, i := cur, cur.next, i + 1;
      }
      if i < |q| { EpochsAscend(q, i); }
      while cur != null && cur.target <= t.target && cur.long <= t.long
        invariant Cursor(prev, cur, i) && forall j | 0 <= j < i :: Key(q[j]) <= Key(e)
        invariant forall j | i <= j < |q| :: q[j].long >= t.long
        decreases |nodes| - i
      {
        KeyOrder(q[i], e);
        NextOf(nodes, i);
        prev, cur, i := cur, cur.next, i + 1;
      }
      if i < |q| { KeyOrder(q[i], e); }
    }

    /** Where a walk along the list stands: `cur` is node `i`, `prev` the one before it. */
    ghost predicate Cursor(prev: Timer?, cur: Timer?, i: nat)
      reads this, nodes
    {
      && i <= |nodes|
      && cur == (if i < |nodes| then nodes[i] else null)
      && prev == (if i == 0 then null else nodes[i - 1])
    }

    /** `timer->next = *list_head; *list_head = timer`. */
    method LinkIn(t: Timer, prev: Timer?, cur: Timer?, ghost i: nat)
      requires Linked() && Cursor(prev, cur, i) && t !in nodes
      modifies this`head, this`nodes, nodes`next, t`next
      ensures Linked() && nodes == old(nodes[..i]) + [t] + old(nodes[i..])
      ensures head == if i == 0 then t else old(head)
    {
      NodesInserted(nodes, t, i);
      t.next := cur;
      if prev == null {
        head := t;
      } else {
        prev.next := t;
      }
      ghost var was := nodes;
      nodes := nodes[..i] + [t] + nodes[i..];
      forall j | 0 <= j < |nodes| ensures nodes[j].next == if j + 1 < |nodes| then nodes[j + 1] else null {
        if j < i { assert old(was[j].next) == if j + 1 < |was| then was[j + 1] else null; }
        if j > i { assert old(was[j - 1].next) == if j < |was| then was[j] else null; }
      }
    }

    /** `*list_head = timer->next`. */
    method Unlink(t: Timer, prev: Timer?, ghost i: nat)
      requires Linked() && i < |nodes| && Cursor(prev, t, i)
      modifies this`head, this`nodes, nodes`next
      ensures Linked() && nodes == old(nodes[..i]) + old(nodes[i + 1..])
    {
      NodesRemoved(nodes, i);
      ghost var was := nodes;
      if prev == null {
        head := t.next;
      } else {
        prev.next := t.next;
      }
      nodes := nodes[..i] + nodes[i + 1..];
      assert old(was[i].next) == if i + 1 < |was| then was[i + 1] else null;
      forall j | 0 <= j < |nodes| ensures nodes[j].next == if j + 1 < |nodes| then nodes[j + 1] else null {
        if j < i { assert old(was[j].next) == was[j + 1]; }
        if j >= i { assert old(was[j + 1].next) == if j + 2 < |was| then was[j + 2] else null; }
      }
    }

    /** _remove_timer_from_list. */
    method RemoveTimerFromList(t: Timer) returns (found: bool)
      requires Valid()
      modifies this`head, this`nodes, nodes`next
      ensures Linked() && found == (t in old(nodes)) && t !in nodes
      ensures EntriesOf(nodes) == Without(old(EntriesOf(nodes)), t)
      ensures forall n | n in nodes :: n in old(nodes)
    {
      hide Inv, Key, EntriesOf;
      ghost var q := EntriesOf(nodes);
      var prev: Timer?, cur := null, head;
      ghost var i := 0;
      while cur != null && cur != t
        invariant Cursor(prev, cur, i) && forall j | 0 <= j < i :: nodes[j] != t
        decreases |nodes| - i
      {
        prev, cur, i := cur, cur.next, i + 1;
      }
      found := cur != null;
      if found {
        WithoutAt(q, t, i);
        ghost var was := nodes;
        Unlink(t, prev, i);
        EntriesRemoved(was, i);
      } else {
        WithoutIdle(q, t);
      }
    }

    /** The head's part of _remove: the match register is reprogrammed for the next timer. */
    method RemoveHead(t: Timer)
      requires Linked() && head == t && !inHandler
      modifies this`head, this`nodes, this`reg, nodes`next
      ensures Linked() && View() == RemoveStep(old(View()), t)
      ensures forall n | n in nodes :: n in old(nodes)
    {
      hide EntriesOf, Without;
      ghost var m, was := View(), nodes;
      WithoutAt(m.queue, t, 0);
      Unlink(t, null, 0);
      EntriesRemoved(was, 0);
      assert nodes == was[1..] && View().queue == RemoveStep(m, t).queue;
      if head != null {
        LltimerSet(head.target);
      }
    }

    /** _remove. */
    method Remove(t: Timer)
      requires Valid()
      modifies this`head, this`nodes, this`reg, nodes`next
      ensures Valid() && View() == RemoveStep(old(View()), t) && t !in nodes
      ensures forall n | n in nodes :: n in old(nodes)
    {
      hide Inv, Key, EntriesOf, Without, Chain;
      ghost var m := View();
      RemoveKeepsInv(m, t);
      if head == t {
        RemoveHead(t);
      } else {
        var found := RemoveTimerFromList(t);
      }
      assert View() == RemoveStep(m, t);
      NotPending(nodes, t);
    }

    /** xtimer_remove: only a timer with a nonzero target is looked for. */
    method XtimerRemove(t: Timer)
      requires Valid()
      modifies this`head, this`nodes, this`reg, nodes`next
      ensures Valid() && View() == XtimerRemoveStep(old(View()), t, t.target)
      ensures t in nodes <==> t in old(nodes) && t.target == 0
      ensures forall n | n in nodes :: n in old(nodes)
    {
      hide Inv, EntriesOf, Chain, RemoveStep;
      if t.target != 0 {
        Remove(t);
      }
    }

    // ---------- setting ----------

    /** _xtimer_set_absolute64, in unsigned 64-bit arithmetic. */
    method SetAbsolute64(t: Timer, ticks: nat)
      requires Valid() && t !in nodes && IsU64(ticks)
      modifies this`head, this`nodes, this`reg, nodes`next, t`next, t`target, t`long
      ensures Valid() && View() == AddStep(old(View()), AbsoluteEntry(t, ticks)) && t in nodes
      ensures ticks >= 320 ==> t.long * 0x1_0000_0000 + t.target == ticks - 320
    {
      var corrected := (ticks + TWO64 - OVERHEAD) % TWO64;
      SetFields(t, corrected % TWO32, corrected / TWO32);
      AbsoluteDeadline(t, ticks);
      AddTimerToList(t);
    }

    /** The fields of a timer that is not in the list are the caller's business. */
    method SetFields(t: Timer, target: nat, long: nat)
      requires Valid() && t !in nodes
      modifies t`target, t`long
      ensures Valid() && View() == old(View()) && EntryOf(t) == Entry(t, target, long)
    {
      hide EntriesOf;
      ghost var q := EntriesOf(nodes);
      t.target, t.long := target, long;
      assert EntriesOf(nodes) == q;
    }

    method Shoot(e: Entry<Timer>, now: nat)
      modifies this`fired
      ensures fired == old(fired) + [Shot(e.timer, e, now)]
    {
      fired := fired + [Shot(e.timer, e, now)];
    }

    /**
     _xtimer_set: short offsets are waited out on the spot, everything else is queued. A pending timer is taken out
     first, which needs its target word to be nonzero.
     */
    method Set(t: Timer, offset: nat, now: nat)
      requires Valid() && IsU32(offset) && IsU32(now)
      requires t in nodes ==> t.target != 0
      modifies this`head, this`nodes, this`reg, this`fired, nodes`next, t`next, t`target, t`long
      ensures Valid()
      ensures !t.callback ==> View() == old(View()) && fired == old(fired)
      ensures t.callback && offset < BACKOFF ==>
                View() == XtimerRemoveStep(old(View()), t, old(t.target))
                && fired == old(fired) + [Shot(t, old(EntryOf(t)), now)]
      ensures t.callback && offset >= BACKOFF ==>
                fired == old(fired)
                && View() == AddStep(XtimerRemoveStep(old(View()), t, old(t.target)), AbsoluteEntry(t, now + offset))
      ensures t.callback && offset < 720 ==> t !in nodes && |fired| == |old(fired)| + 1
      ensures t.callback && offset >= 720 ==>
                t in nodes && fired == old(fired) && t.long * 0x1_0000_0000 + t.target == now + offset - 320
    {
      hide Inv, EntriesOf, AddStep, XtimerRemoveStep, Key;
      if !t.callback { return; }
      XtimerRemove(t);
      if offset < BACKOFF {
        var e := Entry(t, t.target, t.long);
        Shoot(e, now);
      } else {
        assert forall k | 0 <= k < |nodes| :: nodes[k] in old(nodes);
        SetAbsolute64(t, now + offset);
      }
    }

    /** _xtimer_set64. */
    method Set64(t: Timer, offset: nat, longOffset: nat, now: nat)
      requires Valid() && t !in nodes && IsU32(offset) && IsU32(longOffset) && IsU32(now)
      modifies this`head, this`nodes, this`reg, nodes`next, t`next, t`target, t`long
      ensures Valid() && View() == AddStep(old(View()), RelativeEntry(t, offset, longOffset, now)) && t in nodes
      ensures var due := now + offset + longOffset * 0x1_0000_0000 - 320;
              0 <= due < 0x1_0000_0000_0000_0000 ==> t.long * 0x1_0000_0000 + t.target == due
    {
      hide Inv, EntriesOf, AddStep, Key;
      var val := (now + offset + TWO64 - OVERHEAD) % TWO64;
      SetFields(t, val % TWO32, (val / TWO32 + longOffset) % TWO32);
      RelativeDeadline(t, offset, longOffset, now);
      AddTimerToList(t);
    }

    // ---------- setting a timer that is in the list ----------

    /** The same two loops, on a list in which the timer that is to be added stands already, with its new words. */
    method FindPlaceAgain(t: Timer) returns (prev: Timer?, cur: Timer?, ghost i: nat)
      requires Linked()
      ensures Cursor(prev, cur, i) && i == Stop(EntriesOf(nodes), EntryOf(t))
    {
      hide EntriesOf, Chain, Cursor;
      ghost var q, e := EntriesOf(nodes), EntryOf(t);
      prev, cur, i := null, head, 0;
      CursorStarts();
      while cur != null && cur.long < t.long
        invariant AtEntry(prev, cur, i) && Earlier(q, e, 0) == Earlier(q, e, i)
        decreases |nodes| - i
      {
        CursorMoves(prev, cur, i);
        prev, cur, i := cur, cur.next, i + 1;
      }
      while cur != null && cur.target <= t.target && cur.long <= t.long
        invariant AtEntry(prev, cur, i) && Stop(q, e) == NotLater(q, e, i)
        decreases |nodes| - i
      {
        CursorMoves(prev, cur, i);
        prev, cur, i := cur, cur.next, i + 1;
      }
    }

    ghost predicate AtEntry(prev: Timer?, cur: Timer?, i: nat)
      reads this, nodes
    {
      && i <= |nodes| && Cursor(prev, cur, i) && (cur == null <==> i == |nodes|)
      && (cur != null ==> EntriesOf(nodes)[i] == EntryOf(cur))
    }

    lemma CursorStarts()
      requires Linked()
      ensures AtEntry(null, head, 0)
    {
    }

    lemma CursorMoves(prev: Timer?, cur: Timer, i: nat)
      requires Linked() && AtEntry(prev, cur, i)
      ensures AtEntry(cur, cur.next, i + 1)
    {
    }

    /**
     What a second setting makes of the list if the timer has not been taken out: either the list has no end any more,
     or the timers between the old place and the new one are no longer in it.
     */
    method SetAgain(t: Timer, target: nat, long: nat, ghost j: nat) returns (ghost i: nat)
      requires Valid() && j < |nodes| && nodes[j] == t && IsU32(target) && IsU32(long)
      modifies this`head, this`reg, nodes`next, t`target, t`long
      ensures nodes == old(nodes) && EntryOf(t) == Entry(t, target, long)
      ensures i == Stop(old(EntriesOf(nodes))[j := Entry(t, target, long)], Entry(t, target, long)) && i != j
      ensures i <= |nodes|
      ensures i < j ==> Circle(head, nodes[..i] + [t] + nodes[i..j], i)
      ensures i == j + 1 ==> Circle(head, nodes[..j + 1], j)
      ensures i > j + 1 ==> head == nodes[0] && Chain(nodes[..j + 1] + nodes[i..])
      ensures reg == if head == t && long == 0 then Some(target) else old(reg)
    {
      hide Inv, EntriesOf, Chain, Circle, Stop;
      ghost var q := EntriesOf(nodes);
      OtherEntries(nodes, j);
      t.target, t.long := target, long;
      EntriesChanged(nodes, q, j, EntryOf(t));
      var prev, cur;
      prev, cur, i := FindPlaceAgain(t);
      StopsElsewhere(EntriesOf(nodes), j);
      LinkAgain(t, prev, cur, i, j);
      if head == t && t.long == 0 {
        LltimerSet(t.target);
      }
    }

    method LinkAgain(t: Timer, prev: Timer?, cur: Timer?, ghost i: nat, ghost j: nat)
      requires Linked() && Cursor(prev, cur, i) && j < |nodes| && nodes[j] == t && i != j
      modifies this`head, nodes`next
      ensures i < j ==> Circle(head, nodes[..i] + [t] + nodes[i..j], i)
      ensures i == j + 1 ==> Circle(head, nodes[..j + 1], j)
      ensures i > j + 1 ==> head == nodes[0] && Chain(nodes[..j + 1] + nodes[i..])
    {
      hide EntriesOf, Chain, Circle;
      ChainLinks(nodes);
      t.next := cur;
      if prev == null {
        head := t;
      } else {
        prev.next := t;
      }
      LinkedTwice(head, nodes, j, i);
    }

    // ---------- the wrap handler ----------

    /** _shoot_now: the target is cleared, the callback runs, and then the timer is off the list. */
    method ShootNow(t: Timer, e: Entry<Timer>, now: nat)
      requires e.timer == t
      modifies this`fired, this`head, t`target
      ensures t.target == 0 && head == t.next && fired == old(fired) + [Shot(t, e, now)]
    {
      t.target := 0;
      Shoot(e, now);
      head := t.next;
    }

    /** Halfway through a wrap: nodes before `i` have been visited, `k` of them fired. */
    ghost predicate WrapState(all: seq<Timer>, q: seq<Entry<Timer>>, clock: nat -> nat, i: nat, k: nat, scheduled: bool,
                              wasReg: Option<nat>)
      reads this, all
    {
      && |all| == |q| && (forall j | 0 <= j < |q| :: q[j].long > 0)
      && k <= i <= |all| && (scheduled <==> k < i)
      && head == (if k < |all| then all[k] else null)
      && (forall j | i <= j < |all| :: EntryOf(all[j]) == q[j])
      && (forall j | k <= j < i :: EntryOf(all[j]) == q[j].(long := q[j].long - 1))
      && Expired(q, clock, 0) == k + (if scheduled then 0 else Expired(q[i..], clock, i))
      && reg == if scheduled && q[k].long == 1 then Some(q[k].target) else wasReg
    }

    /** One round of the loop of _timer_wrap; `now` is what the counter reads. */
    method WrapNode(t: Timer, now: nat, scheduled: bool, ghost all: seq<Timer>, ghost q: seq<Entry<Timer>>,
                    ghost clock: nat -> nat, ghost i: nat, ghost k: nat, ghost wasReg: Option<nat>)
      returns (scheduled': bool, ghost k': nat)
      requires i < |all| && |all| == |q| && t == all[i] && now == clock(i) && !inHandler
      requires Chain(all) && forall j | 0 <= j < |q| :: q[j].timer == all[j]
      requires WrapState(all, q, clock, i, k, scheduled, wasReg)
      modifies this`fired, this`head, this`reg, t`target, t`long
      ensures WrapState(all, q, clock, i + 1, k', scheduled', wasReg)
      ensures fired == old(fired) + if k' > k then [Shot(t, q[i], now)] else []
      ensures k' == k || (k' == k + 1 && k == i)
    {
      ExpiredStep(q, clock, i);
      scheduled', k' := scheduled, k;
      var e := Entry(t, t.target, t.long);
      t.long := t.long - 1;
      if scheduled { return; }
      if t.long == 0 && now > t.target {
        ShootNow(t, e, now);
        k' := k + 1;
      } else {
        if t.long == 0 {
          LltimerSet(head.target);
        }
        scheduled' := true;
      }
    }

    /** _timer_wrap, called where the assertion at its top holds: nobody pending is due in the old epoch. */
    method TimerWrap(clock: nat -> nat)
      requires Valid() && forall i | 0 <= i < |nodes| :: nodes[i].long > 0
      modifies this`head, this`nodes, this`reg, this`wrap, this`fired, nodes`target, nodes`long
      ensures Valid() && View() == WrapStep(old(View()), clock)
      ensures fired == old(fired) + WrapShots(old(View().queue), clock, Expired(old(View().queue), clock, 0))
    {
      hide Inv, Key, EntriesOf, WrapShots, Chain, Expired, WrapStep, WrapState;
      ghost var m, all := View(), nodes;
      WrapKeepsInv(m, clock);
      wrap := (wrap + 1) % TWO32;
      WrapBegins(m, clock);
      ghost var k, scheduled := WrapLoop(clock, m.queue, m.reg);
      ghost var left := WrapEnds(m, clock, all, k, scheduled);
      nodes := left;
      assert View() == WrapStep(m, clock);
    }

    lemma WrapBegins(m: Machine<Timer>, clock: nat -> nat)
      requires Linked() && m.queue == EntriesOf(nodes) && m.reg == reg
      requires forall j | 0 <= j < |m.queue| :: m.queue[j].long > 0
      ensures WrapState(nodes, m.queue, clock, 0, 0, false, reg)
    {
      hide EntriesOf, Expired;
      assert m.queue[0..] == m.queue;
    }

    /** What is left of the list is the queue after the wrap. */
    lemma WrapEnds(m: Machine<Timer>, clock: nat -> nat, all: seq<Timer>, k: nat, scheduled: bool)
      returns (left: seq<Timer>)
      requires Chain(all) && WrapState(all, m.queue, clock, |all|, k, scheduled, m.reg)
      requires wrap == (m.wrap + 1) % TWO32
      ensures left == all[k..] && Chain(left) && head == (if left == [] then null else left[0])
      ensures k == Expired(m.queue, clock, 0)
      ensures Machine(EntriesOf(left), wrap, reg) == WrapStep(m, clock)
      ensures forall n | n in left :: n in all
    {
      hide EntriesOf, Chain;
      left := all[k..];
      ChainSuffix(all, k);
      AgedEntries(all, m.queue, k);
      assert m.queue[|all|..] == [];
    }

    /** The loop of _timer_wrap, down the list as it was at the start. */
    method WrapLoop(clock: nat -> nat, ghost q: seq<Entry<Timer>>, ghost wasReg: Option<nat>)
      returns (ghost k: nat, ghost done: bool)
      requires Linked() && !inHandler && WrapState(nodes, q, clock, 0, 0, false, wasReg)
      requires |q| == |nodes| && forall j | 0 <= j < |q| :: q[j].timer == nodes[j]
      modifies this`head, this`reg, this`fired, nodes`target, nodes`long
      ensures WrapState(nodes, q, clock, |nodes|, k, done, wasReg)
      ensures fired == old(fired) + WrapShots(q, clock, k)
    {
      hide Expired, WrapShots, WrapState, Chain;
      var cur := head;
      var scheduled := false;
      var i: nat := 0;
      k := 0;
      WrapShotsNext(q, clock, 0);
      while cur != null
        invariant !inHandler && k <= i <= |nodes| && cur == (if i < |nodes| then nodes[i] else null)
        invariant WrapState(nodes, q, clock, i, k, scheduled, wasReg)
        invariant fired == old(fired) + WrapShots(q, clock, k)
        decreases |nodes| - i
      {
        WrapShotsNext(q, clock, k);
        var now := clock(i);
        NextOf(nodes, i);
        scheduled, k := WrapNode(cur, now, scheduled, nodes, q, clock, i, k, wasReg);
        cur, i := cur.next, i + 1;
      }
      done := scheduled;
    }

    // ---------- the match handler ----------

    /** Inside the match handler: `k` timers have been fired and are off the list, the rest is untouched. */
    ghost predicate MatchState(q: seq<Entry<Timer>>, k: nat)
      reads this`head, this`nodes, nodes
    {
      && |nodes| == |q| && k <= |nodes| && Chain(nodes)
      && head == (if k < |nodes| then nodes[k] else null)
      && (forall j | k <= j < |nodes| :: EntryOf(nodes[j]) == q[j])
    }

    lemma HeadOf(q: seq<Entry<Timer>>, k: nat)
      requires MatchState(q, k)
      ensures k <= |q| && (head == null <==> k == |q|)
      ensures k < |q| ==> k < |nodes| && head == nodes[k] == q[k].timer
                          && head.target == q[k].target && head.long == q[k].long
    {
    }

    /** `while(_time_left(...));`, with the reading that ended it. */
    method Spin(t: Timer, reference: nat, clock: nat -> nat, r: nat, ghost horizon: nat) returns (r': nat)
      requires SteadyClock(clock, isrBackoff) && t.long == 0 && t.target <= clock(horizon) && reference <= clock(r)
      ensures r' > r && clock(r' - 1) >= t.target
    {
      r' := r;
      var left := TimeLeft(t.target, t.long, reference, clock(r'));
      r' := r' + 1;
      while left != 0
        invariant r' > r && left == TimeLeft(t.target, t.long, reference, clock(r' - 1))
        decreases if r' <= horizon then horizon - r' + 1 else 0
      {
        assert r' - 1 < horizon;
        left := TimeLeft(t.target, t.long, reference, clock(r'));
        r' := r' + 1;
      }
    }

    /** One timer off the head of the list; never before its target. */
    method FireHead(t: Timer, now: nat, ghost q: seq<Entry<Timer>>, ghost k: nat)
      requires MatchState(q, k) && k < |nodes| && t == nodes[k]
      modifies this`head, this`fired, t`target
      ensures MatchState(q, k + 1) && fired == old(fired) + [Shot(t, q[k], now)]
    {
      var e := Entry(t, t.target, t.long);
      assert t.next == if k + 1 < |nodes| then nodes[k + 1] else null;
      head := t.next;
      t.target := 0;
      Shoot(e, now);
    }

    /** The inner loop: fire while the head is less than the backoff away, waiting out what is left of it. */
    method FireDue(reference: nat, clock: nat -> nat, r: nat, ghost q: seq<Entry<Timer>>, ghost k: nat,
                   ghost horizon: nat)
      returns (r': nat, ghost k': nat)
      requires MatchState(q, k) && SteadyClock(clock, isrBackoff) && Reaches(q, clock, isrBackoff, horizon)
      requires reference <= clock(r) && isrBackoff > 0
      modifies this`head, this`fired, nodes`target
      ensures MatchState(q, k') && r' >= r && k' >= k
      ensures FiredInTime(q, k, k', old(fired), fired)
      ensures k < |q| && q[k].long == 0 && q[k].target < reference ==> k' > k
      ensures k' < |q| ==> r' > r && q[k'].long * TWO32 + q[k'].target >= clock(r' - 1) + isrBackoff
    {
      hide EntryOf, MatchState, FiredInTime, SteadyClock, Reaches;
      r', k' := r, k;
      HeadOf(q, k);
      NothingFired(q, k, fired);
      while head != null
        invariant MatchState(q, k') && r' >= r && k <= k' <= |q| && (head == null <==> k' == |q|)
        invariant FiredInTime(q, k, k', old(fired), fired)
        decreases |q| - k'
      {
        ClockAscends(clock, isrBackoff, r, r');
        var t := head;
        HeadOf(q, k');
        var left := TimeLeft(t.target, t.long, reference, clock(r'));
        r' := r' + 1;
        if left >= isrBackoff {
          FarHead(q[k'], reference, clock(r' - 1), isrBackoff);
          break;
        }
        ClockAscends(clock, isrBackoff, r, r');
        DueHead(q, k', clock, isrBackoff, horizon, r' - 1, reference);
        r' := Spin(t, reference, clock, r', horizon);
        FiredNext(q, k, k', old(fired), fired, Shot(t, q[k'], clock(r' - 1)));
        FireHead(t, clock(r' - 1), q, k');
        k' := k' + 1;
        HeadOf(q, k');
      }
    }

    /**
     The match interrupt: the interrupt routine switches matching off, and _timer_callback fires what is
     due, looks at the clock once more and either arms the register, goes back to firing, or leaves.
     */
    method TimerCallback(clock: nat -> nat, ghost horizon: nat) returns (r: nat, ghost k: nat)
      requires Valid() && SteadyClock(clock, isrBackoff) && isrBackoff > 0
      requires Reaches(View().queue, clock, isrBackoff, horizon)
      modifies this`head, this`nodes, this`reg, this`inHandler, this`fired, nodes`target
      ensures Valid() && k <= |old(View().queue)| && View() == MatchStep(old(View()), k)
      ensures FiredInTime(old(View().queue), 0, k, old(fired), fired)
      ensures r > 0
      ensures nodes != [] && nodes[0].long == 0 ==> reg == Some(nodes[0].target) && clock(r - 1) <= nodes[0].target
      ensures nodes != [] ==> r > 1 && nodes[0].long * TWO32 + nodes[0].target >= clock(r - 2) + isrBackoff
    {
      hide Inv, EntriesOf, SteadyClock, Reaches, FiredInTime, Chain;
      ghost var m, all := View(), nodes;
      reg := None;
      inHandler := true;
      r, k := MatchLoop(clock, m.queue, horizon);
      nodes := all[k..];
      MatchKeepsInv(m, k);
      ChainSuffix(all, k);
      UntouchedEntries(all, m.queue, k);
      assert View() == MatchStep(m, k);
    }

    method MatchLoop(clock: nat -> nat, ghost q: seq<Entry<Timer>>, ghost horizon: nat) returns (r: nat, ghost k: nat)
      requires MatchState(q, 0) && inHandler && reg == None
      requires SteadyClock(clock, isrBackoff) && isrBackoff > 0 && Reaches(q, clock, isrBackoff, horizon)
      modifies this`head, this`reg, this`inHandler, this`fired, nodes`target
      ensures !inHandler && MatchState(q, k) && FiredInTime(q, 0, k, old(fired), fired)
      ensures reg == (if k < |q| && q[k].long == 0 then Some(q[k].target) else None)
      ensures r > 0 && (k < |q| && q[k].long == 0 ==> clock(r - 1) <= q[k].target)
      ensures k < |q| ==> r > 1 && q[k].long * TWO32 + q[k].target >= clock(r - 2) + isrBackoff
    {
      hide SteadyClock, Reaches, FiredInTime, MatchState;
      var reference := clock(0);
      r, k := 1, 0;
      NothingFired(q, 0, fired);
      ghost var jumped := false;
      while true
        invariant r > 0 && MatchState(q, k) && FiredInTime(q, 0, k, old(fired), fired)
        invariant reg == None && inHandler && reference == clock(r - 1)
        invariant jumped ==> k < |q| && q[k].long == 0 && q[k].target < reference
        decreases |q| - k, !jumped
      {
        ghost var before, mid := k, fired;
        ClockAscends(clock, isrBackoff, r - 1, r);
        r, k := FireDue(reference, clock, r, q, k, horizon);
        FiredOn(q, before, k, old(fired), mid, fired);
        reference := clock(r);
        r := r + 1;
        HeadOf(q, k);
        if head == null || head.long != 0 { break; }
        var nextTarget := head.target;
        if reference <= nextTarget {
          inHandler := false;
          LltimerSet(nextTarget);
          break;
        }
        jumped := true;
      }
      inHandler := false;
    }
  }

  /** A clock that never runs backwards and stays clear of its wrap by more than the backoff. */
  ghost predicate SteadyClock(clock: nat -> nat, backoff: nat)
  {
    && (forall i, j | 0 <= i <= j :: clock(i) <= clock(j))
    && (forall i: nat :: clock(i) + backoff < TWO32)
  }

  /** A head that is left alone is at least the backoff away. */
  lemma FarHead(e: Entry<Timer>, reference: nat, now: nat, backoff: nat)
    requires TimeLeft(e.target, e.long, reference, now) >= backoff > 0
    ensures e.long * TWO32 + e.target >= now + backoff
  {
  }

  lemma ClockAscends(clock: nat -> nat, backoff: nat, i: nat, j: nat)
    requires SteadyClock(clock, backoff) && i <= j
    ensures clock(i) <= clock(j) && clock(j) + backoff < TWO32
  {
  }

  /** The clock does get to every target that the handler decides to wait for. */
  ghost predicate Reaches(q: seq<Entry<Timer>>, clock: nat -> nat, backoff: nat, horizon: nat)
  {
    forall j, i: nat | 0 <= j < |q| && q[j].long == 0 && q[j].target < clock(i) + backoff ::
      q[j].target <= clock(horizon)
  }

  /** A head less than the backoff away is due in this epoch, and its target will be reached. */
  lemma DueHead(q: seq<Entry<Timer>>, k: nat, clock: nat -> nat, backoff: nat, horizon: nat, i: nat, reference: nat)
    requires SteadyClock(clock, backoff) && Reaches(q, clock, backoff, horizon) && k < |q| && reference <= clock(i)
    requires TimeLeft(q[k].target, q[k].long, reference, clock(i)) < backoff
    ensures q[k].long == 0 && q[k].target <= clock(horizon)
  {
    assert q[k].long * TWO32 + q[k].target < clock(i) + backoff < TWO32;
  }

  /** The log from timer `a` up to timer `b`: in queue order, none before its deadline. */
  ghost predicate FiredInTime(q: seq<Entry<Timer>>, a: nat, b: nat, before: seq<Shot>, after: seq<Shot>)
  {
    && a <= b <= |q| && |after| == |before| + (b - a) && after[..|before|] == before
    && forall j | a <= j < b ::
         var shot := after[|before| + j - a];
         shot.timer == q[j].timer && shot.entry == q[j] && q[j].long == 0 && shot.now >= q[j].target
  }

  lemma NothingFired(q: seq<Entry<Timer>>, a: nat, log: seq<Shot>)
    requires a <= |q|
    ensures FiredInTime(q, a, a, log, log)
  {
  }

  /** What the match handler did is an event of the timer queue. */
  lemma CallbackIsEvent(m: Machine<Timer>, k: nat, before: seq<Shot>, after: seq<Shot>) returns (ev: Event<Timer>)
    requires FiredInTime(m.queue, 0, k, before, after)
    ensures Enabled(m, ev) && Step(m, ev) == MatchStep(m, k)
    ensures ev.Matched? && |ev.nows| == k && forall j | 0 <= j < k :: ev.nows[j] == after[|before| + j].now
  {
    ev := Matched(seq<nat>(k, j requires 0 <= j < k => after[|before| + j].now));
  }

  lemma FiredNext(q: seq<Entry<Timer>>, a: nat, b: nat, before: seq<Shot>, mid: seq<Shot>, shot: Shot)
    requires FiredInTime(q, a, b, before, mid) && b < |q| && q[b].long == 0
    requires shot.timer == q[b].timer && shot.entry == q[b] && shot.now >= q[b].target
    ensures FiredInTime(q, a, b + 1, before, mid + [shot])
  {
    var after := mid + [shot];
    assert after[..|before|] == mid[..|before|];
    forall i | 0 <= i < |mid| ensures after[i] == mid[i] {}
  }

  lemma FiredOn(q: seq<Entry<Timer>>, b: nat, c: nat, before: seq<Shot>, mid: seq<Shot>, after: seq<Shot>)
    requires FiredInTime(q, 0, b, before, mid) && FiredInTime(q, b, c, mid, after)
    ensures FiredInTime(q, 0, c, before, after)
  {
    assert after[..|before|] == after[..|mid|][..|before|];
    forall j | 0 <= j < c
      ensures var shot := after[|before| + j];
              shot.timer == q[j].timer && shot.entry == q[j] && q[j].long == 0 && shot.now >= q[j].target
    {
      if j < b { assert after[|before| + j] == mid[|before| + j]; }
      else { assert after[|before| + j] == after[|mid| + j - b]; }
    }
  }

  lemma UntouchedEntries(all: seq<Timer>, q: seq<Entry<Timer>>, k: nat)
    requires |all| == |q| && k <= |q| && forall j | k <= j < |all| :: EntryOf(all[j]) == q[j]
    ensures EntriesOf(all[k..]) == q[k..]
  {
    hide EntriesOf;
  }

  /** What a wrap fires. */
  ghost function WrapShots(q: seq<Entry<Timer>>, clock: nat -> nat, k: nat): seq<Shot>
    requires k <= |q|
  {
    if k == 0 then [] else WrapShots(q, clock, k - 1) + [Shot(q[k - 1].timer, q[k - 1], clock(k - 1))]
  }

  lemma WrapShotsNext(q: seq<Entry<Timer>>, clock: nat -> nat, k: nat)
    requires k <= |q|
    ensures WrapShots(q, clock, 0) == []
    ensures k < |q| ==> WrapShots(q, clock, k + 1) == WrapShots(q, clock, k) + [Shot(q[k].timer, q[k], clock(k))]
  {
  }

  lemma ExpiredStep(q: seq<Entry<Timer>>, clock: nat -> nat, i: nat)
    requires i < |q|
    ensures Expired(q[i..], clock, i)
         == if q[i].long == 1 && clock(i) > q[i].target then 1 + Expired(q[i + 1..], clock, i + 1) else 0
  {
    assert q[i..][1..] == q[i + 1..];
  }

  lemma AgedEntries(all: seq<Timer>, q: seq<Entry<Timer>>, k: nat)
    requires |all| == |q| && k <= |q| && forall j | 0 <= j < |q| :: q[j].long > 0
    requires forall j | k <= j < |all| :: EntryOf(all[j]) == q[j].(long := q[j].long - 1)
    ensures EntriesOf(all[k..]) == Aged(q[k..])
  {
    hide EntriesOf;
  }

  /** The entry that an absolute setting makes. */
  function AbsoluteEntry<T>(t: T, ticks: nat): Entry<T>
  {
    var corrected := (ticks + TWO64 - OVERHEAD) % TWO64;
    Entry(t, corrected % TWO32, corrected / TWO32)
  }

  /** The entry that a relative 64-bit setting makes; the epoch word wraps at 32 bits. */
  function RelativeEntry<T>(t: T, offset: nat, longOffset: nat, now: nat): Entry<T>
  {
    var val := (now + offset + TWO64 - OVERHEAD) % TWO64;
    Entry(t, val % TWO32, (val / TWO32 + longOffset) % TWO32)
  }

  /** An absolute setting is due OVERHEAD ticks early, exactly when there are that many ticks to take off. */
  lemma AbsoluteDeadline<T>(t: T, ticks: nat)
    requires IsU64(ticks)
    ensures Key(AbsoluteEntry(t, ticks)) == ticks - 320 <==> ticks >= 320
  {
    if ticks >= OVERHEAD { assert (ticks + TWO64 - OVERHEAD) % TWO64 == ticks - OVERHEAD; }
  }

  /**
   What was queued can be taken out again exactly if its target word did not come out as zero; from there on
   xtimer_remove and a second setting pass it over.
   */
  lemma SetThenRemoved<T>(m: Machine<T>, t: T, ticks: nat)
    requires Inv(m) && !Pending(m.queue, t) && IsU64(ticks)
    ensures var e := AbsoluteEntry(t, ticks);
            Pending(XtimerRemoveStep(AddStep(m, e), t, e.target).queue, t) <==> ticks % 0x1_0000_0000 == 320
  {
    PassedOver(m, AbsoluteEntry(t, ticks));
    LowWord(ticks);
  }

  /** The same for a relative setting. */
  lemma Set64ThenRemoved<T>(m: Machine<T>, t: T, offset: nat, longOffset: nat, now: nat)
    requires Inv(m) && !Pending(m.queue, t) && IsU32(offset) && IsU32(longOffset) && IsU32(now)
    ensures var e := RelativeEntry(t, offset, longOffset, now);
            Pending(XtimerRemoveStep(AddStep(m, e), t, e.target).queue, t) <==> (now + offset) % 0x1_0000_0000 == 320
  {
    PassedOver(m, RelativeEntry(t, offset, longOffset, now));
    LowWord(now + offset);
  }

  lemma PassedOver<T>(m: Machine<T>, e: Entry<T>)
    requires Inv(m) && !Pending(m.queue, e.timer) && EntryOk(e)
    ensures Pending(XtimerRemoveStep(AddStep(m, e), e.timer, e.target).queue, e.timer) <==> e.target == 0
  {
    AddKeepsInv(m, e);
    RemoveKeepsInv(AddStep(m, e), e.timer);
    var k := InsertionPoint(m.queue, e);
    assert AddStep(m, e).queue[k].timer == e.timer;
  }

  lemma LowWord(ticks: nat)
    requires IsU64(ticks)
    ensures (ticks + TWO64 - OVERHEAD) % TWO64 % TWO32 == 0 <==> ticks % TWO32 == OVERHEAD
  {
    var q, r := ticks / TWO32, ticks % TWO32;
    assert ticks == q * TWO32 + r;
    if r >= OVERHEAD {
      assert (ticks + TWO64 - OVERHEAD) % TWO64 == q * TWO32 + (r - OVERHEAD);
    } else if q > 0 {
      assert (ticks + TWO64 - OVERHEAD) % TWO64 == (q - 1) * TWO32 + (r + TWO32 - OVERHEAD);
    } else {
      assert (ticks + TWO64 - OVERHEAD) % TWO64 == (TWO32 - 1) * TWO32 + (r + TWO32 - OVERHEAD);
    }
  }

  /**
   A relative setting is due `offset + 2^32 * longOffset` ticks from now, less the overhead, exactly when
   that is a 64-bit number: the epoch word wraps, and an underflow of the low part borrows from it.
   */
  lemma RelativeDeadline<T>(t: T, offset: nat, longOffset: nat, now: nat)
    requires IsU32(offset) && IsU32(longOffset) && IsU32(now)
    ensures var due := now + offset + longOffset * 0x1_0000_0000 - 320;
            Key(RelativeEntry(t, offset, longOffset, now)) == due <==> 0 <= due < 0x1_0000_0000_0000_0000
  {
    var sum := now + offset;
    var val := (sum + TWO64 - OVERHEAD) % TWO64;
    var high := (val / TWO32 + longOffset) % TWO32;
    assert Key(RelativeEntry(t, offset, longOffset, now)) == high * TWO32 + val % TWO32;
    if sum >= OVERHEAD {
      assert val == sum - OVERHEAD;
    } else {
      assert val == sum + TWO64 - OVERHEAD && val / TWO32 == TWO32 - 1;
    }
  }
}
