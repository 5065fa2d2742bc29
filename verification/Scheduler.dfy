/** The round-robin scheduler: a circular list of threads rotated by the timer. */
module Scheduler {
  import opened Common

  const MAX_THREADS: nat := 64

  datatype ThreadState = Ready | Running | Blocked | Exited

  /** A thread control block; `proc` is the slot of the owning process. */
  datatype Thread = Thread(state: ThreadState, next: nat, proc: Option<nat>)

  type Threads = seq<Thread>

  ghost predicate Distinct(ring: seq<nat>) {
    forall i, j :: 0 <= i < j < |ring| ==> ring[i] != ring[j]
  }

  /** Position after `i` on a ring of `n` threads. */
  function Succ(i: nat, n: nat): nat {
    if i + 1 == n then 0 else i + 1
  }

  predicate LinkAt(ths: Threads, ring: seq<nat>, i: nat)
    requires i < |ring|
  {
    ring[i] < |ths| && ths[ring[i]].next == ring[Succ(i, |ring|)]
  }

  /** The `next` fields run once around `ring`. */
  ghost predicate Linked(ths: Threads, ring: seq<nat>) {
    && 0 < |ring| && Distinct(ring)
    && forall i {:trigger LinkAt(ths, ring, i)} :: 0 <= i < |ring| ==> LinkAt(ths, ring, i)
  }

  ghost predicate InTable(ths: Threads, ring: seq<nat>) {
    |ths| == MAX_THREADS && 0 < |ring| && forall i :: 0 <= i < |ring| ==> ring[i] < MAX_THREADS
  }

  // -----------------------------------------------------------------------------
  // Steps

  function Rotate(ring: seq<nat>, k: nat): seq<nat>
    requires k <= |ring|
  {
    ring[k..] + ring[..k]
  }

  /** The thread table when the next thread is picked: the current thread is preempted. */
  function Preempted(ths: Threads, current: nat): Threads
    requires current < |ths|
  {
    if ths[current].state == Running then ths[current := ths[current].(state := Ready)] else ths
  }

  /** Looking from the current thread on, and at the current thread last, position `k` holds the
      first ready thread. */
  ghost predicate FirstReady(ths: Threads, ring: seq<nat>, k: nat)
    requires InTable(ths, ring)
  {
    && k < |ring| && ths[ring[k]].state == Ready
    && (forall j :: 0 < j < |ring| && (k == 0 || j < k) ==> ths[ring[j]].state != Ready)
  }

  /** A timer tick turns the ring to the first ready thread, which runs. */
  ghost predicate Ticked(ths: Threads, ring: seq<nat>, ths': Threads, ring': seq<nat>, k: nat)
    requires InTable(ths, ring)
  {
    && FirstReady(Preempted(ths, ring[0]), ring, k)
    && ring' == Rotate(ring, k)
    && ths' == Preempted(ths, ring[0])[ring[k] := Preempted(ths, ring[0])[ring[k]].(state := Running)]
  }

  /** Thread `t` came in right after the current one. */
  ghost predicate Inserted(ths: Threads, ring: seq<nat>, ths': Threads, ring': seq<nat>, t: nat) {
    && 0 < |ring| && t !in ring && t < |ths| == |ths'| && ths'[t].state == Ready
    && ring' == [ring[0], t] + ring[1..]
    && forall u :: 0 <= u < |ths| && u != t ==> ths'[u].state == ths[u].state && ths'[u].proc == ths[u].proc
  }

  lemma LinkedIn(ths: Threads, ring: seq<nat>)
    requires Linked(ths, ring) && |ths| == MAX_THREADS
    ensures InTable(ths, ring)
  {
    forall i | 0 <= i < |ring|
      ensures ring[i] < MAX_THREADS
    {
      assert LinkAt(ths, ring, i);
    }
  }

  lemma InsertLinked(ths: Threads, ring: seq<nat>, ths': Threads, ring': seq<nat>, t: nat)
    requires Linked(ths, ring) && t < |ths| && t !in ring && ring' == [ring[0], t] + ring[1..] && ring[0] < |ths|
    requires |ths'| == |ths| && ths'[t].next == ths[ring[0]].next && ths'[ring[0]].next == t
    requires forall u :: 0 <= u < |ths| && u != t && u != ring[0] ==> ths'[u].next == ths[u].next
    ensures Linked(ths', ring')
  {
    forall i | 0 <= i < |ring'|
      ensures LinkAt(ths', ring', i)
    {
      if i == 1 {
        assert LinkAt(ths, ring, 0);
      } else if i > 1 {
        assert ring'[i] == ring[i - 1] && LinkAt(ths, ring, i - 1);
      }
    }
  }

  lemma RotateAt(ring: seq<nat>, k: nat, i: nat)
    requires k < |ring| && i < |ring|
    ensures Rotate(ring, k)[i] == ring[if i + k < |ring| then i + k else i + k - |ring|]
  {
  }

  lemma RotateLinked(ths: Threads, ring: seq<nat>, k: nat)
    requires Linked(ths, ring) && k < |ring|
    ensures Linked(ths, Rotate(ring, k)) && forall t :: t in ring <==> t in Rotate(ring, k)
  {
    var n, r := |ring|, Rotate(ring, k);
    forall i | 0 <= i < n
      ensures LinkAt(ths, r, i)
    {
      RotateAt(ring, k, i);
      RotateAt(ring, k, Succ(i, n));
      assert LinkAt(ths, ring, if i + k < n then i + k else i + k - n);
    }
    forall i, j | 0 <= i < j < n
      ensures r[i] != r[j]
    {
      RotateAt(ring, k, i);
      RotateAt(ring, k, j);
    }
    assert ring == ring[..k] + ring[k..];
  }

  lemma RelabelLinked(ths: Threads, ths': Threads, ring: seq<nat>)
    requires Linked(ths, ring) && |ths'| == |ths| && forall u :: 0 <= u < |ths| ==> ths'[u].next == ths[u].next
    ensures Linked(ths', ring)
  {
    forall i | 0 <= i < |ring|
      ensures LinkAt(ths', ring, i)
    {
      assert LinkAt(ths, ring, i);
    }
  }

  class Sched {
    var threads: Threads
    var nextTid: nat
    var current: nat
    var idle: nat
    var active: bool
    ghost var ring: seq<nat>       // the circular list, read from `current` on

    /** Each enqueued thread is on the ring exactly once, only the current thread can be running,
        and the idle thread is on the ring and never stops. */
    ghost predicate Valid()
      reads this
    {
      && |threads| == MAX_THREADS && InTable(threads, ring) && Linked(threads, ring) && ring[0] == current
      && nextTid <= MAX_THREADS && (forall t :: t in ring ==> t < nextTid)
      && (forall t :: 0 <= t < MAX_THREADS && threads[t].state == Running ==> t == current)
      && idle in ring && (threads[idle].state == Ready || threads[idle].state == Running)
    }

    /** `sched_init`; without memory for the idle thread's stack the boot thread stands in. */
    constructor (stackOk: bool)
      ensures Valid() && current == 0 && !active && threads[0].state == Running
      ensures forall t :: 0 <= t < MAX_THREADS ==> threads[t].proc.None?
    {
      threads := seq(MAX_THREADS, i => Thread(if i == 0 then Running else Exited, 0, None));
      nextTid, current, idle, active := 1, 0, 0, false;
      ring := [0];
      new;
      var tid := CreateThread(stackOk);
      idle := tid;
    }

    /** `sched_create_kthread`: a thread that gets no stack stays off the ring. */
    method CreateThread(stackOk: bool) returns (tid: nat)
      requires Valid()
      modifies this
      ensures Valid() && current == old(current) && idle == old(idle) && active == old(active)
      ensures tid == 0 ==> ring == old(ring) && forall t :: 0 <= t < old(nextTid) ==> threads[t] == old(threads)[t]
      ensures tid != 0 <==> old(nextTid) < MAX_THREADS && stackOk
      ensures tid != 0 ==> tid == old(nextTid) && Inserted(old(threads), old(ring), threads, ring, tid)
      ensures forall t :: 0 <= t < MAX_THREADS ==> threads[t].proc == old(threads)[t].proc
    {
      if nextTid >= MAX_THREADS {
        return 0;
      }
      tid := nextTid;
      nextTid := nextTid + 1;
      threads := threads[tid := threads[tid].(state := Ready)];
      RelabelLinked(old(threads), threads, ring);
      if !stackOk {
        return 0;
      }
      Link(tid);
    }

    /** `sched_adopt_thread`. */
    method Adopt(proc: nat) returns (tid: Option<nat>)
      requires Valid()
      modifies this
      ensures Valid() && current == old(current) && idle == old(idle) && active == old(active)
      ensures tid.None? ==> old(nextTid) >= MAX_THREADS && ring == old(ring) && threads == old(threads) && nextTid == old(nextTid)
      ensures tid.Some? ==>
                && tid.value == old(nextTid) < MAX_THREADS && nextTid == old(nextTid) + 1
                && Inserted(old(threads), old(ring), threads, ring, tid.value)
                && threads[tid.value].proc == Some(proc)
    {
      if nextTid >= MAX_THREADS {
        return None;
      }
      var t := nextTid;
      nextTid := nextTid + 1;
      threads := threads[t := Thread(Ready, threads[t].next, Some(proc))];
      RelabelLinked(old(threads), threads, ring);
      Link(t);
      return Some(t);
    }

    /** Insertion into the circular list after the current thread. */
    method Link(t: nat)
      requires Valid() && t !in ring && t < nextTid
      modifies this`ring, this`threads
      ensures Valid() && ring == [old(ring)[0], t] + old(ring)[1..]
      ensures forall u :: 0 <= u < MAX_THREADS ==> threads[u].state == old(threads)[u].state && threads[u].proc == old(threads)[u].proc
    {
      threads := threads[t := threads[t].(next := threads[current].next)];
      threads := threads[current := threads[current].(next := t)];
      InsertLinked(old(threads), ring, threads, [ring[0], t] + ring[1..], t);
      ring := [ring[0], t] + ring[1..];
      LinkedIn(threads, ring);
      InRing(old(ring), ring, t);
    }

    /** `pick_next`: the first ready thread after the current one, or else the idle thread. */
    method PickNext() returns (t: nat, ghost k: Option<nat>)
      requires Valid()
      ensures k.Some? ==> FirstReady(threads, ring, k.value) && t == ring[k.value]
      ensures k.None? ==> t == idle && forall j :: 0 <= j < |ring| ==> threads[ring[j]].state != Ready
      ensures if forall j :: 0 <= j < |ring| ==> threads[ring[j]].state != Ready then t == idle
              else exists j: nat :: FirstReady(threads, ring, j) && t == ring[j]
    {
      assert LinkAt(threads, ring, 0);
      t := threads[current].next;
      var start := t;
      ghost var n := |ring|;
      ghost var i := Succ(0, n);
      ghost var seen := 0;
      while threads[t].state != Ready
        invariant seen < n && i == (if seen + 1 < n then seen + 1 else 0) && t == ring[i]
        invariant forall j :: 1 <= j <= seen ==> threads[ring[j]].state != Ready
        decreases n - seen
      {
        assert LinkAt(threads, ring, i);
        t := threads[t].next;
        if t == start {
          assert Succ(i, n) == Succ(0, n);
          return idle, None;
        }
        i := Succ(i, n);
        seen := seen + 1;
      }
      k := Some(i);
    }

    /** `sched_tick`.  Its fallback to the idle thread is never taken: the idle thread is on the
        ring and ready. */
    method Tick() returns (ghost k: nat)
      requires Valid()
      modifies this`current, this`ring, this`threads
      ensures Valid()
      ensures !active ==> ring == old(ring) && current == old(current) && threads == old(threads)
      ensures active ==> Ticked(old(threads), old(ring), threads, ring, k) && threads[current].state == Running
    {
      k := 0;
      if !active {
        return;
      }
      threads := Preempted(threads, current);
      RelabelLinked(old(threads), threads, ring);
      var next;
      ghost var at;
      next, at := PickNext();
      assert at.Some? by {
        ghost var j :| 0 <= j < |ring| && ring[j] == idle;
      }
      k := at.value;
      Turn(next, k);
    }

    /** The ring is read from `next` on, which runs. */
    method Turn(next: nat, ghost k: nat)
      requires Valid() && k < |ring| && next == ring[k] && forall t :: 0 <= t < MAX_THREADS ==> threads[t].state != Running
      modifies this`current, this`ring, this`threads
      ensures Valid() && current == next && ring == Rotate(old(ring), k)
      ensures threads == old(threads)[next := old(threads)[next].(state := Running)]
    {
      threads := threads[next := threads[next].(state := Running)];
      RelabelLinked(old(threads), threads, ring);
      RotateLinked(threads, ring, k);
      current := next;
      ring := Rotate(ring, k);
      LinkedIn(threads, ring);
    }

    /** The current thread gives up the processor: blocked in wait, or exited. */
    method Stop(state: ThreadState)
      requires Valid() && (state == Blocked || state == Exited) && current != idle
      modifies this`threads
      ensures Valid() && threads == old(threads)[current := old(threads)[current].(state := state)]
    {
      threads := threads[current := threads[current].(state := state)];
      RelabelLinked(old(threads), threads, ring);
    }

    /** The current thread goes on after all. */
    method Resume()
      requires Valid()
      modifies this`threads
      ensures Valid() && threads == old(threads)[current := old(threads)[current].(state := Running)]
    {
      threads := threads[current := threads[current].(state := Running)];
      RelabelLinked(old(threads), threads, ring);
    }

    method Wake(t: nat)
      requires Valid() && t < MAX_THREADS
      modifies this`threads
      ensures Valid() && threads == old(threads)[t := old(threads)[t].(state := Ready)]
    {
      threads := threads[t := threads[t].(state := Ready)];
      RelabelLinked(old(threads), threads, ring);
    }
  }

  // -----------------------------------------------------------------------------
  // Fairness

  datatype View = View(ths: Threads, ring: seq<nat>)

  datatype Event = Tick(k: nat) | Insert(tid: nat) | Relabel

  ghost predicate Proper(v: View) { InTable(v.ths, v.ring) && Distinct(v.ring) }

  /** One step of the scheduler; `Relabel` is any change of thread states by the kernel. */
  ghost predicate Step(a: View, e: Event, b: View)
    requires Proper(a)
  {
    match e
    case Tick(k) => Ticked(a.ths, a.ring, b.ths, b.ring, k)
    case Insert(tid) => Inserted(a.ths, a.ring, b.ths, b.ring, tid)
    case Relabel => b.ring == a.ring
  }

  ghost predicate Run(vs: seq<View>, es: seq<Event>) {
    && |vs| == |es| + 1 && (forall i :: 0 <= i < |vs| ==> Proper(vs[i]))
    && (forall i :: 0 <= i < |es| ==> Step(vs[i], es[i], vs[i + 1]))
  }

  /** Thread `t` is on the ring, ready, and not running. */
  ghost predicate Waits(v: View, t: nat)
    requires Proper(v)
  {
    t in v.ring && t != v.ring[0] && v.ths[t].state == Ready
  }

  /** How many threads come before `t` on the ring. */
  function Distance(ring: seq<nat>, t: nat): (d: nat)
    requires t in ring
    ensures d < |ring| && ring[d] == t
  {
    if ring[0] == t then 0 else 1 + Distance(ring[1..], t)
  }

  function Ticks(es: seq<Event>): nat {
    if es == [] then 0 else Ticks(es[..|es| - 1]) + if es[|es| - 1].Tick? then 1 else 0
  }

  function Inserts(es: seq<Event>): nat {
    if es == [] then 0 else Inserts(es[..|es| - 1]) + if es[|es| - 1].Insert? then 1 else 0
  }

  lemma DistanceIs(ring: seq<nat>, t: nat, d: nat)
    requires Distinct(ring) && d < |ring| && ring[d] == t
    ensures t in ring && Distance(ring, t) == d
  {
  }

  lemma StepDistance(a: View, e: Event, b: View, t: nat)
    requires Proper(a) && Proper(b) && Step(a, e, b) && Waits(a, t) && Waits(b, t)
    ensures Distance(b.ring, t) + (if e.Tick? then 1 else 0) <= Distance(a.ring, t) + if e.Insert? then 1 else 0
  {
    var d := Distance(a.ring, t);
    match e
    case Tick(k) =>
      assert Preempted(a.ths, a.ring[0])[t].state == Ready;
      assert 0 < k <= d;
      assert b.ring[d - k] == t;
      DistanceIs(b.ring, t, d - k);
    case Insert(tid) =>
      assert b.ring[d + 1] == t;
      DistanceIs(b.ring, t, d + 1);
    case Relabel =>
  }

  /** A thread that stays ready runs within as many ticks as threads were before it on the ring
      plus threads inserted since. */
  lemma {:induction false} Fair(vs: seq<View>, es: seq<Event>, t: nat)
    requires Run(vs, es) && (forall i :: 0 <= i < |vs| ==> Waits(vs[i], t)) && Waits(vs[0], t) && Waits(vs[|es|], t)
    ensures Ticks(es) + Distance(vs[|es|].ring, t) <= Distance(vs[0].ring, t) + Inserts(es)
    ensures Ticks(es) < Distance(vs[0].ring, t) + Inserts(es)
    decreases |es|
  {
    var n := |es|;
    if n > 0 {
      assert Waits(vs[n - 1], t);
      Fair(vs[..n], es[..n - 1], t);
      assert Step(vs[n - 1], es[n - 1], vs[n]);
      StepDistance(vs[n - 1], es[n - 1], vs[n], t);
    }
    assert Distance(vs[n].ring, t) != 0;
  }

  lemma InRing(ring: seq<nat>, ring': seq<nat>, t: nat)
    requires 0 < |ring| && ring' == [ring[0], t] + ring[1..]
    ensures forall u :: u in ring' <==> u in ring || u == t
  {
    assert ring == [ring[0]] + ring[1..];
  }
}
