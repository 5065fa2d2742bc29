/** The process table: creation, exit, reaping and waiting, over all runs. */
module Processes {
  import opened Common
  import S = Scheduler

  const MAX_PROCESSES: nat := 64

  datatype ProcState = Unused | Embryo | Ready | Running | Blocked | Zombie

  datatype Pcb = Pcb(pid: int, ppid: int, state: ProcState, status: int, thread: Option<nat>)

  type Procs = seq<Pcb>

  predicate InUse(p: Pcb) { p.state != Unused }

  /** A process that can be a parent: in use and not yet exited. */
  predicate Alive(p: Pcb) { InUse(p) && p.state != Zombie }

  // -----------------------------------------------------------------------------
  // The family tree

  ghost predicate HasParent(ps: Procs, i: nat)
    requires i < |ps|
  {
    exists j :: 0 <= j < |ps| && Alive(ps[j]) && ps[j].pid == ps[i].ppid
  }

  ghost predicate PidsOk(ps: Procs, nextPid: int) {
    && (forall i :: 0 <= i < |ps| && InUse(ps[i]) ==> 0 <= ps[i].pid < nextPid)
    && (forall i, j :: 0 <= i < j < |ps| && InUse(ps[i]) && InUse(ps[j]) ==> ps[i].pid != ps[j].pid)
  }

  /** Every process but the kernel's has a smaller-numbered parent that is alive; the kernel
      process never goes away. */
  ghost predicate Tree(ps: Procs, nextPid: int) {
    && |ps| == MAX_PROCESSES && PidsOk(ps, nextPid)
    && ps[0].pid == 0 && ps[0].ppid == -1 && Alive(ps[0])
    && (forall i :: 1 <= i < |ps| && InUse(ps[i]) ==> ps[i].ppid < ps[i].pid && HasParent(ps, i))
  }

  /** Zombies have no children. */
  lemma ZombiesChildless(ps: Procs, nextPid: int, i: nat, k: nat)
    requires Tree(ps, nextPid) && i < |ps| && k < |ps| && ps[i].state == Zombie && InUse(ps[k])
    ensures ps[k].ppid != ps[i].pid
  {
    if k != 0 {
      assert HasParent(ps, k);
    }
  }

  // -----------------------------------------------------------------------------
  // Processes and threads

  /** The thread of a process is in the state its process is in. */
  predicate InStep(p: Pcb, t: S.ThreadState) {
    match p.state
    case Ready => t == S.Ready || t == S.Running
    case Running => t == S.Ready || t == S.Running
    case Blocked => t == S.Blocked
    case Zombie => t == S.Exited
    case Unused => true
    case Embryo => true
  }

  predicate PairAt(ps: Procs, ths: S.Threads, i: nat)
    requires i < |ps|
  {
    ps[i].state != Unused && ps[i].state != Embryo ==>
      && ps[i].thread.Some? && ps[i].thread.value < |ths|
      && ths[ps[i].thread.value].proc == Some(i) && InStep(ps[i], ths[ps[i].thread.value].state)
  }

  /** A thread that may run again belongs to the process that records it. */
  predicate BackAt(ps: Procs, ths: S.Threads, t: nat)
    requires t < |ths|
  {
    ths[t].state != S.Exited && ths[t].proc.Some? ==>
      && ths[t].proc.value < |ps| && ps[ths[t].proc.value].state != Unused && ps[ths[t].proc.value].state != Embryo
      && ps[ths[t].proc.value].thread == Some(t)
  }

  ghost predicate Paired(ps: Procs, ths: S.Threads) {
    && (forall i {:trigger PairAt(ps, ths, i)} :: 0 <= i < |ps| ==> PairAt(ps, ths, i))
    && (forall t {:trigger BackAt(ps, ths, t)} :: 0 <= t < |ths| ==> BackAt(ps, ths, t))
  }

  // -----------------------------------------------------------------------------
  // Waiting

  /** Process `k` is a child that `i`, waiting for `w` (-1 for any), is waiting for. */
  predicate Awaited(ps: Procs, i: nat, k: nat, w: int)
    requires i < |ps| && k < |ps|
  {
    Alive(ps[k]) && ps[k].ppid == ps[i].pid && (w == -1 || ps[k].pid == w)
  }

  /** Process `k` is an exited child that `i` could reap. */
  predicate Missed(ps: Procs, i: nat, k: nat, w: int)
    requires i < |ps| && k < |ps|
  {
    ps[k].state == Zombie && ps[k].ppid == ps[i].pid && (w == -1 || ps[k].pid == w)
  }

  /** Every blocked process has a child left whose exit will wake it, and none that it could
      have reaped instead of blocking. */
  ghost predicate Waiters(ps: Procs, waits: map<int, int>) {
    forall i :: 0 <= i < |ps| && ps[i].state == Blocked ==>
      && ps[i].pid in waits
      && (exists k :: 0 <= k < |ps| && Awaited(ps, i, k, waits[ps[i].pid]))
      && (forall k :: 0 <= k < |ps| ==> !Missed(ps, i, k, waits[ps[i].pid]))
  }

  /** The wake-up cannot be lost: the awaited child is still to exit, and when it does the
      waiting process is ready. */
  lemma NoLostWakeup(ps: Procs, nextPid: int, waits: map<int, int>, b: nat) returns (k: nat)
    requires Tree(ps, nextPid) && Waiters(ps, waits) && b < |ps| && ps[b].state == Blocked
    ensures k < |ps| && Awaited(ps, b, k, waits[ps[b].pid]) && k != b
    ensures forall status :: Exited(ps, k, b, status)[b].state == Ready && Exited(ps, k, b, status)[k].state == Zombie
  {
    hide HasParent;
    k :| 0 <= k < |ps| && Awaited(ps, b, k, waits[ps[b].pid]);
  }

  // -----------------------------------------------------------------------------
  // Exit statuses

  /** `exits` are all statuses ever left, `reaped` those handed to a parent. */
  ghost predicate Log(ps: Procs, exits: map<int, int>, reaped: map<int, int>, nextPid: int) {
    && (forall i :: 0 <= i < |ps| && ps[i].state == Zombie ==> ps[i].pid in exits && exits[ps[i].pid] == ps[i].status)
    && (forall i :: 0 <= i < |ps| && Alive(ps[i]) ==> ps[i].pid !in exits)
    && (forall i :: 0 <= i < |ps| && InUse(ps[i]) ==> ps[i].pid !in reaped)
    && (forall p :: p in exits ==> p < nextPid)
    && (forall p :: p in reaped ==> p in exits && exits[p] == reaped[p])
  }

  // -----------------------------------------------------------------------------
  // What single changes do to the invariant

  ghost predicate Sound(ps: Procs, ths: S.Threads, nextPid: int, waits: map<int, int>, exits: map<int, int>, reaped: map<int, int>) {
    Tree(ps, nextPid) && Paired(ps, ths) && Waiters(ps, waits) && Log(ps, exits, reaped, nextPid)
  }

  /** Some process with number `pid` is alive and not blocked. */
  ghost predicate Active(ps: Procs, pid: int) {
    exists j :: 0 <= j < |ps| && Alive(ps[j]) && ps[j].state != Blocked && ps[j].pid == pid
  }

  lemma ParentIs(ps: Procs, i: nat, j: nat)
    requires i < |ps| && j < |ps| && Alive(ps[j]) && ps[j].pid == ps[i].ppid
    ensures HasParent(ps, i)
  {
  }

  lemma KeepsParents(ps: Procs, ps': Procs, i: nat)
    requires |ps'| == |ps| && i < |ps| && HasParent(ps, i) && ps'[i].ppid == ps[i].ppid
    requires forall j :: 0 <= j < |ps| && Alive(ps[j]) && ps[j].pid == ps[i].ppid ==> Alive(ps'[j]) && ps'[j].pid == ps[j].pid
    ensures HasParent(ps', i)
  {
    var j :| 0 <= j < |ps| && Alive(ps[j]) && ps[j].pid == ps[i].ppid;
    assert Alive(ps'[j]);
  }

  lemma WaitersKept(ps: Procs, ps': Procs, waits: map<int, int>)
    requires Waiters(ps, waits) && |ps'| == |ps|
    requires forall b :: 0 <= b < |ps| && ps'[b].state == Blocked ==> ps[b].state == Blocked && ps'[b].pid == ps[b].pid
    requires forall b, k :: 0 <= b < |ps| && 0 <= k < |ps| && ps'[b].state == Blocked && ps[b].pid in waits && Awaited(ps, b, k, waits[ps[b].pid]) ==>
               Awaited(ps', b, k, waits[ps[b].pid])
    requires forall b, k :: 0 <= b < |ps| && 0 <= k < |ps| && ps'[b].state == Blocked && ps[b].pid in waits && Missed(ps', b, k, waits[ps[b].pid]) ==>
               Missed(ps, b, k, waits[ps[b].pid])
    ensures Waiters(ps', waits)
  {
    forall b | 0 <= b < |ps'| && ps'[b].state == Blocked
      ensures ps'[b].pid in waits && exists k :: 0 <= k < |ps'| && Awaited(ps', b, k, waits[ps'[b].pid])
      ensures forall k :: 0 <= k < |ps'| ==> !Missed(ps', b, k, waits[ps'[b].pid])
    {
      assert ps[b].pid in waits;
      var k :| 0 <= k < |ps| && Awaited(ps, b, k, waits[ps[b].pid]);
      assert Awaited(ps', b, k, waits[ps[b].pid]);
    }
  }

  lemma AllocatedTree(ps: Procs, nextPid: int, i: nat, parent: int)
    requires Tree(ps, nextPid) && i < |ps| && ps[i].state == Unused && Active(ps, parent)
    ensures Tree(ps[i := Pcb(nextPid, parent, Embryo, 0, None)], nextPid + 1)
    ensures Active(ps[i := Pcb(nextPid, parent, Embryo, 0, None)], parent)
  {
    hide HasParent;
    var ps' := ps[i := Pcb(nextPid, parent, Embryo, 0, None)];
    var g :| 0 <= g < |ps| && Alive(ps[g]) && ps[g].state != Blocked && ps[g].pid == parent;
    assert Alive(ps'[g]) && ps'[g] == ps[g];
    forall k | 1 <= k < |ps'| && InUse(ps'[k])
      ensures ps'[k].ppid < ps'[k].pid && HasParent(ps', k)
    {
      if k == i {
        ParentIs(ps', k, g);
      } else {
        KeepsParents(ps, ps', k);
      }
    }
  }

  lemma Allocated(ps: Procs, ths: S.Threads, nextPid: int, waits: map<int, int>, exits: map<int, int>, reaped: map<int, int>, i: nat, parent: int)
    requires Sound(ps, ths, nextPid, waits, exits, reaped) && i < |ps| && ps[i].state == Unused && Active(ps, parent)
    ensures Sound(ps[i := Pcb(nextPid, parent, Embryo, 0, None)], ths, nextPid + 1, waits, exits, reaped)
    ensures Active(ps[i := Pcb(nextPid, parent, Embryo, 0, None)], parent)
  {
    hide Tree, Paired, Active, Waiters;
    var ps' := ps[i := Pcb(nextPid, parent, Embryo, 0, None)];
    AllocatedTree(ps, nextPid, i, parent);
    SlotPaired(ps, ps', ths, i);
    WaitersKept(ps, ps', waits);
  }

  /** A slot that is unused or under construction, before and after, matters to no thread. */
  lemma SlotPaired(ps: Procs, ps': Procs, ths: S.Threads, i: nat)
    requires Paired(ps, ths) && i < |ps| == |ps'| && (forall k :: 0 <= k < |ps| && k != i ==> ps'[k] == ps[k])
    requires (ps[i].state == Unused || ps[i].state == Embryo || ps[i].state == Zombie) && (ps'[i].state == Unused || ps'[i].state == Embryo)
    ensures Paired(ps', ths)
  {
    forall k | 0 <= k < |ps'|
      ensures PairAt(ps', ths, k)
    {
      assert PairAt(ps, ths, k);
    }
    forall t | 0 <= t < |ths|
      ensures BackAt(ps', ths, t)
    {
      assert BackAt(ps, ths, t);
      assert PairAt(ps, ths, i);
    }
  }

  lemma DroppedTree(ps: Procs, nextPid: int, i: nat)
    requires Tree(ps, nextPid) && 1 <= i < |ps|
    requires forall k :: 0 <= k < |ps| && InUse(ps[k]) ==> ps[k].ppid != ps[i].pid
    ensures Tree(ps[i := ps[i].(state := Unused, pid := -1)], nextPid)
  {
    var ps' := ps[i := ps[i].(state := Unused, pid := -1)];
    forall k | 1 <= k < |ps'| && InUse(ps'[k])
      ensures ps'[k].ppid < ps'[k].pid && HasParent(ps', k)
    {
      KeepsParents(ps, ps', k);
    }
  }

  /** Removing a process without children on whose exit nobody waits any more. */
  lemma Dropped(ps: Procs, ths: S.Threads, nextPid: int, waits: map<int, int>, exits: map<int, int>, reaped: map<int, int>, i: nat)
    requires Sound(ps, ths, nextPid, waits, exits, reaped) && 1 <= i < |ps| && (ps[i].state == Zombie || ps[i].state == Embryo)
    requires forall k :: 0 <= k < |ps| && InUse(ps[k]) ==> ps[k].ppid != ps[i].pid
    requires ps[i].state == Embryo ==> forall k :: 0 <= k < |ps| && ps[k].state == Blocked ==> ps[k].pid != ps[i].ppid
    ensures Sound(ps[i := ps[i].(state := Unused, pid := -1)], ths, nextPid, waits, exits,
                  if ps[i].state == Zombie then reaped[ps[i].pid := ps[i].status] else reaped)
  {
    hide Paired, HasParent, Waiters;
    var ps' := ps[i := ps[i].(state := Unused, pid := -1)];
    DroppedTree(ps, nextPid, i);
    SlotPaired(ps, ps', ths, i);
    WaitersKept(ps, ps', waits);
  }

  /** Thread states only moved between ready and running. */
  ghost predicate Softly(ths: S.Threads, ths': S.Threads) {
    |ths'| == |ths| && forall t :: 0 <= t < |ths| ==>
      && ths'[t].proc == ths[t].proc
      && (ths'[t].state == ths[t].state || (ths[t].state in {S.Ready, S.Running} && ths'[t].state in {S.Ready, S.Running}))
  }

  lemma PairedSoftly(ps: Procs, ths: S.Threads, ths': S.Threads)
    requires Paired(ps, ths) && Softly(ths, ths')
    ensures Paired(ps, ths')
  {
    forall k | 0 <= k < |ps|
      ensures PairAt(ps, ths', k)
    {
      assert PairAt(ps, ths, k);
    }
    forall t | 0 <= t < |ths|
      ensures BackAt(ps, ths', t)
    {
      assert BackAt(ps, ths, t);
    }
  }

  lemma TickSoftly(ths: S.Threads, ring: seq<nat>, ths': S.Threads, ring': seq<nat>, k: nat)
    requires S.InTable(ths, ring) && S.Ticked(ths, ring, ths', ring', k)
    ensures Softly(ths, ths')
  {
  }

  /** The new process gets its thread. */
  lemma Started(ps: Procs, ths: S.Threads, ths': S.Threads, ring: seq<nat>, ring': seq<nat>, nextPid: int, waits: map<int, int>, exits: map<int, int>, reaped: map<int, int>, i: nat, t: nat)
    requires Sound(ps, ths, nextPid, waits, exits, reaped) && i < |ps| && ps[i].state == Embryo
    requires S.Inserted(ths, ring, ths', ring', t) && ths'[t].proc == Some(i)
    requires forall k :: 0 <= k < |ps| ==> ps[k].thread != Some(t)
    ensures Sound(ps[i := ps[i].(state := Ready, thread := Some(t))], ths', nextPid, waits, exits, reaped)
  {
    hide Tree, Waiters, HasParent;
    var ps' := ps[i := ps[i].(state := Ready, thread := Some(t))];
    StartedTree(ps, nextPid, i, t);
    WaitersKept(ps, ps', waits);
    forall k | 0 <= k < |ps'|
      ensures PairAt(ps', ths', k)
    {
      assert PairAt(ps, ths, k);
    }
    forall u | 0 <= u < |ths'|
      ensures BackAt(ps', ths', u)
    {
      assert BackAt(ps, ths, u);
    }
  }

  lemma StartedTree(ps: Procs, nextPid: int, i: nat, t: nat)
    requires Tree(ps, nextPid) && i < |ps| && ps[i].state == Embryo
    ensures Tree(ps[i := ps[i].(state := Ready, thread := Some(t))], nextPid)
  {
    hide HasParent;
    var ps' := ps[i := ps[i].(state := Ready, thread := Some(t))];
    forall k | 1 <= k < |ps'| && InUse(ps'[k])
      ensures ps'[k].ppid < ps'[k].pid && HasParent(ps', k)
    {
      KeepsParents(ps, ps', k);
    }
  }

  /** Slots in use are the same; unused slots stay unused. */
  ghost predicate SameProcs(ps: Procs, ps': Procs) {
    |ps'| == |ps| && forall i :: 0 <= i < |ps| ==> if InUse(ps[i]) then ps'[i] == ps[i] else !InUse(ps'[i])
  }

  // -----------------------------------------------------------------------------
  // Blocking, waking, exiting

  /** No two processes share a thread that matters. */
  lemma OtherThread(ps: Procs, ths: S.Threads, i: nat, j: nat)
    requires Paired(ps, ths) && i < |ps| && j < |ps| && i != j
    requires ps[i].state !in {Unused, Embryo} && ps[j].state !in {Unused, Embryo}
    ensures ps[i].thread != ps[j].thread
  {
    assert PairAt(ps, ths, i) && PairAt(ps, ths, j);
  }

  /** A process and its thread change state together. */
  lemma PairedChange(ps: Procs, ths: S.Threads, ps': Procs, ths': S.Threads, i: nat)
    requires Paired(ps, ths) && i < |ps| == |ps'| && ps[i].state !in {Unused, Embryo} && ps'[i].state !in {Unused, Embryo}
    requires ps[i].thread.Some? && ps'[i].thread == ps[i].thread && ps[i].thread.value < |ths| == |ths'|
    requires forall k :: 0 <= k < |ps| && k != i ==> ps'[k].state == ps[k].state && ps'[k].thread == ps[k].thread
    requires var t := ps[i].thread.value; InStep(ps'[i], ths'[t].state) && ths'[t].proc == ths[t].proc && forall u :: 0 <= u < |ths| && u != t ==> ths'[u] == ths[u]
    requires ths[ps[i].thread.value].state == S.Exited ==> ths'[ps[i].thread.value].state == S.Exited
    ensures Paired(ps', ths')
  {
    assert PairAt(ps, ths, i);
    forall k | 0 <= k < |ps'|
      ensures PairAt(ps', ths', k)
    {
      assert PairAt(ps, ths, k);
    }
    forall t | 0 <= t < |ths'|
      ensures BackAt(ps', ths', t)
    {
      assert BackAt(ps, ths, t);
    }
  }

  lemma StateTree(ps: Procs, nextPid: int, i: nat, st: ProcState)
    requires Tree(ps, nextPid) && i < |ps| && Alive(ps[i]) && st in {Ready, Running, Blocked}
    ensures Tree(ps[i := ps[i].(state := st)], nextPid)
  {
    hide HasParent;
    var ps' := ps[i := ps[i].(state := st)];
    forall k | 1 <= k < |ps'| && InUse(ps'[k])
      ensures ps'[k].ppid < ps'[k].pid && HasParent(ps', k)
    {
      KeepsParents(ps, ps', k);
    }
  }

  lemma BlockWaiters(ps: Procs, nextPid: int, waits: map<int, int>, i: nat, w: int)
    requires Tree(ps, nextPid) && Waiters(ps, waits) && i < |ps| && Alive(ps[i]) && ps[i].state != Blocked
    requires exists k :: 0 <= k < |ps| && Awaited(ps, i, k, w)
    requires forall k :: 0 <= k < |ps| ==> !Missed(ps, i, k, w)
    ensures Waiters(ps[i := ps[i].(state := Blocked)], waits[ps[i].pid := w])
  {
    hide HasParent;
    var ps' := ps[i := ps[i].(state := Blocked)];
    var waits' := waits[ps[i].pid := w];
    forall b | 0 <= b < |ps'| && ps'[b].state == Blocked
      ensures ps'[b].pid in waits' && exists k :: 0 <= k < |ps'| && Awaited(ps', b, k, waits'[ps'[b].pid])
      ensures forall k :: 0 <= k < |ps'| ==> !Missed(ps', b, k, waits'[ps'[b].pid])
    {
      assert forall k :: 0 <= k < |ps'| && Missed(ps', b, k, waits'[ps'[b].pid]) ==> Missed(ps, b, k, waits'[ps'[b].pid]);
      if b == i {
        var k :| 0 <= k < |ps| && Awaited(ps, i, k, w);
        assert Awaited(ps', b, k, w);
      } else {
        var k :| 0 <= k < |ps| && Awaited(ps, b, k, waits[ps[b].pid]);
        assert Awaited(ps', b, k, waits'[ps'[b].pid]);
      }
    }
  }

  /** Children of `from` become children of `to`. */
  function Reparented(ps: Procs, from: int, to: int): (r: Procs)
    ensures |r| == |ps|
  {
    seq(|ps|, k requires 0 <= k < |ps| => if InUse(ps[k]) && ps[k].ppid == from then ps[k].(ppid := to) else ps[k])
  }

  /** The process table after process `i` exited: it is a zombie, its children are its parent's,
      and a parent `g` blocked in wait is ready. */
  function Exited(ps: Procs, i: nat, g: nat, status: int): (r: Procs)
    requires i < |ps| && g < |ps|
    ensures |r| == |ps|
  {
    var rs := Reparented(ps[i := ps[i].(state := Zombie, status := status)], ps[i].pid, ps[i].ppid);
    if rs[g].state == Blocked then rs[g := rs[g].(state := Ready)] else rs
  }

  lemma ExitedTree(ps: Procs, nextPid: int, i: nat, g: nat, status: int)
    requires Tree(ps, nextPid) && 1 <= i < |ps| && Alive(ps[i]) && g < |ps| && Alive(ps[g]) && ps[g].pid == ps[i].ppid
    ensures Tree(Exited(ps, i, g, status), nextPid)
  {
    hide HasParent;
    var ps' := Exited(ps, i, g, status);
    forall k | 1 <= k < |ps'| && InUse(ps'[k])
      ensures ps'[k].ppid < ps'[k].pid && HasParent(ps', k)
    {
      if ps[k].ppid == ps[i].pid {
        ParentIs(ps', k, g);
      } else {
        KeepsParents(ps, ps', k);
      }
    }
  }

  lemma ExitedWaiters(ps: Procs, nextPid: int, waits: map<int, int>, i: nat, g: nat, status: int)
    requires Tree(ps, nextPid) && Waiters(ps, waits) && 1 <= i < |ps| && Alive(ps[i]) && g < |ps| && Alive(ps[g]) && ps[g].pid == ps[i].ppid
    ensures Waiters(Exited(ps, i, g, status), waits)
  {
    hide HasParent, Waiters;
    WaitersKept(ps, Exited(ps, i, g, status), waits);
  }

  lemma ExitedLog(ps: Procs, exits: map<int, int>, reaped: map<int, int>, nextPid: int, i: nat, g: nat, status: int)
    requires PidsOk(ps, nextPid) && Log(ps, exits, reaped, nextPid) && i < |ps| && Alive(ps[i]) && g < |ps|
    ensures ps[i].pid !in exits && Log(Exited(ps, i, g, status), exits[ps[i].pid := status], reaped, nextPid)
  {
  }

  class Table {
    const sched: S.Sched
    var procs: Procs
    var nextPid: int
    ghost var waits: map<int, int>
    ghost var exits: map<int, int>
    ghost var reaped: map<int, int>

    ghost predicate ThreadsKnown()
      reads this, sched
    {
      forall i :: 0 <= i < |procs| && procs[i].thread.Some? ==> procs[i].thread.value < sched.nextTid
    }

    ghost predicate Valid()
      reads this, sched
    {
      && sched.Valid() && ThreadsKnown() && Sound(procs, sched.threads, nextPid, waits, exits, reaped)
      && (forall i :: 0 <= i < |procs| ==> procs[i].state != Embryo)
    }

    /** `process_init`: the running boot context becomes process 0. */
    constructor (s: S.Sched)
      requires s.Valid() && s.threads[s.current].state == S.Running
      requires forall t :: 0 <= t < S.MAX_THREADS ==> s.threads[t].proc.None?
      modifies s
      ensures sched == s && Valid() && nextPid == 1 && exits == map[] && reaped == map[]
    {
      sched := s;
      var boot := s.current;
      procs := seq(MAX_PROCESSES, i => if i == 0 then Pcb(0, -1, Running, 0, Some(boot)) else Pcb(-1, -1, Unused, 0, None));
      nextPid := 1;
      waits, exits, reaped := map[], map[], map[];
      new;
      s.threads := s.threads[s.current := s.threads[s.current].(proc := Some(0))];
      S.RelabelLinked(old(s.threads), s.threads, s.ring);
      assert s.current in s.ring;
      forall i | 0 <= i < |procs|
        ensures PairAt(procs, s.threads, i)
      {
      }
      forall t | 0 <= t < |s.threads|
        ensures BackAt(procs, s.threads, t)
      {
      }
    }

    /** The process of the running thread. */
    ghost predicate Runs(i: nat)
      reads this, sched
    {
      && sched.Valid() && sched.threads[sched.current].state == S.Running
      && i < |procs| && sched.threads[sched.current].proc == Some(i)
    }

    /** The process that can make a call: its thread runs, and is not the idle thread. */
    ghost function Caller(): Option<nat>
      reads this, sched
    {
      if sched.current < |sched.threads| && sched.threads[sched.current].state == S.Running && sched.current != sched.idle
      then sched.threads[sched.current].proc else None
    }

    ghost function Now(): State
      reads this, sched
    {
      State(procs, Caller(), nextPid, sched.nextTid, exits, reaped, sched.active, S.View(sched.threads, sched.ring))
    }

    /** The process whose thread runs is neither blocked nor exited. */
    lemma RunningProcess(i: nat)
      requires Valid() && Runs(i)
      ensures i < |procs| && (procs[i].state == Ready || procs[i].state == Running) && procs[i].thread == Some(sched.current)
      ensures Active(procs, procs[i].pid)
    {
      hide Tree, Waiters, Log;
      assert BackAt(procs, sched.threads, sched.current);
      assert PairAt(procs, sched.threads, i);
    }

    /** A timer interrupt. */
    method Timer()
      requires Valid()
      modifies sched`current, sched`ring, sched`threads
      ensures Valid() && (sched.active ==> sched.threads[sched.current].state == S.Running)
      ensures !sched.active ==> sched.current == old(sched.current) && sched.threads == old(sched.threads) && sched.ring == old(sched.ring)
      ensures sched.active ==> S.InTable(old(sched.threads), old(sched.ring)) && exists k: nat :: S.Ticked(old(sched.threads), old(sched.ring), sched.threads, sched.ring, k)
      ensures forall t :: 0 <= t < S.MAX_THREADS && old(sched.threads)[t].state in {S.Blocked, S.Exited} ==>
                sched.threads[t].state == old(sched.threads)[t].state
    {
      hide Tree, Waiters, Log, Paired;
      ghost var ths, ring := sched.threads, sched.ring;
      ghost var k := sched.Tick();
      if sched.active {
        TickSoftly(ths, ring, sched.threads, sched.ring, k);
        PairedSoftly(procs, ths, sched.threads);
      }
    }

    /** `process_get`. */
    method Get(pid: int) returns (r: Option<nat>)
      ensures r.Some? ==> r.value < |procs| && InUse(procs[r.value]) && procs[r.value].pid == pid
      ensures r.None? ==> forall i :: 0 <= i < |procs| && InUse(procs[i]) ==> procs[i].pid != pid
    {
      for i := 0 to |procs|
        invariant forall j :: 0 <= j < i && InUse(procs[j]) ==> procs[j].pid != pid
      {
        if InUse(procs[i]) && procs[i].pid == pid {
          return Some(i);
        }
      }
      return None;
    }

    /** `process_alloc`: the first free slot, and the next process number. */
    method Alloc(parent: int, memOk: bool) returns (r: Option<nat>)
      requires Valid() && Active(procs, parent)
      modifies this
      ensures sched.Valid() && ThreadsKnown() && Sound(procs, sched.threads, nextPid, waits, exits, reaped)
      ensures waits == old(waits) && exits == old(exits) && reaped == old(reaped)
      ensures r.None? ==> procs == old(procs) && nextPid == old(nextPid)
      ensures r.Some? ==>
                && 1 <= r.value < |procs| == |old(procs)| && old(procs)[r.value].state == Unused && nextPid == old(nextPid) + 1
                && procs == old(procs)[r.value := Pcb(old(nextPid), parent, Embryo, 0, None)]
                && forall j :: 0 <= j < r.value ==> old(procs)[j].state != Unused
      ensures r.None? <==> !memOk || forall j :: 0 <= j < |old(procs)| ==> old(procs)[j].state != Unused
    {
      hide HasParent, Waiters, Log, Paired, Active;
      for i := 0 to |procs|
        invariant procs == old(procs) && nextPid == old(nextPid) && waits == old(waits) && exits == old(exits) && reaped == old(reaped)
        invariant Valid() && forall j :: 0 <= j < i ==> procs[j].state != Unused
      {
        if procs[i].state != Unused {
          continue;
        }
        if !memOk {
          return None;
        }
        Allocated(procs, sched.threads, nextPid, waits, exits, reaped, i, parent);
        procs := procs[i := Pcb(nextPid, parent, Embryo, 0, None)];
        nextPid := nextPid + 1;
        return Some(i);
      }
      return None;
    }

    /** `process_destroy` of a child that could not be completed. */
    method Discard(i: nat, ghost ps: Procs)
      requires sched.Valid() && ThreadsKnown() && Sound(procs, sched.threads, nextPid, waits, exits, reaped)
      requires 1 <= i < |ps| == |procs| && ps[i].state == Unused && (forall k :: 0 <= k < |ps| ==> ps[k].state != Embryo)
      requires procs == ps[i := procs[i]] && procs[i].state == Embryo && procs[i].pid == nextPid - 1
      requires forall k :: 0 <= k < |procs| && procs[k].state == Blocked ==> procs[k].pid != procs[i].ppid
      modifies this
      ensures Valid() && SameProcs(ps, procs) && nextPid == old(nextPid)
      ensures waits == old(waits) && exits == old(exits) && reaped == old(reaped)
    {
      hide Waiters, Log, Paired, HasParent;
      assert forall k :: 0 <= k < |procs| && InUse(procs[k]) ==> procs[k].ppid != procs[i].pid;
      Dropped(procs, sched.threads, nextPid, waits, exits, reaped, i);
      procs := procs[i := procs[i].(state := Unused, pid := -1)];
    }

    /** The common end of fork and spawn: memory copied or loaded, kernel stack, thread. */
    method Finish(i: nat, loadOk: bool, stackOk: bool, ghost ps: Procs) returns (ok: bool)
      requires sched.Valid() && ThreadsKnown() && Sound(procs, sched.threads, nextPid, waits, exits, reaped)
      requires 1 <= i < |ps| == |procs| && ps[i].state == Unused && (forall k :: 0 <= k < |ps| ==> ps[k].state != Embryo)
      requires procs == ps[i := procs[i]] && procs[i].state == Embryo && procs[i].pid == nextPid - 1
      requires forall k :: 0 <= k < |procs| && procs[k].state == Blocked ==> procs[k].pid != procs[i].ppid
      modifies this, sched
      ensures Valid() && nextPid == old(nextPid)
      ensures waits == old(waits) && exits == old(exits) && reaped == old(reaped)
      ensures ok <==> loadOk && stackOk && old(sched.nextTid) < S.MAX_THREADS
      ensures !ok ==> SameProcs(ps, procs) && sched.threads == old(sched.threads)
      ensures ok ==> procs == ps[i := old(procs)[i].(state := Ready, thread := procs[i].thread)] && procs[i].thread.Some?
      ensures sched.current == old(sched.current) && sched.threads[sched.current].state == old(sched.threads[sched.current].state)
      ensures sched.threads[sched.current].proc == old(sched.threads[sched.current].proc)
    {
      hide Waiters, Log, Paired, Tree;
      if !loadOk || !stackOk {
        Discard(i, ps);
        return false;
      }
      ghost var ths, ring := sched.threads, sched.ring;
      var t := sched.Adopt(i);
      if t.None? {
        Discard(i, ps);
        return false;
      }
      Started(procs, ths, sched.threads, ring, sched.ring, nextPid, waits, exits, reaped, i, t.value);
      procs := procs[i := procs[i].(state := Ready, thread := Some(t.value))];
      return true;
    }

    /** `process_fork_current`, the part that concerns the process table. */
    method Fork(i: nat, memOk: bool, loadOk: bool, stackOk: bool) returns (r: int)
      requires Valid() && Runs(i)
      modifies this, sched
      ensures Valid() && Runs(i) && exits == old(exits) && reaped == old(reaped) && waits == old(waits)
      ensures r > 0 <==> old(procs)[i].pid != 0 && memOk && loadOk && stackOk && SlotLeft(old(procs)) && old(sched.nextTid) < S.MAX_THREADS
      ensures r <= 0 ==> SameProcs(old(procs), procs)
      ensures r > 0 ==>
                && r == old(nextPid) && nextPid == old(nextPid) + 1
                && exists c :: 0 <= c < |procs| && NewChild(old(procs), procs, c, r, old(procs)[i].pid)
    {
      RunningProcess(i);
      var pid := procs[i].pid;
      if pid == 0 {
        return -1;
      }
      r := Spawn(i, memOk, loadOk, stackOk);
    }

    /** A child of process `i`: spawned by the kernel, or forked. */
    method Spawn(i: nat, memOk: bool, loadOk: bool, stackOk: bool) returns (r: int)
      requires Valid() && Runs(i)
      modifies this, sched
      ensures Valid() && Runs(i) && exits == old(exits) && reaped == old(reaped) && waits == old(waits)
      ensures r > 0 <==> memOk && loadOk && stackOk && SlotLeft(old(procs)) && old(sched.nextTid) < S.MAX_THREADS
      ensures r <= 0 ==> SameProcs(old(procs), procs)
      ensures r > 0 ==>
                && r == old(nextPid) && nextPid == old(nextPid) + 1
                && exists c :: 0 <= c < |procs| && NewChild(old(procs), procs, c, r, old(procs)[i].pid)
    {
      hide Tree, Waiters, Log, Paired, Active;
      RunningProcess(i);
      var pid := procs[i].pid;
      var c := Alloc(pid, memOk);
      if c.None? {
        return -12;
      }
      ghost var ps := procs;
      NotBlocked(old(procs), old(nextPid), i);
      r := procs[c.value].pid;
      var ok := Finish(c.value, loadOk, stackOk, old(procs));
      if !ok {
        return -12;
      }
      assert NewChild(old(procs), procs, c.value, r, pid);
    }

    /** `process_try_reap`: takes the status of the first exited matching child, once and for
        all; 0 when there is only a running one, an error when there is none. */
    method TryReap(parent: int, pid: int) returns (r: int, status: int)
      requires Valid()
      modifies this
      ensures Valid() && nextPid == old(nextPid) && waits == old(waits) && exits == old(exits)
      ensures r > 0 ==>
                && r !in old(reaped) && r in exits && exits[r] == status && reaped == old(reaped)[r := status]
                && exists i :: 0 <= i < |procs| == |old(procs)| && ReapedAt(old(procs), procs, i, parent, pid, r, status)
      ensures r <= 0 ==> procs == old(procs) && reaped == old(reaped)
      ensures r == 0 ==> exists i :: 0 <= i < |procs| && Child(procs[i], parent, pid) && Alive(procs[i])
      ensures r <= 0 ==> forall i :: 0 <= i < |procs| && Child(procs[i], parent, pid) ==> procs[i].state != Zombie
      ensures r < 0 ==> r == NO_CHILD && forall i :: 0 <= i < |procs| ==> !Child(procs[i], parent, pid)
    {
      hide Tree, Waiters, Log, Paired;
      var any := false;
      for i := 0 to |procs|
        invariant Valid() && procs == old(procs) && reaped == old(reaped) && nextPid == old(nextPid) && waits == old(waits) && exits == old(exits)
        invariant forall j :: 0 <= j < i && Child(procs[j], parent, pid) ==> procs[j].state != Zombie
        invariant any <==> exists j :: 0 <= j < i && Child(procs[j], parent, pid)
      {
        var c := procs[i];
        if !InUse(c) || c.ppid != parent || (pid != -1 && c.pid != pid) {
          continue;
        }
        any := true;
        if c.state != Zombie {
          continue;
        }
        r, status := c.pid, c.status;
        Reapable(procs, nextPid, exits, reaped, i);
        Dropped(procs, sched.threads, nextPid, waits, exits, reaped, i);
        procs := procs[i := c.(state := Unused, pid := -1)];
        reaped := reaped[r := status];
        assert ReapedAt(old(procs), procs, i, parent, pid, r, status);
        return;
      }
      if any {
        return 0, 0;
      }
      return NO_CHILD, 0;
    }

    /** The process of the running thread blocks until a child exits. */
    method Block(i: nat, w: int)
      requires Valid() && Runs(i) && sched.current != sched.idle
      requires exists k :: 0 <= k < |procs| && Awaited(procs, i, k, w)
      requires forall k :: 0 <= k < |procs| ==> !Missed(procs, i, k, w)
      modifies this, sched
      ensures Valid() && sched.current == old(sched.current) && sched.active == old(sched.active)
      ensures procs == old(procs)[i := old(procs)[i].(state := Blocked)] && waits == old(waits)[old(procs)[i].pid := w]
      ensures nextPid == old(nextPid) && exits == old(exits) && reaped == old(reaped)
      ensures sched.threads == old(sched.threads)[sched.current := old(sched.threads[sched.current]).(state := S.Blocked)]
    {
      hide Tree, Waiters, Log, Paired, Awaited, Missed;
      RunningProcess(i);
      ghost var ths := sched.threads;
      StateTree(procs, nextPid, i, Blocked);
      BlockWaiters(procs, nextPid, waits, i, w);
      assert Log(procs[i := procs[i].(state := Blocked)], exits, reaped, nextPid) by { StateLog(procs, exits, reaped, nextPid, i, Blocked); }
      waits := waits[procs[i].pid := w];
      procs := procs[i := procs[i].(state := Blocked)];
      sched.Stop(S.Blocked);
      PairedChange(old(procs), ths, procs, sched.threads, i);
    }

    /** The scheduler would not switch: the process goes on. */
    method Unblock(i: nat)
      requires Valid() && i < |procs| && procs[i].state == Blocked && procs[i].thread == Some(sched.current)
      modifies this, sched`threads
      ensures Valid() && procs == old(procs)[i := old(procs)[i].(state := Running)]
      ensures nextPid == old(nextPid) && exits == old(exits) && reaped == old(reaped)
    {
      hide Tree, Waiters, Log, Paired;
      ghost var ths := sched.threads;
      PairIn(procs, ths, i);
      StateTree(procs, nextPid, i, Running);
      UnblockWaiters(procs, waits, i, Running);
      assert Log(procs[i := procs[i].(state := Running)], exits, reaped, nextPid) by { StateLog(procs, exits, reaped, nextPid, i, Running); }
      procs := procs[i := procs[i].(state := Running)];
      sched.Resume();
      PairedChange(old(procs), ths, procs, sched.threads, i);
    }

    /** `process_wait_current`. */
    method Wait(i: nat, pid: int) returns (r: int, status: int)
      requires Valid() && Runs(i) && sched.current != sched.idle
      modifies this, sched
      ensures Valid() && nextPid == old(nextPid) && exits == old(exits)
      ensures r > 0 ==> r !in old(reaped) && r in exits && exits[r] == status && reaped == old(reaped)[r := status]
      ensures r > 0 ==> exists k :: 0 <= k < |old(procs)| && ReapedAt(old(procs), procs, k, old(procs)[i].pid, pid, r, status)
      ensures r <= 0 ==> reaped == old(reaped)
      ensures r < 0 ==> procs == old(procs) && forall k :: 0 <= k < |procs| ==> !Child(procs[k], procs[i].pid, pid)
      ensures r == 0 ==> procs == old(procs)[i := old(procs)[i].(state := if sched.active then Blocked else Running)]
      ensures r == 0 ==> forall k :: 0 <= k < |old(procs)| && Child(old(procs)[k], old(procs)[i].pid, pid) ==> old(procs)[k].state != Zombie
      ensures r == 0 ==> exists k :: 0 <= k < |old(procs)| && Child(old(procs)[k], old(procs)[i].pid, pid) && Alive(old(procs)[k])
    {
      hide Tree, Waiters, Log, Paired;
      RunningProcess(i);
      r, status := TryReap(procs[i].pid, pid);
      if r != 0 {
        return;
      }
      assert exists k :: 0 <= k < |procs| && Awaited(procs, i, k, pid) by {
        ghost var k :| 0 <= k < |procs| && Child(procs[k], procs[i].pid, pid) && Alive(procs[k]);
        assert Awaited(procs, i, k, pid);
      }
      assert forall k :: 0 <= k < |procs| && Missed(procs, i, k, pid) ==> Child(procs[k], procs[i].pid, pid);
      var me := sched.current;
      Block(i, pid);
      Timer();
      assert sched.threads[me].state == S.Blocked;
      if sched.current == me {
        Unblock(i);
      }
    }

    /** Children of `from` are handed to `to`. */
    method Reparent(from: int, to: int)
      modifies this`procs
      ensures procs == Reparented(old(procs), from, to)
    {
      for k := 0 to |procs|
        invariant |procs| == |old(procs)|
        invariant forall j :: 0 <= j < |procs| ==> procs[j] == if j < k then Reparented(old(procs), from, to)[j] else old(procs)[j]
      {
        if InUse(procs[k]) && procs[k].ppid == from {
          procs := procs[k := procs[k].(ppid := to)];
        }
      }
    }

    /** `process_exit_current`: the process becomes a zombie, its parent inherits its children
        and is woken.  The kernel process is refused. */
    method Exit(i: nat, status: int) returns (ok: bool)
      requires Valid() && Runs(i) && sched.current != sched.idle
      modifies this, sched
      ensures Valid() && nextPid == old(nextPid) && reaped == old(reaped)
      ensures ok <==> old(procs)[i].pid != 0
      ensures !ok ==> procs == old(procs) && exits == old(exits) && sched.threads == old(sched.threads) && sched.ring == old(sched.ring)
      ensures ok ==>
                && old(procs)[i].pid !in old(exits) && exits == old(exits)[old(procs)[i].pid := status]
                && exists g :: 0 <= g < |old(procs)| && Alive(old(procs)[g]) && old(procs)[g].pid == old(procs)[i].ppid && procs == Exited(old(procs), i, g, status)
    {
      hide Tree, Waiters, Log, Paired, Exited, Reparented;
      RunningProcess(i);
      if procs[i].pid == 0 {
        return false;
      }
      ghost var ps, ths, pid := procs, sched.threads, procs[i].pid;
      var g := Zombify(i, status);
      ExitedLog(ps, exits, reaped, nextPid, i, g, status) by { TreePids(ps, nextPid); }
      ghost var quiet := procs;
      WakeParent(i, g, status, ps);
      ExitedIs(ps, i, g, status, quiet, procs);
      exits := exits[pid := status];
      sched.Stop(S.Exited);
      ExitedPaired(ps, ths, i, g, status, sched.threads);
      NoEmbryo(ps, i, g, status);
      Timer();
      return true;
    }

    /** The exiting process becomes a zombie and gives its children away; finds its parent. */
    method Zombify(i: nat, status: int) returns (g: nat)
      requires Valid() && Runs(i) && procs[i].pid != 0
      modifies this`procs
      ensures 1 <= i && g < |procs| == |old(procs)| && g != i && Alive(old(procs)[g]) && old(procs)[g].pid == old(procs)[i].ppid
      ensures procs == Reparented(old(procs)[i := old(procs)[i].(state := Zombie, status := status)], old(procs)[i].pid, old(procs)[i].ppid)
      ensures Tree(Exited(old(procs), i, g, status), nextPid) && Waiters(Exited(old(procs), i, g, status), waits)
    {
      hide Tree, Waiters, Log, Paired, Exited, Reparented;
      RunningProcess(i);
      ghost var ps := procs;
      var pid, ppid := procs[i].pid, procs[i].ppid;
      ghost var g0 := ParentOf(ps, nextPid, i);
      procs := procs[i := procs[i].(state := Zombie, status := status)];
      Reparent(pid, ppid);
      var parent := Get(ppid);
      FoundParent(ps, nextPid, i, g0, status, parent);
      g := parent.value;
      ExitedTree(ps, nextPid, i, g, status);
      ExitedWaiters(ps, nextPid, waits, i, g, status);
    }

    /** A parent blocked in wait becomes ready, with its thread. */
    method WakeParent(i: nat, g: nat, status: int, ghost ps: Procs)
      requires sched.Valid() && Paired(ps, sched.threads) && i < |ps| && g < |ps| && g != i && Alive(ps[g]) && ps[g].state != Embryo && ps[i].state in {Ready, Running}
      requires procs == Reparented(ps[i := ps[i].(state := Zombie, status := status)], ps[i].pid, ps[i].ppid)
      modifies this`procs, sched`threads
      ensures sched.Valid() && procs == if old(procs)[g].state == Blocked then old(procs)[g := old(procs)[g].(state := Ready)] else old(procs)
      ensures ps[g].thread.Some? && ps[g].thread.value < |sched.threads|
      ensures var u := ps[g].thread.value;
              sched.threads == if ps[g].state == Blocked then old(sched.threads)[u := old(sched.threads)[u].(state := S.Ready)] else old(sched.threads)
    {
      PairIn(ps, sched.threads, g);
      if procs[g].state == Blocked {
        procs := procs[g := procs[g].(state := Ready)];
        sched.Wake(procs[g].thread.value);
      }
    }
  }

  lemma TreePids(ps: Procs, nextPid: int)
    requires Tree(ps, nextPid)
    ensures PidsOk(ps, nextPid)
  {
  }

  lemma NoEmbryo(ps: Procs, i: nat, g: nat, status: int)
    requires i < |ps| && g < |ps| && forall k :: 0 <= k < |ps| ==> ps[k].state != Embryo
    ensures forall k :: 0 <= k < |ps| ==> Exited(ps, i, g, status)[k].state != Embryo && Exited(ps, i, g, status)[k].thread == ps[k].thread
  {
  }

  lemma ParentOf(ps: Procs, nextPid: int, i: nat) returns (g: nat)
    requires Tree(ps, nextPid) && i < |ps| && InUse(ps[i]) && ps[i].pid != 0
    ensures 1 <= i && g < |ps| && Alive(ps[g]) && ps[g].pid == ps[i].ppid && g != i
  {
    assert HasParent(ps, i);
    g :| 0 <= g < |ps| && Alive(ps[g]) && ps[g].pid == ps[i].ppid;
  }

  /** The lookup finds the parent, which is alive. */
  lemma FoundParent(ps: Procs, nextPid: int, i: nat, g: nat, status: int, r: Option<nat>)
    requires Tree(ps, nextPid) && 1 <= i < |ps| && InUse(ps[i]) && g < |ps| && Alive(ps[g]) && ps[g].pid == ps[i].ppid && g != i
    requires var qs := Reparented(ps[i := ps[i].(state := Zombie, status := status)], ps[i].pid, ps[i].ppid);
             && (r.Some? ==> r.value < |qs| && InUse(qs[r.value]) && qs[r.value].pid == ps[i].ppid)
             && (r.None? ==> forall k :: 0 <= k < |qs| && InUse(qs[k]) ==> qs[k].pid != ps[i].ppid)
    ensures r == Some(g)
  {
    hide HasParent;
    var qs := Reparented(ps[i := ps[i].(state := Zombie, status := status)], ps[i].pid, ps[i].ppid);
    assert InUse(qs[g]) && qs[g].pid == ps[i].ppid;
    assert forall k :: 0 <= k < |ps| && k != g && InUse(qs[k]) ==> qs[k].pid != ps[g].pid;
  }

  lemma ExitedIs(ps: Procs, i: nat, g: nat, status: int, qs: Procs, rs: Procs)
    requires i < |ps| && g < |ps| && qs == Reparented(ps[i := ps[i].(state := Zombie, status := status)], ps[i].pid, ps[i].ppid)
    requires rs == if qs[g].state == Blocked then qs[g := qs[g].(state := Ready)] else qs
    ensures rs == Exited(ps, i, g, status)
  {
  }

  lemma ExitedPaired(ps: Procs, ths: S.Threads, i: nat, g: nat, status: int, ths': S.Threads)
    requires Paired(ps, ths) && i < |ps| && g < |ps| && i != g && ps[i].state in {Ready, Running} && Alive(ps[g]) && ps[g].state != Embryo
    requires ps[i].thread.Some? && ps[i].thread.value < |ths| && ps[g].thread.Some? && ps[g].thread.value < |ths| == |ths'|
    requires
      var t, u := ps[i].thread.value, ps[g].thread.value;
      var mid := if ps[g].state == Blocked then ths[u := ths[u].(state := S.Ready)] else ths;
      ths' == mid[t := mid[t].(state := S.Exited)]
    ensures Paired(Exited(ps, i, g, status), ths')
  {
    var t, u := ps[i].thread.value, ps[g].thread.value;
    var mid := if ps[g].state == Blocked then ths[u := ths[u].(state := S.Ready)] else ths;
    OtherThread(ps, ths, i, g);
    assert PairAt(ps, ths, i) && PairAt(ps, ths, g);
    var ms := if ps[g].state == Blocked then ps[g := ps[g].(state := Ready)] else ps;
    PairedChange(ps, ths, ms, mid, g);
    PairedChange(ms, mid, Exited(ps, i, g, status), ths', i);
  }

  const NO_CHILD: int := -10

  predicate Child(p: Pcb, parent: int, pid: int) {
    InUse(p) && p.ppid == parent && (pid == -1 || p.pid == pid)
  }

  /** Slot `i` held the first exited matching child and is free now. */
  predicate ReapedAt(ps: Procs, ps': Procs, i: nat, parent: int, pid: int, r: int, status: int)
    requires i < |ps|
  {
    && Child(ps[i], parent, pid) && ps[i].state == Zombie && ps[i].pid == r && ps[i].status == status
    && (forall j :: 0 <= j < i && Child(ps[j], parent, pid) ==> ps[j].state != Zombie)
    && ps' == ps[i := ps[i].(state := Unused, pid := -1)]
  }

  lemma Reapable(ps: Procs, nextPid: int, exits: map<int, int>, reaped: map<int, int>, i: nat)
    requires Tree(ps, nextPid) && Log(ps, exits, reaped, nextPid) && i < |ps| && ps[i].state == Zombie
    ensures 1 <= i && ps[i].pid > 0 && ps[i].pid !in reaped && ps[i].pid in exits && exits[ps[i].pid] == ps[i].status
    ensures forall k :: 0 <= k < |ps| && InUse(ps[k]) ==> ps[k].ppid != ps[i].pid
  {
    hide HasParent;
    forall k | 0 <= k < |ps| && InUse(ps[k])
      ensures ps[k].ppid != ps[i].pid
    {
      ZombiesChildless(ps, nextPid, i, k);
    }
  }

  lemma StateLog(ps: Procs, exits: map<int, int>, reaped: map<int, int>, nextPid: int, i: nat, st: ProcState)
    requires Log(ps, exits, reaped, nextPid) && i < |ps| && Alive(ps[i]) && st in {Ready, Running, Blocked}
    ensures Log(ps[i := ps[i].(state := st)], exits, reaped, nextPid)
  {
  }

  lemma UnblockWaiters(ps: Procs, waits: map<int, int>, i: nat, st: ProcState)
    requires Waiters(ps, waits) && i < |ps| && Alive(ps[i]) && st in {Ready, Running}
    ensures Waiters(ps[i := ps[i].(state := st)], waits)
  {
    hide Waiters;
    WaitersKept(ps, ps[i := ps[i].(state := st)], waits);
  }

  lemma PairIn(ps: Procs, ths: S.Threads, i: nat)
    requires Paired(ps, ths) && i < |ps|
    ensures PairAt(ps, ths, i)
  {
  }

  ghost predicate SlotLeft(ps: Procs) {
    exists j :: 0 <= j < |ps| && ps[j].state == Unused
  }

  /** Slot `c`, unused before and the first such, now holds a runnable child `pid` of `ppid`; nothing else changed. */
  ghost predicate NewChild(ps: Procs, ps': Procs, c: nat, pid: int, ppid: int) {
    && c < |ps| && ps[c].state == Unused && (forall j :: 0 <= j < c ==> ps[j].state != Unused)
    && exists t :: ps' == ps[c := Pcb(pid, ppid, Ready, 0, Some(t))]
  }

  lemma NotBlocked(ps: Procs, nextPid: int, i: nat)
    requires Tree(ps, nextPid) && i < |ps| && Alive(ps[i]) && ps[i].state != Blocked
    ensures nextPid > 0 && forall k :: 0 <= k < |ps| && ps[k].state == Blocked ==> ps[k].pid != ps[i].pid
  {
    hide HasParent;
  }

  // -----------------------------------------------------------------------------
  // Whole runs

  /** What can happen next: an interrupt, a system call of the running process, or the kernel
      reaping its own children. */
  datatype Event = Timer | Fork(mem: bool, load: bool, stack: bool) | Spawn(mem: bool, load: bool, stack: bool)
                 | Exit(status: int) | Wait(pid: int) | KernelReap

  /** The table and the scheduler at one moment; `caller` is the process whose thread runs. */
  datatype State = State(procs: Procs, caller: Option<nat>, nextPid: int, nextTid: nat, exits: map<int, int>, reaped: map<int, int>,
                         active: bool, view: S.View)

  /** The table is as it was. */
  ghost predicate Idle(a: State, b: State) {
    b.procs == a.procs && b.nextPid == a.nextPid && b.exits == a.exits && b.reaped == a.reaped
  }

  /** A child of process `i` is made, exactly when memory, stack, a slot and a thread can be had. */
  ghost predicate Spawned(a: State, b: State, i: nat, ok: bool)
    requires i < |a.procs|
  {
    && b.exits == a.exits && b.reaped == a.reaped
    && if ok && SlotLeft(a.procs) && a.nextTid < S.MAX_THREADS
       then b.nextPid == a.nextPid + 1 && exists c: nat :: NewChild(a.procs, b.procs, c, a.nextPid, a.procs[i].pid)
       else SameProcs(a.procs, b.procs)
  }

  /** The first exited matching child of `parent` is reaped, its status handed out; without one the
      table is as it was. */
  ghost predicate Reaping(a: State, b: State, parent: int, want: int, pid: int, status: int) {
    && b.nextPid == a.nextPid && b.exits == a.exits
    && if pid > 0
       then b.reaped == a.reaped[pid := status] && exists k :: 0 <= k < |a.procs| && ReapedAt(a.procs, b.procs, k, parent, want, pid, status)
       else b.reaped == a.reaped && forall k :: 0 <= k < |a.procs| && Child(a.procs[k], parent, want) ==> a.procs[k].state != Zombie
  }

  /** What each event does, and the status it hands out.  Calls need a running process. */
  ghost predicate Step(e: Event, a: State, b: State, pid: int, status: int) {
    match e
    case Timer => Idle(a, b) && pid == 0 && Turned(a, b)
    case KernelReap => Reaping(a, b, 0, -1, pid, status) && (pid <= 0 ==> b.procs == a.procs)
    case Fork(mem, load, stack) =>
      if Calls(a) then Spawned(a, b, a.caller.value, a.procs[a.caller.value].pid != 0 && mem && load && stack) && pid == 0 else Idle(a, b) && pid == 0 && b.view == a.view
    case Spawn(mem, load, stack) => if Calls(a) then Spawned(a, b, a.caller.value, mem && load && stack) && pid == 0 else Idle(a, b) && pid == 0 && b.view == a.view
    case Exit(st) =>
      if Calls(a) && a.procs[a.caller.value].pid != 0 then
        var i := a.caller.value;
        && pid == 0 && b.nextPid == a.nextPid && b.reaped == a.reaped && b.exits == a.exits[a.procs[i].pid := st]
        && exists g :: 0 <= g < |a.procs| && Alive(a.procs[g]) && a.procs[g].pid == a.procs[i].ppid && b.procs == Exited(a.procs, i, g, st)
      else Idle(a, b) && pid == 0 && b.view == a.view
    case Wait(want) =>
      if Calls(a) then
        var i := a.caller.value;
        && Reaping(a, b, a.procs[i].pid, want, pid, status)
        && (pid <= 0 ==>
              b.procs == if exists k :: 0 <= k < |a.procs| && Child(a.procs[k], a.procs[i].pid, want)
                         then a.procs[i := a.procs[i].(state := if b.active then Blocked else Running)] else a.procs)
      else Idle(a, b) && pid == 0 && b.view == a.view
  }

  /** The scheduler moves on to the first ready thread, if it is active. */
  ghost predicate Turned(a: State, b: State) {
    if a.active then S.InTable(a.view.ths, a.view.ring) && exists k: nat :: S.Ticked(a.view.ths, a.view.ring, b.view.ths, b.view.ring, k)
    else b.view == a.view
  }

  /** Some process makes the call. */
  predicate Calls(a: State) { a.caller.Some? && a.caller.value < |a.procs| }

  /** Serves one event; returns the status handed out, if any. */
  method Serve(k: Table, e: Event) returns (pid: int, status: int)
    requires k.Valid()
    modifies k, k.sched
    ensures k.Valid() && Step(e, old(k.Now()), k.Now(), pid, status)
    ensures forall p :: p in old(k.exits) ==> p in k.exits && k.exits[p] == old(k.exits)[p]
    ensures if pid > 0 then pid !in old(k.reaped) && pid in old(k.exits) && old(k.exits)[pid] == status && k.reaped == old(k.reaped)[pid := status]
            else k.reaped == old(k.reaped)
  {
    hide Tree, Waiters, Log, Paired, Sound, Exited, NewChild, SameProcs, SlotLeft, ReapedAt, Child;
    pid, status := 0, 0;
    if e.Timer? {
      k.Timer();
      return;
    }
    if e.KernelReap? {
      pid, status := k.TryReap(0, -1);
      if pid < 0 {
        pid := 0;
      }
      return;
    }
    var t := k.sched.threads[k.sched.current];
    if t.state != S.Running || t.proc.None? || t.proc.value >= |k.procs| || k.sched.current == k.sched.idle {
      return;
    }
    var i := t.proc.value;
    match e {
      case Fork(mem, load, stack) =>
        var _ := k.Fork(i, mem, load, stack);
      case Spawn(mem, load, stack) =>
        var _ := k.Spawn(i, mem, load, stack);
      case Exit(st) =>
        var _ := k.Exit(i, st);
      case Wait(p) =>
        pid, status := k.Wait(i, p);
        if pid < 0 {
          pid := 0;
        }
      case Timer =>
      case KernelReap =>
    }
  }

  /** Any run from boot is a chain of such steps, in whose states the invariant holds; the statuses
      handed out are those of the processes reaped, one for each, and the one it left.  `trace[i]` is
      the state before event `i`, `given[i]` the process whose status event `i` handed out, or 0. */
  method Run(k: Table, events: seq<Event>) returns (given: seq<int>, statuses: seq<int>, ghost trace: seq<State>)
    requires k.Valid() && k.exits == map[] && k.reaped == map[]
    modifies k, k.sched
    ensures k.Valid() && |given| == |statuses| == |events| && |trace| == |events| + 1
    ensures trace[0] == old(k.Now()) && trace[|events|] == k.Now()
    ensures forall i :: 0 <= i < |events| ==> Step(events[i], trace[i], trace[i + 1], given[i], statuses[i])
    ensures forall i, j :: 0 <= i < j < |given| && given[i] > 0 ==> given[i] != given[j]
    ensures forall i :: 0 <= i < |given| && given[i] > 0 ==> given[i] in k.exits && k.exits[given[i]] == statuses[i]
    ensures forall p :: p in k.reaped <==> p > 0 && p in given
  {
    hide Tree, Waiters, Log, Paired, Sound, Table.Valid, Step, Table.Caller;
    given, statuses, trace := [], [], [k.Now()];
    for n := 0 to |events|
      invariant k.Valid() && |given| == |statuses| == n && |trace| == n + 1 && trace[0] == old(k.Now()) && trace[n] == k.Now()
      invariant forall i :: 0 <= i < n ==> Step(events[i], trace[i], trace[i + 1], given[i], statuses[i])
      invariant forall i, j :: 0 <= i < j < |given| && given[i] > 0 ==> given[i] != given[j]
      invariant forall i :: 0 <= i < |given| && given[i] > 0 ==> given[i] in k.exits && k.exits[given[i]] == statuses[i]
      invariant forall p :: p in k.reaped <==> p > 0 && p in given
    {
      ghost var reaped, exits := k.reaped, k.exits;
      var pid, status := Serve(k, events[n]);
      Handed(given, statuses, reaped, exits, k.reaped, k.exits, pid, status);
      given, statuses, trace := given + [pid], statuses + [status], trace + [k.Now()];
    }
  }

  lemma Handed(given: seq<int>, statuses: seq<int>, reaped: map<int, int>, exits: map<int, int>, reaped': map<int, int>, exits': map<int, int>, pid: int, status: int)
    requires |given| == |statuses| && (forall p :: p in reaped <==> p > 0 && p in given)
    requires forall i, j :: 0 <= i < j < |given| && given[i] > 0 ==> given[i] != given[j]
    requires forall i :: 0 <= i < |given| && given[i] > 0 ==> given[i] in exits && exits[given[i]] == statuses[i]
    requires forall p :: p in exits ==> p in exits' && exits'[p] == exits[p]
    requires if pid > 0 then pid !in reaped && pid in exits && exits[pid] == status && reaped' == reaped[pid := status] else reaped' == reaped
    ensures var given', statuses' := given + [pid], statuses + [status];
            && (forall i, j :: 0 <= i < j < |given'| && given'[i] > 0 ==> given'[i] != given'[j])
            && (forall i :: 0 <= i < |given'| && given'[i] > 0 ==> given'[i] in exits' && exits'[given'[i]] == statuses'[i])
            && (forall p :: p in reaped' <==> p > 0 && p in given')
  {
    var given', statuses' := given + [pid], statuses + [status];
    forall i, j | 0 <= i < j < |given'| && given'[i] > 0
      ensures given'[i] != given'[j]
    {
      assert given'[i] == given[i] && given[i] in given;
    }
    forall i | 0 <= i < |given'| && given'[i] > 0
      ensures given'[i] in exits' && exits'[given'[i]] == statuses'[i]
    {
      if i < |given| {
        assert given'[i] == given[i] && statuses'[i] == statuses[i];
      }
    }
  }
}
