/** The message queue of an IPC endpoint: a circular buffer that behaves as a bounded FIFO. */
module Mailbox {
  import opened Common

  const DEPTH: nat := 16

  datatype Message = Message(sender: int, tag: nat, data: seq<nat>)

  const OK: int := 0
  const FULL: int := -12
  const BADF: int := -9

  /** Slot `k` places after `head`. */
  function Slot(head: nat, k: nat): (s: nat)
    ensures s < DEPTH
  {
    (head + k) % DEPTH
  }

  lemma SlotsApart(head: nat, i: nat, j: nat)
    requires i < j < DEPTH
    ensures Slot(head, i) != Slot(head, j)
  {
    var a, b := (head + i) / DEPTH, (head + j) / DEPTH;
    assert head + i == DEPTH * a + Slot(head, i) && head + j == DEPTH * b + Slot(head, j);
  }

  lemma SlotNext(head: nat, k: nat)
    ensures Slot(Slot(head, 1), k) == Slot(head, k + 1)
  {
  }

  /** The `count` messages from `head` on. */
  function Window(q: seq<Message>, head: nat, count: nat): (s: seq<Message>)
    requires |q| == DEPTH
    ensures |s| == count
  {
    seq(count, k requires 0 <= k < count => q[Slot(head, k)])
  }

  lemma Pushed(q: seq<Message>, head: nat, count: nat, m: Message)
    requires |q| == DEPTH && count < DEPTH
    ensures Window(q[Slot(head, count) := m], head, count + 1) == Window(q, head, count) + [m]
    ensures (Slot(head, count) + 1) % DEPTH == Slot(head, count + 1)
  {
    hide Slot;
    forall k | 0 <= k < count
      ensures Slot(head, k) != Slot(head, count)
    {
      SlotsApart(head, k, count);
    }
    SlotStep(head, count);
  }

  lemma Popped(q: seq<Message>, head: nat, count: nat)
    requires |q| == DEPTH && head < DEPTH && 0 < count <= DEPTH
    ensures Window(q, Slot(head, 1), count - 1) == Window(q, head, count)[1..]
    ensures Window(q, head, count)[0] == q[head] && Slot(Slot(head, 1), count - 1) == Slot(head, count)
  {
    hide Slot;
    forall k: nat
      ensures Slot(Slot(head, 1), k) == Slot(head, k + 1)
    {
      SlotNext(head, k);
    }
    assert Slot(head, 0) == head by { SlotZero(head); }
  }

  lemma SlotStep(head: nat, k: nat)
    ensures (Slot(head, k) + 1) % DEPTH == Slot(head, k + 1)
  {
  }

  lemma SlotZero(head: nat)
    requires head < DEPTH
    ensures Slot(head, 0) == head
  {
  }

  class Endpoint {
    const queue: array<Message>
    var head: nat
    var tail: nat
    var count: nat
    var closed: bool
    ghost var accepted: seq<Message>    // every message ever taken in
    ghost var taken: seq<Message>       // every message ever handed out

    ghost predicate Shaped()
      reads this
    {
      queue.Length == DEPTH && head < DEPTH && tail < DEPTH && count <= DEPTH && tail == Slot(head, count)
    }

    ghost function Contents(): (s: seq<Message>)
      requires Shaped()
      reads this, queue
      ensures |s| == count
    {
      Window(queue[..], head, count)
    }

    /** Accepted is handed out plus waiting, in order. */
    ghost predicate Valid()
      reads this, queue
    {
      Shaped() && accepted == taken + Contents()
    }

    constructor (filler: Message)
      ensures Valid() && fresh(queue) && Contents() == [] && accepted == [] && taken == [] && !closed
    {
      queue := new Message[DEPTH](_ => filler);
      head, tail, count, closed := 0, 0, 0, false;
      accepted, taken := [], [];
    }

    /** `ipc_queue_enqueue`: at the back, unless full or closed. */
    method Enqueue(m: Message) returns (r: int)
      requires Valid()
      modifies this`tail, this`count, this`accepted, queue
      ensures Valid()
      ensures r == if |old(Contents())| == DEPTH then FULL else if closed then BADF else OK
      ensures Contents() == if r == OK then old(Contents()) + [m] else old(Contents())
      ensures accepted == if r == OK then old(accepted) + [m] else old(accepted)
    {
      hide Slot, Window;
      if count >= DEPTH {
        return FULL;
      }
      if closed {
        return BADF;
      }
      ghost var before := Contents();
      Pushed(queue[..], head, count, m);
      queue[tail] := m;
      tail := (tail + 1) % DEPTH;
      count := count + 1;
      accepted := accepted + [m];
      assert queue[..] == old(queue[..])[old(tail) := m];
      assert taken + (before + [m]) == (taken + before) + [m];
      return OK;
    }

    /** `ipc_queue_dequeue`: from the front, unless empty. */
    method Dequeue() returns (r: Option<Message>)
      requires Valid()
      modifies this`head, this`count, this`taken
      ensures Valid()
      ensures r == if old(Contents()) == [] then None else Some(old(Contents())[0])
      ensures Contents() == if r.Some? then old(Contents())[1..] else old(Contents())
      ensures taken == if r.Some? then old(taken) + [r.value] else old(taken)
    {
      hide Window;
      if count == 0 {
        return None;
      }
      ghost var before := Contents();
      Popped(queue[..], head, count);
      r := Some(queue[head]);
      head := (head + 1) % DEPTH;
      count := count - 1;
      taken := taken + [r.value];
      assert before == [r.value] + before[1..];
    }
  }

  datatype Event = Send(m: Message) | Receive | Close

  /** An endpoint to its users: a bounded queue that can be closed. */
  datatype State = State(waiting: seq<Message>, closed: bool)

  datatype Reply = Sent(code: int) | Got(m: Option<Message>) | Shut

  function Answer(a: State, e: Event): Reply {
    match e
    case Send(_) => Sent(if |a.waiting| == DEPTH then FULL else if a.closed then BADF else OK)
    case Receive => Got(if a.waiting == [] then None else Some(a.waiting[0]))
    case Close => Shut
  }

  function After(a: State, e: Event): State {
    match e
    case Send(m) => if |a.waiting| == DEPTH || a.closed then a else a.(waiting := a.waiting + [m])
    case Receive => if a.waiting == [] then a else a.(waiting := a.waiting[1..])
    case Close => a.(closed := true)
  }

  /** The queue an endpoint is after a sequence of events. */
  function Final(a: State, events: seq<Event>): State
    decreases |events|
  {
    if events == [] then a else After(Final(a, events[..|events| - 1]), events[|events| - 1])
  }

  method Serve(ep: Endpoint, e: Event) returns (r: Option<Message>, reply: Reply)
    requires ep.Valid()
    modifies ep, ep.queue
    ensures ep.Valid() && ep.taken == old(ep.taken) + (if r.Some? then [r.value] else [])
    ensures reply == Answer(State(old(ep.Contents()), old(ep.closed)), e) && (r.Some? <==> reply.Got? && reply.m.Some?) && (r.Some? ==> reply.m == r)
    ensures State(ep.Contents(), ep.closed) == After(State(old(ep.Contents()), old(ep.closed)), e)
    ensures old(ep.accepted) <= ep.accepted && |ep.accepted| <= |old(ep.accepted)| + 1
    ensures ep.closed == (old(ep.closed) || e.Close?)
    ensures ep.closed ==> ep.accepted == old(ep.accepted)
  {
    r := None;
    match e {
      case Send(m) =>
        var code := ep.Enqueue(m);
        reply := Sent(code);
      case Receive =>
        r := ep.Dequeue();
        reply := Got(r);
      case Close =>
        ep.closed := true;
        reply := Shut;
    }
  }

  /** Each event takes in at most one message, and none once a close has been served. */
  ghost predicate Logged(events: seq<Event>, logs: seq<seq<Message>>, n: nat)
    requires n <= |events| && |logs| == n + 1
  {
    && (forall k :: 0 <= k < n ==> logs[k] <= logs[k + 1] && |logs[k + 1]| <= |logs[k]| + 1)
    && (forall k, j :: 0 <= k < j <= n && events[k].Close? ==> logs[j] == logs[k])
  }

  lemma LoggedNext(events: seq<Event>, logs: seq<seq<Message>>, n: nat, now: seq<Message>)
    requires n < |events| && |logs| == n + 1 && Logged(events, logs, n)
    requires logs[n] <= now && |now| <= |logs[n]| + 1
    requires (exists k :: 0 <= k <= n && events[k].Close?) ==> now == logs[n]
    ensures Logged(events, logs + [now], n + 1)
  {
    var logs' := logs + [now];
    forall k, j | 0 <= k < j <= n + 1 && events[k].Close?
      ensures logs'[j] == logs'[k]
    {
      assert logs[n] == logs[k];
    }
  }

  /** Any run of an endpoint: it answers as the bounded queue does, what comes out is a prefix of what
      went in, in order, and from a close on nothing more goes in.  `logs[k]` is what had been
      accepted before event `k`. */
  method Run(ep: Endpoint, events: seq<Event>) returns (received: seq<Message>, replies: seq<Reply>, ghost logs: seq<seq<Message>>)
    requires ep.Valid()
    modifies ep, ep.queue
    ensures ep.Valid() && ep.taken == old(ep.taken) + received && ep.accepted == ep.taken + ep.Contents() && |ep.Contents()| <= DEPTH
    ensures |logs| == |events| + 1 && logs[0] == old(ep.accepted) && logs[|events|] == ep.accepted
    ensures Logged(events, logs, |events|)
    ensures |replies| == |events| && State(ep.Contents(), ep.closed) == Final(State(old(ep.Contents()), old(ep.closed)), events)
    ensures forall i :: 0 <= i < |events| ==> replies[i] == Answer(Final(State(old(ep.Contents()), old(ep.closed)), events[..i]), events[i])
    ensures old(ep.closed) ==> ep.accepted == old(ep.accepted)
  {
    hide Slot, Window, Logged, Answer, After, Final;
    received, replies, logs := [], [], [ep.accepted];
    ghost var a := State(ep.Contents(), ep.closed);
    assert Logged(events, logs, 0) by { NothingLogged(events, logs); }
    FinalNone(a);
    for i := 0 to |events|
      invariant ep.Valid() && ep.taken == old(ep.taken) + received
      invariant |logs| == i + 1 && logs[0] == old(ep.accepted) && logs[i] == ep.accepted && Logged(events, logs, i)
      invariant |replies| == i && State(ep.Contents(), ep.closed) == Final(a, events[..i])
      invariant forall j :: 0 <= j < i ==> replies[j] == Answer(Final(a, events[..j]), events[j])
      invariant (exists k :: 0 <= k < i && events[k].Close?) ==> ep.closed
      invariant old(ep.closed) ==> ep.closed && ep.accepted == old(ep.accepted)
    {
      var r, reply := Serve(ep, events[i]);
      FinalNext(a, events, i);
      replies := replies + [reply];
      if r.Some? {
        received := received + [r.value];
      }
      LoggedNext(events, logs, i, ep.accepted);
      logs := logs + [ep.accepted];
    }
    assert events[..|events|] == events;
  }

  lemma FinalNone(a: State)
    ensures Final(a, []) == a
  {
  }

  lemma FinalNext(a: State, events: seq<Event>, i: nat)
    requires i < |events|
    ensures Final(a, events[..i + 1]) == After(Final(a, events[..i]), events[i])
  {
    hide After;
    assert events[..i + 1][..i] == events[..i];
  }

  lemma NothingLogged(events: seq<Event>, logs: seq<seq<Message>>)
    requires |logs| == 1
    ensures Logged(events, logs, 0)
  {
  }
}
