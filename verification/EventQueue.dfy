/**
 * The bounded ring between the reactor and the dispatcher (routerd/src/event_queue.c): first the ring itself
 * and its critical sections, then the two calls as threads run them, as a state machine at the granularity of
 * the lock: entering, falling asleep (which releases the lock), being signalled, waking for no reason, timing
 * out and resuming are separate steps that any number of threads may interleave.
 */
module EventQueue {
  import opened Bytes

  const QSIZE: nat := 128

  datatype Message = Message(dst: seq<Byte>, data: seq<Byte>)

  // ---------------------------------------------------------------- the ring

  datatype Ring = Ring(slots: seq<Message>, head: nat, tail: nat)

  predicate RingValid(r: Ring) {
    |r.slots| == QSIZE && r.head < QSIZE && r.tail < QSIZE
  }

  function Count(r: Ring): (n: nat)
    requires RingValid(r)
    ensures n < QSIZE
  {
    (r.tail + QSIZE - r.head) % QSIZE
  }

  // The unread messages, oldest first.
  function Contents(r: Ring): (c: seq<Message>)
    requires RingValid(r)
    ensures |c| == Count(r)
  {
    seq(Count(r), i requires 0 <= i => r.slots[(r.head + i) % QSIZE])
  }

  predicate Full(r: Ring)
    requires RingValid(r)
  {
    (r.tail + 1) % QSIZE == r.head
  }

  predicate Empty(r: Ring) {
    r.head == r.tail
  }

  function Put(r: Ring, m: Message): (r': Ring)
    requires RingValid(r)
    ensures RingValid(r')
  {
    Ring(r.slots[r.tail := m], r.head, (r.tail + 1) % QSIZE)
  }

  function Take(r: Ring): (r': Ring)
    requires RingValid(r)
    ensures RingValid(r')
  {
    Ring(r.slots, (r.head + 1) % QSIZE, r.tail)
  }

  // The two tests on the indices mean what they should; one slot always stays unused.
  lemma RingTests(r: Ring)
    requires RingValid(r)
    ensures Full(r) <==> |Contents(r)| == 127
    ensures Empty(r) <==> Contents(r) == []
  {
  }

  // Enqueueing into a ring that is not full appends, and so overwrites nothing unread.
  lemma PutAppends(r: Ring, m: Message)
    requires RingValid(r) && !Full(r)
    ensures Contents(Put(r, m)) == Contents(r) + [m]
  {
    var r' := Put(r, m);
    assert Count(r') == Count(r) + 1;
    forall i | 0 <= i < Count(r) ensures Contents(r')[i] == Contents(r)[i] {
      assert (r.head + i) % QSIZE != r.tail;
    }
    assert (r.head + Count(r)) % QSIZE == r.tail;
  }

  // Dequeueing removes the oldest message.
  lemma TakeRemoves(r: Ring)
    requires RingValid(r) && !Empty(r)
    ensures Contents(r) == [r.slots[r.head]] + Contents(Take(r))
  {
    OneLess(r);
    forall i | 0 <= i < Count(r) - 1 ensures Contents(Take(r))[i] == Contents(r)[i + 1] {
      StepAround(r.head, i);
    }
  }

  lemma OneLess(r: Ring)
    requires RingValid(r) && !Empty(r)
    ensures Count(r) > 0 && Count(Take(r)) == Count(r) - 1
  {
  }

  lemma StepAround(head: nat, i: nat)
    requires head < QSIZE && i < QSIZE
    ensures ((head + 1) % QSIZE + i) % QSIZE == (head + (i + 1)) % QSIZE
  {
  }

  // ---------------------------------------------------------------- the critical sections

  class Queue {
    const slots: array<Message>
    var head: nat
    var tail: nat
    var dropCount: nat

    ghost predicate Valid()
      reads this, slots
    {
      slots.Length == QSIZE && head < QSIZE && tail < QSIZE
    }

    ghost function Value(): (r: Ring)
      requires Valid()
      reads this, slots
      ensures RingValid(r)
    {
      Ring(slots[..], head, tail)
    }

    constructor ()
      ensures Valid() && Empty(Value()) && dropCount == 0 && fresh(slots)
    {
      slots := new Message[QSIZE](_ => Message([], []));
      head, tail, dropCount := 0, 0, 0;
    }

    method IsFull() returns (full: bool)
      requires Valid()
      ensures full <==> |Contents(Value())| == QSIZE - 1
    {
      full := (tail + 1) % QSIZE == head;
    }

    // The end of queue_push, under the lock and with room.
    method Enqueue(m: Message)
      requires Valid() && !Full(Value())
      modifies this`tail, slots
      ensures Valid() && Value() == Put(old(Value()), m)
      ensures Contents(Value()) == old(Contents(Value())) + [m]
    {
      PutAppends(Value(), m);
      slots[tail] := m;
      tail := (tail + 1) % QSIZE;
      assert Value() == Put(old(Value()), m);
    }

    // The end of queue_pop, under the lock and with a message.
    method Dequeue() returns (m: Message)
      requires Valid() && !Empty(Value())
      modifies this`head
      ensures Valid() && Value() == Take(old(Value()))
      ensures old(Contents(Value())) == [m] + Contents(Value())
    {
      TakeRemoves(Value());
      m := slots[head];
      head := (head + 1) % QSIZE;
    }

    method CountDrop()
      requires Valid()
      modifies this`dropCount
      ensures Valid() && dropCount == old(dropCount) + 1 && Value() == old(Value())
    {
      dropCount := dropCount + 1;
    }
  }

  // ---------------------------------------------------------------- threads

  type Thread = nat

  // Where a thread is in queue_push or queue_pop. Ready and woken threads want the lock.
  datatype Pc =
    | Idle
    | PushReady(m: Message)    // called, not yet inside
    | PushAsleep(m: Message)   // in pthread_cond_timedwait on cond_not_full
    | PushWoken(m: Message)    // signalled or spuriously woken
    | PushExpired(m: Message)  // timed out
    | PopReady
    | PopAsleep                // in pthread_cond_wait on cond_not_empty
    | PopWoken

  // One finished push: its message, and whether it was accepted (returned 0) or dropped (returned -1).
  datatype Finished = Finished(m: Message, accepted: bool)

  datatype State = State(ring: Ring, drops: nat, pc: map<Thread, Pc>, finished: seq<Finished>, popped: seq<Message>)

  datatype Step =
    | CallPush(t: Thread, m: Message)
    | CallPop(t: Thread)
    | RunPush(t: Thread, signalled: set<Thread>)  // take the lock; sleep if full, else enqueue and signal
    | RunPop(t: Thread, signalled: set<Thread>)   // take the lock; sleep if empty, else dequeue and signal
    | Expire(t: Thread)                           // the deadline passes, perhaps just behind a signal
    | Drop(t: Thread)                             // take the lock after the deadline: count and give up
    | WakeSpuriously(t: Thread)

  // The two condition variables, named after who waits on them.
  datatype Side = Pushers | Poppers

  predicate IsAsleep(p: Pc, side: Side) {
    if side.Pushers? then p.PushAsleep? else p.PopAsleep?
  }

  predicate IsWoken(p: Pc, side: Side) {
    if side.Pushers? then p.PushWoken? else p.PopWoken?
  }

  function Asleep(pc: map<Thread, Pc>, side: Side): set<Thread> {
    set t | t in pc && IsAsleep(pc[t], side)
  }

  function Woken(pc: map<Thread, Pc>, side: Side): set<Thread> {
    set t | t in pc && IsWoken(pc[t], side)
  }

  // pthread_cond_signal unblocks at least one of the threads blocked on the condition, if there are any.
  predicate Signal(signalled: set<Thread>, sleeping: set<Thread>) {
    signalled <= sleeping && (sleeping != {} ==> signalled != {})
  }

  predicate Enabled(s: State, step: Step) {
    RingValid(s.ring) && step.t in s.pc &&
    match step
    case CallPush(t, _) => s.pc[t].Idle?
    case CallPop(t) => s.pc[t].Idle?
    case RunPush(t, signalled) =>
      (s.pc[t].PushReady? || s.pc[t].PushWoken?) && (!Full(s.ring) ==> Signal(signalled, Asleep(s.pc, Poppers)))
    case RunPop(t, signalled) =>
      (s.pc[t].PopReady? || s.pc[t].PopWoken?) && (!Empty(s.ring) ==> Signal(signalled, Asleep(s.pc, Pushers)))
    case Expire(t) => s.pc[t].PushAsleep? || s.pc[t].PushWoken?
    case Drop(t) => s.pc[t].PushExpired?
    case WakeSpuriously(t) => s.pc[t].PushAsleep? || s.pc[t].PopAsleep?
  }

  function Awaken(p: Pc): Pc {
    match p
    case PushAsleep(m) => PushWoken(m)
    case PopAsleep => PopWoken
    case _ => p
  }

  function WakeAll(pc: map<Thread, Pc>, signalled: set<Thread>): map<Thread, Pc> {
    map t | t in pc :: if t in signalled then Awaken(pc[t]) else pc[t]
  }

  function Apply(s: State, step: Step): (s': State)
    requires Enabled(s, step)
  {
    match step
    case CallPush(t, m) => s.(pc := s.pc[t := PushReady(m)])
    case CallPop(t) => s.(pc := s.pc[t := PopReady])
    case RunPush(t, signalled) =>
      var m := s.pc[t].m;
      if Full(s.ring) then s.(pc := s.pc[t := PushAsleep(m)])
      else
        s.(ring := Put(s.ring, m),
           pc := WakeAll(s.pc, signalled)[t := Idle],
           finished := s.finished + [Finished(m, true)])
    case RunPop(t, signalled) =>
      if Empty(s.ring) then s.(pc := s.pc[t := PopAsleep])
      else
        s.(ring := Take(s.ring),
           pc := WakeAll(s.pc, signalled)[t := Idle],
           popped := s.popped + [s.ring.slots[s.ring.head]])
    case Expire(t) => s.(pc := s.pc[t := PushExpired(s.pc[t].m)])
    case Drop(t) =>
      s.(drops := s.drops + 1, pc := s.pc[t := Idle], finished := s.finished + [Finished(s.pc[t].m, false)])
    case WakeSpuriously(t) => s.(pc := s.pc[t := Awaken(s.pc[t])])
  }

  predicate Initial(s: State) {
    && RingValid(s.ring) && Empty(s.ring) && s.drops == 0 && s.finished == [] && s.popped == []
    && forall t :: t in s.pc ==> s.pc[t].Idle?
  }

  // A run: every step is enabled where it is taken.
  predicate Runs(s: State, steps: seq<Step>)
    decreases |steps|
  {
    steps == [] || (Enabled(s, steps[0]) && Runs(Apply(s, steps[0]), steps[1..]))
  }

  function After(s: State, steps: seq<Step>): State
    requires Runs(s, steps)
    decreases |steps|
  {
    if steps == [] then s else After(Apply(s, steps[0]), steps[1..])
  }

  // ---------------------------------------------------------------- what every run keeps

  // The messages of the accepted pushes, in the order in which they were accepted.
  function Accepted(finished: seq<Finished>): (a: seq<Message>)
    ensures |a| <= |finished|
  {
    if finished == [] then []
    else
      var n := |finished| - 1;
      Accepted(finished[..n]) + (if finished[n].accepted then [finished[n].m] else [])
  }

  // How many threads of a side could go on at once: a consumer for each message, a pusher for each free slot.
  function Due(r: Ring, side: Side): nat
    requires RingValid(r)
  {
    if side.Poppers? then |Contents(r)| else QSIZE - 1 - |Contents(r)|
  }

  // While anybody sleeps, at least n threads of that side are awake and on their way to the lock.
  predicate Covered(pc: map<Thread, Pc>, side: Side, n: int) {
    Asleep(pc, side) != {} ==> |Woken(pc, side)| >= n
  }

  predicate Invariant(s: State) {
    && RingValid(s.ring)
    // first in, first out; nothing lost, duplicated or overwritten
    && s.popped + Contents(s.ring) == Accepted(s.finished)
    // every finished push is popped, queued or counted as a drop
    && |s.finished| == |s.popped| + |Contents(s.ring)| + s.drops
    // no wake-up of a consumer is lost
    && Covered(s.pc, Poppers, Due(s.ring, Poppers))
  }

  lemma AcceptedExtend(finished: seq<Finished>, f: Finished)
    ensures Accepted(finished + [f]) == Accepted(finished) + (if f.accepted then [f.m] else [])
  {
    assert (finished + [f])[..|finished|] == finished;
  }

  lemma Subset(a: set<Thread>, b: set<Thread>)
    requires a <= b
    ensures |a| <= |b|
  {
    assert b == a + (b - a);
  }

  // One thread moves from pc[t] to p.
  lemma MoveCovered(pc: map<Thread, Pc>, t: Thread, p: Pc, side: Side, n: int, n': int)
    requires t in pc && Covered(pc, side, n)
    requires IsAsleep(p, side) ==> n' <= 0
    requires IsAsleep(p, side) || n' <= n - (if IsWoken(pc[t], side) && !IsWoken(p, side) then 1 else 0)
    ensures Covered(pc[t := p], side, n')
  {
    var pc' := pc[t := p];
    if IsAsleep(p, side) {
      return;
    }
    assert Asleep(pc', side) == Asleep(pc, side) - {t};
    var w, w' := Woken(pc, side), Woken(pc', side);
    if IsWoken(pc[t], side) && !IsWoken(p, side) {
      Subset(w, w' + {t});
    } else {
      Subset(w, w');
    }
  }

  // A signal wakes one more thread of its side, unless none was asleep; the other side does not notice.
  lemma SignalCovered(pc: map<Thread, Pc>, signalled: set<Thread>, signalledSide: Side, side: Side, n: int)
    requires Signal(signalled, Asleep(pc, signalledSide)) && Covered(pc, side, n)
    ensures Covered(WakeAll(pc, signalled), side, if side == signalledSide then n + 1 else n)
  {
    WakeAllMoves(pc, signalled, signalledSide, if signalledSide.Poppers? then Pushers else Poppers);
    hide WakeAll, Asleep, Woken;
    if side == signalledSide && Asleep(pc, side) - signalled != {} {
      var u :| u in signalled;
      Subset(Woken(pc, side) + {u}, Woken(pc, side) + signalled);
    }
  }

  lemma WakeAllMoves(pc: map<Thread, Pc>, signalled: set<Thread>, side: Side, other: Side)
    requires signalled <= Asleep(pc, side) && side != other
    ensures var pc' := WakeAll(pc, signalled);
            && Asleep(pc', other) == Asleep(pc, other) && Woken(pc', other) == Woken(pc, other)
            && Asleep(pc', side) == Asleep(pc, side) - signalled && Woken(pc', side) == Woken(pc, side) + signalled
    ensures Woken(pc, side) !! signalled
  {
  }

  // A thread that is not asleep is not signalled.
  lemma Unsignalled(pc: map<Thread, Pc>, signalled: set<Thread>, side: Side, t: Thread)
    requires Signal(signalled, Asleep(pc, side)) && t in pc && !IsAsleep(pc[t], side)
    ensures t in WakeAll(pc, signalled) && WakeAll(pc, signalled)[t] == pc[t]
  {
  }

  // The one step that loses a wake-up: pthread_cond_timedwait may report the timeout of a thread that has been
  // signalled, and queue_push then gives up without passing the signal on.
  predicate Wastes(s: State, step: Step) {
    step.Expire? && step.t in s.pc && s.pc[step.t].PushWoken?
  }

  lemma PushKeepsCovered(s: State, t: Thread, signalled: set<Thread>, side: Side)
    requires RingValid(s.ring) && Enabled(s, RunPush(t, signalled)) && !Full(s.ring)
    requires Covered(s.pc, side, Due(s.ring, side))
    ensures var s' := Apply(s, RunPush(t, signalled)); Covered(s'.pc, side, Due(s'.ring, side))
  {
    hide Contents, Put, Take, Covered, Asleep, Woken, WakeAll, Full;
    PutAppends(s.ring, s.pc[t].m);
    var n := Due(s.ring, side);
    SignalCovered(s.pc, signalled, Poppers, side, n);
    Unsignalled(s.pc, signalled, Poppers, t);
    MoveCovered(WakeAll(s.pc, signalled), t, Idle, side, if side.Poppers? then n + 1 else n,
                if side.Poppers? then n + 1 else n - 1);
  }

  lemma PopKeepsCovered(s: State, t: Thread, signalled: set<Thread>, side: Side)
    requires RingValid(s.ring) && Enabled(s, RunPop(t, signalled)) && !Empty(s.ring)
    requires Covered(s.pc, side, Due(s.ring, side))
    ensures var s' := Apply(s, RunPop(t, signalled)); Covered(s'.pc, side, Due(s'.ring, side))
  {
    hide Contents, Put, Take, Covered, Asleep, Woken, WakeAll, Full;
    TakeRemoves(s.ring);
    var n := Due(s.ring, side);
    SignalCovered(s.pc, signalled, Pushers, side, n);
    Unsignalled(s.pc, signalled, Pushers, t);
    MoveCovered(WakeAll(s.pc, signalled), t, Idle, side, if side.Pushers? then n + 1 else n,
                if side.Pushers? then n + 1 else n - 1);
  }

  // A step keeps the sleepers of a side covered, except that a wasted signal uncovers the pushers.
  lemma StepKeepsCovered(s: State, step: Step, side: Side)
    requires RingValid(s.ring) && Enabled(s, step) && (side.Pushers? ==> !Wastes(s, step))
    requires Covered(s.pc, side, Due(s.ring, side))
    ensures var s' := Apply(s, step); RingValid(s'.ring) && Covered(s'.pc, side, Due(s'.ring, side))
  {
    RingTests(s.ring);
    hide Contents, Covered, Asleep, Woken, WakeAll, Full, Empty, Signal;
    if step.RunPush? && !Full(s.ring) {
      PushKeepsCovered(s, step.t, step.signalled, side);
    } else if step.RunPop? && !Empty(s.ring) {
      PopKeepsCovered(s, step.t, step.signalled, side);
    } else {
      var n, t, s' := Due(s.ring, side), step.t, Apply(s, step);
      MoveCovered(s.pc, t, s'.pc[t], side, n, if IsAsleep(s'.pc[t], side) then 0 else n);
    }
  }

  lemma StepKeeps(s: State, step: Step)
    requires Invariant(s) && Enabled(s, step)
    ensures Invariant(Apply(s, step))
  {
    StepKeepsCovered(s, step, Poppers);
    hide Contents, Put, Take, Accepted, Asleep, Woken, WakeAll, Covered, Full, Empty;
    var s' := Apply(s, step);
    if step.RunPush? && !Full(s.ring) {
      var m := s.pc[step.t].m;
      PutAppends(s.ring, m);
      AcceptedExtend(s.finished, Finished(m, true));
      assert s.popped + (Contents(s.ring) + [m]) == (s.popped + Contents(s.ring)) + [m];
    } else if step.RunPop? && !Empty(s.ring) {
      TakeRemoves(s.ring);
      var m := s.ring.slots[s.ring.head];
      assert s.popped + ([m] + Contents(s'.ring)) == (s.popped + [m]) + Contents(s'.ring);
    } else if step.Drop? {
      AcceptedExtend(s.finished, Finished(s.pc[step.t].m, false));
      assert Accepted(s.finished) + [] == Accepted(s.finished);
    }
  }

  // Every interleaving of any number of pushers and poppers keeps the invariant.
  lemma {:induction false} RunKeeps(s: State, steps: seq<Step>)
    requires Invariant(s) && Runs(s, steps)
    ensures Invariant(After(s, steps))
    decreases |steps|
  {
    hide Invariant, Enabled, Apply;
    if steps != [] {
      StepKeeps(s, steps[0]);
      RunKeeps(Apply(s, steps[0]), steps[1..]);
    }
  }

  lemma InitialInvariant(s: State)
    requires Initial(s)
    ensures Invariant(s)
  {
    RingTests(s.ring);
    assert Asleep(s.pc, Poppers) == {};
  }

  lemma EveryRun(s: State, steps: seq<Step>)
    requires Initial(s) && Runs(s, steps)
    ensures Invariant(After(s, steps))
    ensures |Contents(After(s, steps).ring)| <= 127
  {
    hide Runs, After;
    InitialInvariant(s);
    RunKeeps(s, steps);
  }

  // So no consumer sleeps in vain: while a message waits, some consumer is on its way and can take it, whoever
  // else may be asleep.
  lemma NoConsumerSleepsInVain(s: State, steps: seq<Step>, t: Thread)
    requires Initial(s) && Runs(s, steps)
    ensures var e := After(s, steps);
            && RingValid(e.ring)
            && (t in e.pc && e.pc[t].PopAsleep? && !Empty(e.ring) ==>
                  exists u :: u in e.pc && e.pc[u].PopWoken? && Enabled(e, RunPop(u, Asleep(e.pc, Pushers))))
  {
    EveryRun(s, steps);
    var e := After(s, steps);
    hide Runs, After, Contents, Full, Empty;
    RingTests(e.ring);
    if t in e.pc && e.pc[t].PopAsleep? && !Empty(e.ring) {
      assert t in Asleep(e.pc, Poppers);
      assert Woken(e.pc, Poppers) != {};
      var u :| u in Woken(e.pc, Poppers);
      assert Enabled(e, RunPop(u, Asleep(e.pc, Pushers)));
    }
  }

  // ---------------------------------------------------------------- sleeping pushers

  predicate NothingWasted(s: State, steps: seq<Step>)
    requires Runs(s, steps)
    decreases |steps|
  {
    steps == [] || (!Wastes(s, steps[0]) && NothingWasted(Apply(s, steps[0]), steps[1..]))
  }

  lemma {:induction false} RunKeepsPushersCovered(s: State, steps: seq<Step>)
    requires Invariant(s) && Covered(s.pc, Pushers, Due(s.ring, Pushers)) && Runs(s, steps) && NothingWasted(s, steps)
    ensures var e := After(s, steps); RingValid(e.ring) && Covered(e.pc, Pushers, Due(e.ring, Pushers))
    decreases |steps|
  {
    if steps != [] {
      StepKeeps(s, steps[0]);
      StepKeepsCovered(s, steps[0], Pushers);
      hide Enabled, Apply, Covered, Wastes;
      RunKeepsPushersCovered(Apply(s, steps[0]), steps[1..]);
    }
  }

  // A pusher sleeps although there is room, and no pusher has been woken to use it.
  predicate Stranded(s: State) {
    && RingValid(s.ring) && !Full(s.ring) && Woken(s.pc, Pushers) == {} && Asleep(s.pc, Pushers) != {}
  }

  // With any number of pushers none is stranded as long as no signal is wasted on a timeout.
  lemma UnwastedNotStranded(s: State, steps: seq<Step>)
    requires Initial(s) && Runs(s, steps) && NothingWasted(s, steps)
    ensures !Stranded(After(s, steps))
  {
    InitialInvariant(s);
    assert Asleep(s.pc, Pushers) == {};
    RunKeepsPushersCovered(s, steps);
    hide Runs, After, NothingWasted, Contents, Full;
    RingTests(After(s, steps).ring);
  }

  predicate PushedBy(steps: seq<Step>, pushers: set<Thread>) {
    forall i :: 0 <= i < |steps| && steps[i].CallPush? ==> steps[i].t in pushers
  }

  // One pusher, if any; and if it sleeps the ring is full.
  predicate AloneAndFull(s: State, p: Thread) {
    && RingValid(s.ring)
    && (forall t :: t in s.pc && Pushing(s.pc[t]) ==> t == p)
    && (p in s.pc && s.pc[p].PushAsleep? ==> Full(s.ring))
  }

  predicate Pushing(p: Pc) {
    p.PushReady? || Waiting(p)
  }

  lemma StepKeepsAlone(s: State, step: Step, p: Thread)
    requires AloneAndFull(s, p) && Enabled(s, step) && (step.CallPush? ==> step.t == p)
    ensures AloneAndFull(Apply(s, step), p)
  {
    hide Put, Take, Full, Empty;
    if step.RunPop? && p in s.pc && s.pc[p].PushAsleep? {
      assert p in Asleep(s.pc, Pushers);
    }
  }

  lemma {:induction false} RunKeepsAlone(s: State, steps: seq<Step>, p: Thread)
    requires AloneAndFull(s, p) && Runs(s, steps) && PushedBy(steps, {p})
    ensures AloneAndFull(After(s, steps), p)
    decreases |steps|
  {
    hide AloneAndFull, Enabled, Apply;
    if steps != [] {
      assert PushedBy(steps[1..], {p}) by {
        assert forall i :: 0 <= i < |steps| - 1 ==> steps[1..][i] == steps[i + 1];
      }
      StepKeepsAlone(s, steps[0], p);
      RunKeepsAlone(Apply(s, steps[0]), steps[1..], p);
    }
  }

  // A single pusher, like the reactor, sleeps only on a full ring, whether signals are wasted or not.
  lemma LonePusherSleepsOnFull(s: State, steps: seq<Step>, p: Thread)
    requires Initial(s) && Runs(s, steps) && PushedBy(steps, {p})
    ensures var e := After(s, steps); RingValid(e.ring) && (p in e.pc && e.pc[p].PushAsleep? ==> Full(e.ring))
    ensures !Stranded(After(s, steps))
  {
    RunKeepsAlone(s, steps, p);
    var e := After(s, steps);
    hide Runs, After, Full;
    if Asleep(e.pc, Pushers) != {} {
      var t :| t in Asleep(e.pc, Pushers);
    }
  }

  // ---------------------------------------------------------------- what a drop says

  lemma {:induction false} AfterSplit(s: State, a: seq<Step>, b: seq<Step>)
    ensures Runs(s, a + b) <==> Runs(s, a) && Runs(After(s, a), b)
    ensures Runs(s, a + b) ==> After(s, a + b) == After(After(s, a), b)
    decreases |a|
  {
    hide Enabled, Apply;
    if a == [] {
      assert a + b == b;
    } else {
      assert (a + b)[0] == a[0] && (a + b)[1..] == a[1..] + b;
      if Enabled(s, a[0]) {
        AfterSplit(Apply(s, a[0]), a[1..], b);
      }
    }
  }

  // Thread t last called queue_push at step c, with m, and has not had the lock since.
  predicate JustCalled(steps: seq<Step>, c: int, t: Thread, m: Message) {
    && 0 <= c < |steps| && steps[c] == CallPush(t, m)
    && forall i :: c < i < |steps| ==> steps[i].t != t
  }

  predicate OnlyWaits(step: Step) {
    step.RunPush? || step.Expire? || step.WakeSpuriously?
  }

  // In the call of step c, t first took the lock at step j and found the ring full, which is where it fixed its
  // deadline; since then it has only woken up, gone back to sleep and timed out.
  predicate FirstWait(s: State, steps: seq<Step>, c: int, j: int, t: Thread, m: Message) {
    && 0 <= j < |steps| && JustCalled(steps[..j], c, t, m) && steps[j].RunPush? && steps[j].t == t
    && Runs(s, steps[..j]) && RingValid(After(s, steps[..j]).ring) && Full(After(s, steps[..j]).ring)
    && forall i :: j < i < |steps| && steps[i].t == t ==> OnlyWaits(steps[i])
  }

  predicate Waiting(p: Pc) {
    p.PushAsleep? || p.PushWoken? || p.PushExpired?
  }

  // How a thread comes to be about to push, or to wait with a push.
  lemma PushesBecause(s: State, step: Step, t: Thread)
    requires Enabled(s, step) && t in Apply(s, step).pc
    ensures t in s.pc
    ensures var p, p' := s.pc[t], Apply(s, step).pc[t];
            && (p'.PushReady? ==> if step.t == t then step == CallPush(t, p'.m) else p == p')
            && (Waiting(p') && step.t != t ==> Waiting(p) && p.m == p'.m)
            && (Waiting(p') && step.t == t ==>
                  OnlyWaits(step) && (Waiting(p) || (p.PushReady? && step.RunPush? && Full(s.ring))) && p.m == p'.m)
  {
    hide Full, Empty, Asleep, Signal, Put, Take;
  }

  lemma {:induction false} WaitWasEntered(s: State, steps: seq<Step>, t: Thread)
    requires Initial(s) && Runs(s, steps) && t in After(s, steps).pc
    ensures var p := After(s, steps).pc[t];
            && (p.PushReady? ==> exists c :: JustCalled(steps, c, t, p.m))
            && (Waiting(p) ==> exists c, j :: FirstWait(s, steps, c, j, t, p.m))
    decreases |steps|
  {
    if steps != [] {
      var n := |steps| - 1;
      var before, last := steps[..n], steps[n];
      assert steps == before + [last];
      AfterSplit(s, before, [last]);
      var prev := After(s, before);
      assert Enabled(prev, last) && After(s, steps) == Apply(prev, last) by {
        assert [last][0] == last && [last][1..] == [];
      }
      var p := After(s, steps).pc[t];
      hide Enabled, Apply, Full, Runs, After, OnlyWaits;
      PushesBecause(prev, last, t);
      WaitWasEntered(s, before, t);
      EveryRun(s, before);
      WaitGoesOn(s, steps, t, prev.pc[t], p);
    }
  }

  // One more step behind a call or a wait.
  lemma WaitGoesOn(s: State, steps: seq<Step>, t: Thread, p: Pc, p': Pc)
    requires steps != []
    requires var n := |steps| - 1;
             var before, last := steps[..n], steps[n];
             && Runs(s, before) && RingValid(After(s, before).ring)
             && (p.PushReady? ==> exists c :: JustCalled(before, c, t, p.m))
             && (Waiting(p) ==> exists c, j :: FirstWait(s, before, c, j, t, p.m))
             && (p'.PushReady? ==> if last.t == t then last == CallPush(t, p'.m) else p == p')
             && (Waiting(p') && last.t != t ==> Waiting(p) && p.m == p'.m)
             && (Waiting(p') && last.t == t ==>
                   && OnlyWaits(last)
                   && (Waiting(p) || (p.PushReady? && last.RunPush? && Full(After(s, before).ring))) && p.m == p'.m)
    ensures p'.PushReady? ==> exists c :: JustCalled(steps, c, t, p'.m)
    ensures Waiting(p') ==> exists c, j :: FirstWait(s, steps, c, j, t, p'.m)
  {
    hide Enabled, Apply, Full, Runs, After, OnlyWaits;
    var n := |steps| - 1;
    var before, last := steps[..n], steps[n];
    if p'.PushReady? {
      if last.t == t {
        assert JustCalled(steps, n, t, p'.m);
      } else {
        var c :| JustCalled(before, c, t, p.m);
        assert JustCalled(steps, c, t, p'.m);
      }
    } else if Waiting(p') {
      if Waiting(p) {
        var c, j :| FirstWait(s, before, c, j, t, p.m);
        assert steps[..j] == before[..j];
        assert FirstWait(s, steps, c, j, t, p'.m);
      } else {
        var c :| JustCalled(before, c, t, p.m);
        assert FirstWait(s, steps, c, n, t, p'.m);
      }
    }
  }

  // A dropped push belongs to a call that found the ring full when it first looked.
  lemma DropMeans(s: State, steps: seq<Step>, t: Thread)
    requires Initial(s) && Runs(s, steps + [Drop(t)])
    ensures Runs(s, steps)
    ensures exists c, j, m ::
              && FirstWait(s, steps, c, j, t, m)
              && After(s, steps + [Drop(t)]).finished == After(s, steps).finished + [Finished(m, false)]
  {
    AfterSplit(s, steps, [Drop(t)]);
    var e := After(s, steps);
    assert Enabled(e, Drop(t));
    assert After(s, steps + [Drop(t)]) == Apply(e, Drop(t)) by {
      assert [Drop(t)][1..] == [];
    }
    hide Runs, After, FirstWait;
    WaitWasEntered(s, steps, t);
    var c, j :| FirstWait(s, steps, c, j, t, e.pc[t].m);
  }

  predicate StaysFull(s: State, steps: seq<Step>)
    requires Runs(s, steps)
    decreases |steps|
  {
    RingValid(s.ring) && Full(s.ring) && (steps == [] || StaysFull(Apply(s, steps[0]), steps[1..]))
  }

  lemma {:induction false} PoppedGrows(s: State, steps: seq<Step>)
    requires Runs(s, steps)
    ensures |s.popped| <= |After(s, steps).popped|
    decreases |steps|
  {
    if steps != [] {
      PoppedGrows(Apply(s, steps[0]), steps[1..]);
    }
  }

  // Once full, the ring stays full exactly as long as nothing is popped.
  lemma {:induction false} StaysFullUntilPopped(s: State, steps: seq<Step>)
    requires Runs(s, steps) && RingValid(s.ring) && Full(s.ring)
    ensures StaysFull(s, steps) <==> |After(s, steps).popped| == |s.popped|
    decreases |steps|
  {
    if steps != [] {
      var s', rest := Apply(s, steps[0]), steps[1..];
      if steps[0].RunPop? {
        RingTests(s.ring);
        assert !Full(s'.ring);
        PoppedGrows(s', rest);
        assert |s'.popped| == |s.popped| + 1;
      } else {
        assert s'.ring == s.ring && s'.popped == s.popped;
        StaysFullUntilPopped(s', rest);
      }
    }
  }

  // So the ring was full from a dropped push's first look on exactly when nothing was popped meanwhile.
  lemma DropWhileFull(s: State, steps: seq<Step>, t: Thread, c: int, j: int, m: Message)
    requires Initial(s) && Runs(s, steps + [Drop(t)]) && FirstWait(s, steps, c, j, t, m)
    ensures Runs(After(s, steps[..j]), steps[j..]) && Runs(s, steps)
    ensures StaysFull(After(s, steps[..j]), steps[j..]) <==> |After(s, steps).popped| == |After(s, steps[..j]).popped|
  {
    AfterSplit(s, steps, [Drop(t)]);
    assert steps == steps[..j] + steps[j..];
    AfterSplit(s, steps[..j], steps[j..]);
    StaysFullUntilPopped(After(s, steps[..j]), steps[j..]);
  }

  // n pushes by thread t while all others stay away.
  lemma {:induction false} Fill(s: State, t: Thread, n: nat, m: Message) returns (steps: seq<Step>)
    requires RingValid(s.ring) && |Contents(s.ring)| + n <= QSIZE - 1
    requires t in s.pc && forall u :: u in s.pc ==> s.pc[u].Idle?
    ensures Runs(s, steps) && After(s, steps).pc == s.pc && RingValid(After(s, steps).ring)
    ensures |Contents(After(s, steps).ring)| == |Contents(s.ring)| + n
    ensures PushedBy(steps, {t})
    decreases n
  {
    if n == 0 {
      steps := [];
    } else {
      RingTests(s.ring);
      PutAppends(s.ring, m);
      hide Put, Full, Contents;
      var call, run := CallPush(t, m), RunPush(t, {});
      var s1 := Apply(s, call);
      assert Asleep(s1.pc, Poppers) == {};
      assert WakeAll(s1.pc, {})[t := Idle] == s.pc;
      var s2 := Apply(s1, run);
      var rest := Fill(s2, t, n - 1, m);
      steps := [call, run] + rest;
      assert steps[1..] == [run] + rest && steps[1..][1..] == rest;
    }
  }

  // Thread 0 times out on a full ring, and thread 1 makes room before thread 0 gets the lock back.
  lemma Race(s: State, m: Message) returns (steps: seq<Step>)
    requires RingValid(s.ring) && |Contents(s.ring)| == QSIZE - 1
    requires s.pc == map[0 := Idle, 1 := Idle]
    ensures Runs(s, steps) && RingValid(After(s, steps).ring) && !Full(After(s, steps).ring)
    ensures After(s, steps).pc == map[0 := PushExpired(m), 1 := Idle]
  {
    RingTests(s.ring);
    TakeRemoves(s.ring);
    RingTests(Take(s.ring));
    hide Contents, Take, Full, Empty;
    var s1 := Apply(s, CallPush(0, m));
    var s2 := Apply(s1, RunPush(0, {}));
    var s3 := Apply(s2, CallPop(1));
    var s4 := Apply(s3, Expire(0));
    assert Asleep(s4.pc, Pushers) == {};
    var s5 := Apply(s4, RunPop(1, {}));
    hide Apply, Enabled;
    OneStep(s4, RunPop(1, {}), []);
    OneStep(s3, Expire(0), [RunPop(1, {})] + []);
    OneStep(s2, CallPop(1), [Expire(0)] + ([RunPop(1, {})] + []));
    OneStep(s1, RunPush(0, {}), [CallPop(1)] + ([Expire(0)] + ([RunPop(1, {})] + [])));
    steps := [CallPush(0, m)] + ([RunPush(0, {})] + ([CallPop(1)] + ([Expire(0)] + ([RunPop(1, {})] + []))));
    OneStep(s, CallPush(0, m), [RunPush(0, {})] + ([CallPop(1)] + ([Expire(0)] + ([RunPop(1, {})] + []))));
  }

  // A push can time out and drop its message although a consumer has made room before it gets the lock back.
  lemma DropWhileNotFull(m: Message) returns (s: State, steps: seq<Step>)
    ensures Initial(s) && Runs(s, steps + [Drop(0)]) && Runs(s, steps)
    ensures RingValid(After(s, steps).ring) && !Full(After(s, steps).ring)
  {
    s := State(Ring(seq(QSIZE, _ => m), 0, 0), 0, map[0 := Idle, 1 := Idle], [], []);
    RingTests(s.ring);
    var fill := Fill(s, 0, QSIZE - 1, m);
    var race := Race(After(s, fill), m);
    steps := fill + race;
    AfterSplit(s, fill, race);
    AfterSplit(s, steps, [Drop(0)]);
  }

  lemma OneStep(s: State, step: Step, rest: seq<Step>)
    requires Enabled(s, step) && Runs(Apply(s, step), rest)
    ensures Runs(s, [step] + rest) && After(s, [step] + rest) == After(Apply(s, step), rest)
  {
    assert ([step] + rest)[1..] == rest;
  }

  // Two pushers asleep on a full ring; a pop signals the first as its deadline passes, and it gives up.
  lemma WasteOne(s: State, a: Thread, b: Thread, c: Thread, m: Message) returns (steps: seq<Step>)
    requires RingValid(s.ring) && |Contents(s.ring)| == QSIZE - 1
    requires a != b && a != c && b != c && s.pc == map[a := Idle, b := Idle, c := Idle]
    ensures Runs(s, steps) && PushedBy(steps, {a, b}) && Stranded(After(s, steps))
  {
    RingTests(s.ring);
    TakeRemoves(s.ring);
    RingTests(Take(s.ring));
    hide Contents, Take, Full, Empty, Stranded, Apply, Enabled;
    var asleep := TwoAsleep(s, a, b, c, m);
    var tail := WasteBoth(s.(pc := map[a := PushAsleep(m), b := PushAsleep(m), c := Idle]), a, b, c, m);
    AfterSplit(s, asleep, tail);
    steps := asleep + tail;
  }

  lemma WasteBoth(s: State, a: Thread, b: Thread, c: Thread, m: Message) returns (steps: seq<Step>)
    requires RingValid(s.ring) && !Empty(s.ring) && !Full(Take(s.ring))
    requires a != b && a != c && b != c && s.pc == map[a := PushAsleep(m), b := PushAsleep(m), c := Idle]
    ensures Runs(s, steps) && PushedBy(steps, {a, b}) && Stranded(After(s, steps))
  {
    hide Take, Full, Empty;
    var s1 := Apply(s, CallPop(c));
    assert Asleep(s1.pc, Pushers) == {a, b};
    var s2 := Apply(s1, RunPop(c, {a}));
    assert s2.pc == map[a := PushWoken(m), b := PushAsleep(m), c := Idle];
    var s3 := Apply(s2, Expire(a));
    var s4 := Apply(s3, Drop(a));
    assert s4.pc == map[a := Idle, b := PushAsleep(m), c := Idle];
    assert b in Asleep(s4.pc, Pushers) && Woken(s4.pc, Pushers) == {};
    hide Apply, Enabled;
    OneStep(s3, Drop(a), []);
    OneStep(s2, Expire(a), [Drop(a)] + []);
    OneStep(s1, RunPop(c, {a}), [Expire(a)] + ([Drop(a)] + []));
    OneStep(s, CallPop(c), [RunPop(c, {a})] + ([Expire(a)] + ([Drop(a)] + [])));
    steps := [CallPop(c)] + ([RunPop(c, {a})] + ([Expire(a)] + ([Drop(a)] + [])));
  }

  lemma TwoAsleep(s: State, a: Thread, b: Thread, c: Thread, m: Message) returns (steps: seq<Step>)
    requires RingValid(s.ring) && Full(s.ring)
    requires a != b && a != c && b != c && s.pc == map[a := Idle, b := Idle, c := Idle]
    ensures Runs(s, steps) && PushedBy(steps, {a, b})
    ensures After(s, steps) == s.(pc := map[a := PushAsleep(m), b := PushAsleep(m), c := Idle])
  {
    hide Full;
    var s1 := Apply(s, CallPush(a, m));
    var s2 := Apply(s1, RunPush(a, {}));
    var s3 := Apply(s2, CallPush(b, m));
    var s4 := Apply(s3, RunPush(b, {}));
    assert s4.pc == map[a := PushAsleep(m), b := PushAsleep(m), c := Idle];
    hide Apply, Enabled;
    OneStep(s3, RunPush(b, {}), []);
    OneStep(s2, CallPush(b, m), [RunPush(b, {})] + []);
    OneStep(s1, RunPush(a, {}), [CallPush(b, m)] + ([RunPush(b, {})] + []));
    OneStep(s, CallPush(a, m), [RunPush(a, {})] + ([CallPush(b, m)] + ([RunPush(b, {})] + [])));
    steps := [CallPush(a, m)] + ([RunPush(a, {})] + ([CallPush(b, m)] + ([RunPush(b, {})] + [])));
  }

  // Any two pushers can get there.
  lemma TwoCanBeStranded(a: Thread, b: Thread, m: Message) returns (s: State, steps: seq<Step>)
    requires a != b
    ensures Initial(s) && Runs(s, steps) && PushedBy(steps, {a, b}) && Stranded(After(s, steps))
  {
    var c := a + b + 1;
    s := State(Ring(seq(QSIZE, _ => m), 0, 0), 0, map[a := Idle, b := Idle, c := Idle], [], []);
    RingTests(s.ring);
    var fill := Fill(s, a, QSIZE - 1, m);
    var waste := WasteOne(After(s, fill), a, b, c, m);
    AfterSplit(s, fill, waste);
    steps := fill + waste;
  }

  // So pushers are safe from being stranded exactly when there is at most one of them.
  lemma StrandedOnlyIfTwo(pushers: set<Thread>)
    ensures (forall s, steps :: Initial(s) && Runs(s, steps) && PushedBy(steps, pushers) ==> !Stranded(After(s, steps)))
            <==> |pushers| <= 1
  {
    hide Initial, Runs, After, Stranded, PushedBy;
    if |pushers| <= 1 {
      var p := AtMostOne(pushers);
      forall s, steps | Initial(s) && Runs(s, steps) && PushedBy(steps, pushers) ensures !Stranded(After(s, steps)) {
        MorePushers(steps, pushers, {p});
        LonePusherSleepsOnFull(s, steps, p);
      }
    } else {
      var a :| a in pushers;
      AddOrRemove(pushers, a);
      var b :| b in pushers - {a};
      var s, steps := TwoCanBeStranded(a, b, Message([], []));
      MorePushers(steps, {a, b}, pushers);
    }
  }

  lemma AtMostOne(pushers: set<Thread>) returns (p: Thread)
    requires |pushers| <= 1
    ensures pushers <= {p}
  {
    p := 0;
    if t :| t in pushers {
      p := t;
      AddOrRemove(pushers, t);
      assert pushers - {t} == {};
    }
  }

  lemma AddOrRemove(pushers: set<Thread>, t: Thread)
    requires t in pushers
    ensures |pushers - {t}| == |pushers| - 1
  {
  }

  lemma MorePushers(steps: seq<Step>, few: set<Thread>, many: set<Thread>)
    requires PushedBy(steps, few) && few <= many
    ensures PushedBy(steps, many)
  {
  }
}
