/**
 * Starting subprocesses (routerd/src/supervisor.c:50-113, 158-167): the scans and the slot write done under the
 * lock, and supervisor_spawn as any number of threads run it, with fork and kill outside the lock.
 */
module Supervisor {
  import opened Bytes
  import opened RegisterPayload

  const MAX_CHILDREN: nat := 32
  const NAME_LEN: nat := 64

  // `serial` numbers the forks: with SIGCHLD ignored the kernel may reuse a pid, so a pid does not name a child.
  datatype Child = Child(serial: nat, pid: int, spawnMs: nat, name: seq<Byte>)

  type Slots = seq<Option<Child>>

  // The first free slot, or none.
  function FirstFree(slots: Slots): (slot: Option<nat>)
    ensures slot.None? ==> forall i :: 0 <= i < |slots| ==> slots[i].Some?
    ensures slot.Some? ==> slot.value < |slots| && slots[slot.value].None?
    ensures slot.Some? ==> forall i :: 0 <= i < slot.value ==> slots[i].Some?
  {
    FirstFreeFrom(slots, 0)
  }

  function FirstFreeFrom(slots: Slots, from: nat): (slot: Option<nat>)
    requires from <= |slots|
    ensures slot.None? ==> forall i :: from <= i < |slots| ==> slots[i].Some?
    ensures slot.Some? ==> from <= slot.value < |slots| && slots[slot.value].None?
    ensures slot.Some? ==> forall i :: from <= i < slot.value ==> slots[i].Some?
    decreases |slots| - from
  {
    if from == |slots| then None
    else if slots[from].None? then Some(from)
    else FirstFreeFrom(slots, from + 1)
  }

  function Used(slots: Slots): (n: nat)
    ensures n <= |slots|
  {
    if slots == [] then 0 else Used(slots[..|slots| - 1]) + (if slots[|slots| - 1].Some? then 1 else 0)
  }

  // The slot a finished fork goes to: the one chosen before it, or a newly chosen one if that is taken by now.
  function FinalSlot(slots: Slots, chosen: nat): (slot: Option<nat>)
    requires chosen < |slots|
    ensures slot.Some? ==> slot.value < |slots| && slots[slot.value].None?
    ensures slot.None? <==> forall i :: 0 <= i < |slots| ==> slots[i].Some?
  {
    if slots[chosen].None? then Some(chosen) else FirstFree(slots)
  }

  // ---------------------------------------------------------------- under the lock

  class Table {
    const children: array<Option<Child>>

    ghost predicate Valid()
      reads children
    {
      children.Length == MAX_CHILDREN
    }

    constructor ()
      ensures Valid() && fresh(children)
      ensures children[..] == seq(MAX_CHILDREN, _ => None)
    {
      children := new Option<Child>[MAX_CHILDREN](_ => None);
    }

    method Choose() returns (slot: Option<nat>)
      requires Valid()
      ensures slot == FirstFree(children[..])
    {
      for i := 0 to MAX_CHILDREN
        invariant FirstFree(children[..]) == FirstFreeFrom(children[..], i)
      {
        if children[i].None? {
          return Some(i);
        }
      }
      return None;
    }

    method Finalise(chosen: nat, serial: nat, pid: int, now: nat, name: seq<Byte>) returns (slot: Option<nat>)
      requires Valid() && chosen < MAX_CHILDREN
      modifies children
      ensures slot == FinalSlot(old(children[..]), chosen)
      ensures children[..] == if slot.None? then old(children[..])
                              else old(children[..])[slot.value := Some(Child(serial, pid, now, Truncate(name, NAME_LEN)))]
    {
      slot := Some(chosen);
      if children[chosen].Some? {
        slot := Choose();
        if slot.None? {
          return;
        }
      }
      children[slot.value] := Some(Child(serial, pid, now, Truncate(name, NAME_LEN)));
    }

    method ChildCount() returns (n: nat)
      requires Valid()
      ensures n == Used(children[..])
    {
      n := 0;
      for i := 0 to MAX_CHILDREN
        invariant n == Used(children[..][..i])
      {
        assert children[..][..i + 1][..i] == children[..][..i];
        if children[i].Some? {
          n := n + 1;
        }
      }
      assert children[..][..MAX_CHILDREN] == children[..];
    }
  }

  // ---------------------------------------------------------------- threads

  type Thread = nat

  datatype Pc =
    | Out
    | Chosen(name: seq<Byte>, slot: nat)                        // slot chosen, lock released
    | Forked(name: seq<Byte>, slot: nat, serial: nat, pid: int) // the child runs, nothing recorded yet
    | Doomed(serial: nat, pid: int)                             // no slot left, lock released

  // `forks` counts the forks; `returned` lists the children whose spawn returned their pid, in the order in
  // which the lock was held; `killed` holds those whose spawn returned -1 after killing them.
  datatype State = State(slots: Slots, pc: map<Thread, Pc>, forks: nat, returned: seq<Child>, killed: set<nat>)

  datatype Step =
    | Choose(t: Thread, name: seq<Byte>)   // take the lock and pick a slot; with none left return -1
    | Fork(t: Thread, pid: int)
    | ForkFails(t: Thread)
    | Finalise(t: Thread, now: nat)        // take the lock again and record the child, if a slot is left
    | Kill(t: Thread)

  predicate Enabled(s: State, step: Step) {
    |s.slots| == MAX_CHILDREN && step.t in s.pc &&
    match step
    case Choose(t, _) => s.pc[t].Out?
    case Fork(t, _) => s.pc[t].Chosen?
    case ForkFails(t) => s.pc[t].Chosen?
    case Finalise(t, _) => s.pc[t].Forked? && s.pc[t].slot < MAX_CHILDREN
    case Kill(t) => s.pc[t].Doomed?
  }

  function Apply(s: State, step: Step): (s': State)
    requires Enabled(s, step)
  {
    match step
    case Choose(t, name) =>
      var slot := FirstFree(s.slots);
      if slot.None? then s else s.(pc := s.pc[t := Chosen(name, slot.value)])
    case Fork(t, pid) =>
      var c := s.pc[t];
      s.(pc := s.pc[t := Forked(c.name, c.slot, s.forks, pid)], forks := s.forks + 1)
    case ForkFails(t) => s.(pc := s.pc[t := Out])
    case Finalise(t, now) =>
      var c := s.pc[t];
      var slot := FinalSlot(s.slots, c.slot);
      if slot.None? then s.(pc := s.pc[t := Doomed(c.serial, c.pid)])
      else
        var child := Child(c.serial, c.pid, now, Truncate(c.name, NAME_LEN));
        s.(slots := s.slots[slot.value := Some(child)], pc := s.pc[t := Out], returned := s.returned + [child])
    case Kill(t) => s.(pc := s.pc[t := Out], killed := s.killed + {s.pc[t].serial})
  }

  predicate Runs(s: State, steps: seq<Step>)
    decreases |steps|
  {
    steps == [] || (Enabled(s, steps[0]) && Runs(Apply(s, steps[0]), steps[1..]))
  }

  function After(s: State, steps: seq<Step>): State
    requires Runs(s, steps)
    decreases |steps|
  {
    if steps == [] then s else After(Apply(s, steps[0]), steps[1..])
  }

  predicate Initial(s: State) {
    && s.slots == seq(MAX_CHILDREN, _ => None) && s.forks == 0 && s.returned == [] && s.killed == {}
    && forall t :: t in s.pc ==> s.pc[t].Out?
  }

  // ---------------------------------------------------------------- what every run keeps

  // The table is the log of successful returns: entry i is the i-th of them, and the rest is free.
  predicate IsLog(slots: Slots, returned: seq<Child>) {
    && |slots| == MAX_CHILDREN && |returned| <= MAX_CHILDREN
    && forall i :: 0 <= i < MAX_CHILDREN ==> slots[i] == if i < |returned| then Some(returned[i]) else None
  }

  // No thread has chosen a slot beyond the first free one.
  predicate SlotsInReach(s: State) {
    forall t :: t in s.pc && (s.pc[t].Chosen? || s.pc[t].Forked?) ==>
      s.pc[t].slot <= |s.returned| && s.pc[t].slot < MAX_CHILDREN
  }

  predicate IsBusy(p: Pc) {
    p.Forked? || p.Doomed?
  }

  predicate Pending(s: State, t: Thread, serial: nat) {
    t in s.pc && IsBusy(s.pc[t]) && s.pc[t].serial == serial
  }

  predicate Recorded(s: State, i: int, serial: nat) {
    0 <= i < |s.returned| && s.returned[i].serial == serial
  }

  // Every fork is in the hands of a thread, recorded, or killed,
  ghost predicate AllAccounted(s: State) {
    forall c: nat :: c < s.forks ==>
      (exists t :: Pending(s, t, c)) || (exists i :: Recorded(s, i, c)) || c in s.killed
  }

  // and in only one of these ways, once.
  predicate OneWayOnly(s: State) {
    && (forall t :: t in s.pc && IsBusy(s.pc[t]) ==>
          s.pc[t].serial < s.forks && s.pc[t].serial !in s.killed
          && forall i :: 0 <= i < |s.returned| ==> s.returned[i].serial != s.pc[t].serial)
    && (forall t, u :: t in s.pc && u in s.pc && t != u && IsBusy(s.pc[t]) && IsBusy(s.pc[u]) ==>
          s.pc[t].serial != s.pc[u].serial)
    && (forall i :: 0 <= i < |s.returned| ==> s.returned[i].serial < s.forks && s.returned[i].serial !in s.killed)
    && (forall i, j :: 0 <= i < j < |s.returned| ==> s.returned[i].serial != s.returned[j].serial)
    && (forall c :: c in s.killed ==> c < s.forks)
  }

  // A child is given up only when all slots are used.
  predicate KillsOnlyWhenFull(s: State) {
    s.killed != {} || (exists t :: t in s.pc && s.pc[t].Doomed?) ==> |s.returned| == MAX_CHILDREN
  }

  ghost predicate Invariant(s: State) {
    IsLog(s.slots, s.returned) && SlotsInReach(s) && AllAccounted(s) && OneWayOnly(s) && KillsOnlyWhenFull(s)
  }

  // ---------------------------------------------------------------- each step keeps it

  // A slot chosen before is now taken exactly when others were recorded since; either way the child goes to
  // the end of the log, or there is no slot left.
  lemma FinalSlotIsEnd(slots: Slots, returned: seq<Child>, chosen: nat)
    requires IsLog(slots, returned) && chosen <= |returned| && chosen < MAX_CHILDREN
    ensures FinalSlot(slots, chosen) == if |returned| < MAX_CHILDREN then Some(|returned|) else None
  {
    var f := FinalSlot(slots, chosen);
    if |returned| < MAX_CHILDREN {
      assert slots[|returned|].None?;
    }
  }

  lemma FirstFreeIsEnd(slots: Slots, returned: seq<Child>)
    requires IsLog(slots, returned)
    ensures FirstFree(slots) == if |returned| < MAX_CHILDREN then Some(|returned|) else None
  {
    var f := FirstFree(slots);
    if |returned| < MAX_CHILDREN {
      assert slots[|returned|].None?;
    }
  }

  // What is pending, recorded or killed stays accounted for when it is handed on.
  lemma KeepsAccounts(s: State, step: Step)
    requires Invariant(s) && Enabled(s, step)
    ensures AllAccounted(Apply(s, step))
  {
    hide FirstFree, FinalSlot, IsLog, SlotsInReach, OneWayOnly, KillsOnlyWhenFull, Truncate;
    var s' := Apply(s, step);
    var t := step.t;
    forall c: nat | c < s'.forks
      ensures (exists u :: Pending(s', u, c)) || (exists i :: Recorded(s', i, c)) || c in s'.killed
    {
      if c == s.forks {
        assert Pending(s', t, c);
      } else if u :| Pending(s, u, c) {
        if u != t {
          assert Pending(s', u, c);
        } else if step.Finalise? && FinalSlot(s.slots, s.pc[t].slot).Some? {
          assert Recorded(s', |s.returned|, c);
        } else if step.Finalise? {
          assert Pending(s', t, c);
        } else {
          assert step.Kill?;
        }
      } else if i :| Recorded(s, i, c) {
        assert Recorded(s', i, c);
      }
    }
  }

  lemma KeepsOneWay(s: State, step: Step)
    requires Invariant(s) && Enabled(s, step)
    ensures OneWayOnly(Apply(s, step))
  {
    hide FirstFree, FinalSlot, IsLog, SlotsInReach, AllAccounted, KillsOnlyWhenFull, Truncate;
  }

  lemma KeepsTable(s: State, step: Step)
    requires Invariant(s) && Enabled(s, step)
    ensures var s' := Apply(s, step);
            IsLog(s'.slots, s'.returned) && SlotsInReach(s') && KillsOnlyWhenFull(s')
  {
    hide FirstFree, FinalSlot, AllAccounted, OneWayOnly, Truncate;
    if step.Choose? {
      FirstFreeIsEnd(s.slots, s.returned);
    } else if step.Finalise? {
      FinalSlotIsEnd(s.slots, s.returned, s.pc[step.t].slot);
    }
  }

  lemma {:induction false} RunKeeps(s: State, steps: seq<Step>)
    requires Invariant(s) && Runs(s, steps)
    ensures Invariant(After(s, steps)) && s.returned <= After(s, steps).returned
    decreases |steps|
  {
    hide AllAccounted, OneWayOnly, IsLog, SlotsInReach, KillsOnlyWhenFull, Truncate, FirstFree, FinalSlot;
    if steps != [] {
      KeepsAccounts(s, steps[0]);
      KeepsOneWay(s, steps[0]);
      KeepsTable(s, steps[0]);
      RunKeeps(Apply(s, steps[0]), steps[1..]);
    }
  }

  lemma {:induction false} UsedOfLog(slots: Slots, n: nat, returned: seq<Child>)
    requires IsLog(slots, returned) && n <= MAX_CHILDREN
    ensures Used(slots[..n]) == if n <= |returned| then n else |returned|
  {
    if n > 0 {
      UsedOfLog(slots, n - 1, returned);
      assert slots[..n][..n - 1] == slots[..n - 1];
    }
  }

  // Any number of threads may spawn at once: the child count is the number of successful returns, every fork
  // is accounted for in exactly one way, and one is given up, or a spawn refused, only with the table full.
  lemma SpawnIsSafe(s: State, steps: seq<Step>)
    requires Initial(s) && Runs(s, steps)
    ensures var e := After(s, steps);
            && Invariant(e)
            && Used(e.slots) == |e.returned|
            && (FirstFree(e.slots).None? <==> |e.returned| == 32)
            && (e.killed != {} || (exists t :: t in e.pc && e.pc[t].Doomed?) ==> |e.returned| == 32)
  {
    hide Runs, After;
    assert Invariant(s);
    RunKeeps(s, steps);
    var e := After(s, steps);
    UsedOfLog(e.slots, MAX_CHILDREN, e.returned);
    assert e.slots[..MAX_CHILDREN] == e.slots;
    FirstFreeIsEnd(e.slots, e.returned);
  }

  // No recorded child is ever overwritten.
  lemma NeverOverwritten(s: State, before: seq<Step>, steps: seq<Step>, i: nat)
    requires Initial(s) && Runs(s, before) && Runs(After(s, before), steps)
    requires i < MAX_CHILDREN && |After(s, before).slots| == MAX_CHILDREN && After(s, before).slots[i].Some?
    ensures |After(After(s, before), steps).slots| == MAX_CHILDREN
    ensures After(After(s, before), steps).slots[i] == After(s, before).slots[i]
  {
    hide Runs, After, AllAccounted, OneWayOnly, SlotsInReach, KillsOnlyWhenFull, FirstFree, Used;
    SpawnIsSafe(s, before);
    RunKeeps(After(s, before), steps);
  }

  // ---------------------------------------------------------------- whose child is recorded

  // Thread t last called with `name` at step c, found a slot, and has done nothing since.
  predicate Started(steps: seq<Step>, c: int, t: Thread, name: seq<Byte>) {
    && 0 <= c < |steps| && steps[c] == Choose(t, name)
    && forall i :: c < i < |steps| ==> steps[i].t != t
  }

  function Forks(steps: seq<Step>): nat {
    if steps == [] then 0 else Forks(steps[..|steps| - 1]) + (if steps[|steps| - 1].Fork? then 1 else 0)
  }

  // It then forked at step f, which was fork number `serial` and gave `pid`, and has done nothing since.
  predicate ForkedAt(steps: seq<Step>, c: int, f: int, t: Thread, name: seq<Byte>, serial: nat, pid: int) {
    && 0 <= f < |steps| && Started(steps[..f], c, t, name) && steps[f] == Fork(t, pid) && Forks(steps[..f]) == serial
    && forall i :: f < i < |steps| ==> steps[i].t != t
  }

  // And at step z it recorded the child: with that fork's pid, the time, and the C string of the name, or its first
  // 63 bytes.
  predicate RecordedAt(steps: seq<Step>, c: int, f: int, z: int, t: Thread, name: seq<Byte>, child: Child) {
    && 0 <= z < |steps| && ForkedAt(steps[..z], c, f, t, name, child.serial, child.pid)
    && steps[z] == Finalise(t, child.spawnMs)
    && child.name == if |CString(name)| <= 63 then CString(name) else CString(name)[..63]
  }

  ghost predicate HasStarted(steps: seq<Step>, t: Thread, name: seq<Byte>) {
    exists c :: Started(steps, c, t, name)
  }

  ghost predicate HasForked(steps: seq<Step>, t: Thread, name: seq<Byte>, serial: nat, pid: int) {
    exists c, f :: ForkedAt(steps, c, f, t, name, serial, pid)
  }

  ghost predicate HasRecorded(steps: seq<Step>, child: Child) {
    exists c, f, z, t, name :: RecordedAt(steps, c, f, z, t, name, child)
  }

  ghost predicate Traced(s: State, steps: seq<Step>) {
    && s.forks == Forks(steps)
    && (forall t :: t in s.pc && s.pc[t].Chosen? ==> HasStarted(steps, t, s.pc[t].name))
    && (forall t :: t in s.pc && s.pc[t].Forked? ==> HasForked(steps, t, s.pc[t].name, s.pc[t].serial, s.pc[t].pid))
    && forall i :: 0 <= i < |s.returned| ==> HasRecorded(steps, s.returned[i])
  }

  lemma StartedOn(steps: seq<Step>, step: Step, c: int, t: Thread, name: seq<Byte>)
    requires Started(steps, c, t, name) && step.t != t
    ensures Started(steps + [step], c, t, name)
  {
  }

  lemma ForkedOn(steps: seq<Step>, step: Step, c: int, f: int, t: Thread, name: seq<Byte>, serial: nat, pid: int)
    requires ForkedAt(steps, c, f, t, name, serial, pid) && step.t != t
    ensures ForkedAt(steps + [step], c, f, t, name, serial, pid)
  {
    assert (steps + [step])[..f] == steps[..f];
  }

  lemma RecordedOn(steps: seq<Step>, step: Step, c: int, f: int, z: int, t: Thread, name: seq<Byte>, child: Child)
    requires RecordedAt(steps, c, f, z, t, name, child)
    ensures RecordedAt(steps + [step], c, f, z, t, name, child)
  {
    assert (steps + [step])[..z] == steps[..z];
  }

  lemma ForksSnoc(steps: seq<Step>, step: Step)
    ensures Forks(steps + [step]) == Forks(steps) + (if step.Fork? then 1 else 0)
  {
    assert (steps + [step])[..|steps|] == steps;
  }

  lemma TracedChosen(s: State, steps: seq<Step>, step: Step, t: Thread)
    requires Traced(s, steps) && Enabled(s, step)
    requires t in Apply(s, step).pc && Apply(s, step).pc[t].Chosen?
    ensures HasStarted(steps + [step], t, Apply(s, step).pc[t].name)
  {
    hide FirstFree, FinalSlot, Truncate, ForkedAt, RecordedAt;
    if step.t == t {
      assert Started(steps + [step], |steps|, t, step.name);
    } else {
      var c :| Started(steps, c, t, s.pc[t].name);
      StartedOn(steps, step, c, t, s.pc[t].name);
    }
  }

  lemma TracedForked(s: State, steps: seq<Step>, step: Step, t: Thread)
    requires Traced(s, steps) && Enabled(s, step)
    requires t in Apply(s, step).pc && Apply(s, step).pc[t].Forked?
    ensures var p := Apply(s, step).pc[t];
            HasForked(steps + [step], t, p.name, p.serial, p.pid)
  {
    hide FirstFree, FinalSlot, Truncate, Started, RecordedAt;
    var p := Apply(s, step).pc[t];
    if step.t == t {
      var c :| Started(steps, c, t, s.pc[t].name);
      assert (steps + [step])[..|steps|] == steps;
      assert ForkedAt(steps + [step], c, |steps|, t, p.name, p.serial, p.pid);
    } else {
      var c, f :| ForkedAt(steps, c, f, t, p.name, p.serial, p.pid);
      ForkedOn(steps, step, c, f, t, p.name, p.serial, p.pid);
    }
  }

  lemma TracedReturned(s: State, steps: seq<Step>, step: Step, i: nat)
    requires Traced(s, steps) && Enabled(s, step) && i < |Apply(s, step).returned|
    ensures HasRecorded(steps + [step], Apply(s, step).returned[i])
  {
    hide FirstFree, FinalSlot, Started, ForkedAt;
    var child := Apply(s, step).returned[i];
    if i < |s.returned| {
      var c, f, z, t, name :| RecordedAt(steps, c, f, z, t, name, child);
      RecordedOn(steps, step, c, f, z, t, name, child);
    } else {
      var p := s.pc[step.t];
      var c, f :| ForkedAt(steps, c, f, step.t, p.name, p.serial, p.pid);
      assert (steps + [step])[..|steps|] == steps;
      hide CString;
      assert RecordedAt(steps + [step], c, f, |steps|, step.t, p.name, child);
    }
  }

  lemma TracedStep(s: State, steps: seq<Step>, step: Step)
    requires Traced(s, steps) && Enabled(s, step)
    ensures Traced(Apply(s, step), steps + [step])
  {
    hide FirstFree, FinalSlot, Truncate, HasStarted, HasForked, HasRecorded;
    var s' := Apply(s, step);
    ForksSnoc(steps, step);
    forall t | t in s'.pc && s'.pc[t].Chosen? ensures HasStarted(steps + [step], t, s'.pc[t].name) {
      TracedChosen(s, steps, step, t);
    }
    forall t | t in s'.pc && s'.pc[t].Forked?
      ensures HasForked(steps + [step], t, s'.pc[t].name, s'.pc[t].serial, s'.pc[t].pid)
    {
      TracedForked(s, steps, step, t);
    }
    forall i | 0 <= i < |s'.returned|
      ensures HasRecorded(steps + [step], s'.returned[i])
    {
      TracedReturned(s, steps, step, i);
    }
  }

  lemma {:induction false} TracedRun(s: State, done: seq<Step>, steps: seq<Step>)
    requires Traced(s, done) && Runs(s, steps)
    ensures Traced(After(s, steps), done + steps)
    decreases |steps|
  {
    hide Traced, Enabled, Apply;
    if steps == [] {
      assert done + steps == done;
    } else {
      TracedStep(s, done, steps[0]);
      TracedRun(Apply(s, steps[0]), done + [steps[0]], steps[1..]);
      assert done + [steps[0]] + steps[1..] == done + steps;
    }
  }

  // Every recorded child, in order, is that of one call: the thread chose with the name that is stored, forked and got
  // the pid that is stored and returned, and finalised at the time that is stored, with nothing else in between.
  lemma RecordedBecause(s: State, steps: seq<Step>, i: nat)
    requires Initial(s) && Runs(s, steps) && i < |After(s, steps).returned|
    ensures exists c, f, z, t, name :: RecordedAt(steps, c, f, z, t, name, After(s, steps).returned[i])
  {
    hide Runs, After, RecordedAt, HasStarted, HasForked;
    assert Traced(s, []);
    TracedRun(s, [], steps);
    assert [] + steps == steps;
    assert HasRecorded(steps, After(s, steps).returned[i]);
  }
}
