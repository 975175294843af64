/**
 * Stale heartbeats (routerd/src/supervisor.c:117-156, routerd/src/registry.c:153-156, 186-201, 234-243): the
 * count over a snapshot of the table, and the check as it interleaves with the service thread, which registers,
 * stamps and unregisters clients while the clock goes on.
 */
module Heartbeat {
  import opened Bytes
  import opened Registry
  import opened RegisterPayload

  // ---------------------------------------------------------------- judging a snapshot

  predicate Stale(e: Entry, now: nat, timeout: nat) {
    e.lastHeartbeat + timeout < now
  }

  function StaleIn(entries: map<int, Entry>, now: nat, timeout: nat): set<int> {
    set fd | fd in entries && Stale(entries[fd], now, timeout)
  }

  // supervisor_check_heartbeats_at. The age is computed only for a stamp before `now`, so it never underflows.
  method CheckHeartbeatsAt(table: Table, now: nat, timeout: nat) returns (stale: nat)
    requires table.Valid()
    ensures stale == |set fd | fd in table.Entries() && now - table.Entries()[fd].lastHeartbeat > timeout|
  {
    hide View;
    var entries := table.Snapshot();
    ghost var found: set<int> := {};
    stale := 0;
    for i := 0 to |entries|
      invariant stale == |found|
      invariant forall fd :: fd in found <==>
                  exists k :: 0 <= k < i && entries[k].fd == fd && Stale(entries[k], now, timeout)
    {
      var e := entries[i];
      if now <= e.lastHeartbeat {
        continue;
      }
      var age: nat := now - e.lastHeartbeat;
      if age > timeout {
        found := found + {e.fd};
        stale := stale + 1;
      }
    }
    ViewKeys(table.slots[..]);
    CountedOnce(table.Entries(), entries, found, now, timeout);
    StaleByAge(table.Entries(), now, timeout);
  }

  lemma StaleByAge(m: map<int, Entry>, now: nat, timeout: nat)
    ensures StaleIn(m, now, timeout) == set fd | fd in m && now - m[fd].lastHeartbeat > timeout
  {
    var late := set fd | fd in m && now - m[fd].lastHeartbeat > timeout;
    assert forall fd :: fd in StaleIn(m, now, timeout) <==> fd in late;
  }

  // Descriptors of stale snapshot entries are descriptors of stale table entries.
  lemma CountedOnce(m: map<int, Entry>, entries: seq<Entry>, found: set<int>, now: nat, timeout: nat)
    requires forall i :: 0 <= i < |entries| ==> entries[i].fd in m && m[entries[i].fd] == entries[i]
    requires forall fd :: fd in m ==> m[fd] in entries && m[fd].fd == fd
    requires forall fd :: fd in found <==>
               exists k :: 0 <= k < |entries| && entries[k].fd == fd && Stale(entries[k], now, timeout)
    ensures found == StaleIn(m, now, timeout)
  {
    forall fd | fd in StaleIn(m, now, timeout) ensures fd in found {
      var k :| 0 <= k < |entries| && entries[k] == m[fd];
      assert entries[k].fd == fd;
    }
    forall fd | fd in found ensures fd in StaleIn(m, now, timeout) {
      var k :| 0 <= k < |entries| && entries[k].fd == fd && Stale(entries[k], now, timeout);
      assert m[fd] == entries[k];
    }
    assert found == StaleIn(m, now, timeout);
  }

  // ---------------------------------------------------------------- the check among the other threads

  // Where a check is: between its clock read and its snapshot, between that and the verdict, or done.
  datatype Check =
    | Resting
    | ClockRead(now: nat)
    | Snapped(now: nat, snapshot: map<int, Entry>, at: nat)  // `at`: the clock at the snapshot
    | Judged(now: nat, snapshot: map<int, Entry>, at: nat, stale: set<int>)

  // A heartbeat between its clock read and its write under the lock.
  datatype Beat = Beat(fd: int, stamp: nat)

  datatype State = State(clock: nat, entries: map<int, Entry>, beat: Option<Beat>, check: Check)

  datatype Step =
    | Tick(to: nat)
    | Register(fd: int, info: Info)  // the stamp is read under the lock
    | Unregister(fd: int)
    | ReadStamp(fd: int)
    | WriteStamp
    | ReadClock
    | TakeSnapshot
    | Judge

  // One service thread registers, stamps and unregisters, so none of the three falls inside a heartbeat.
  predicate Enabled(s: State, step: Step) {
    match step
    case Tick(to) => s.clock <= to
    case Register(fd, info) => s.beat.None? && Accepts(s.entries, fd, Some(info))
    case Unregister(_) => s.beat.None?
    case ReadStamp(_) => s.beat.None?
    case WriteStamp => s.beat.Some?
    case ReadClock => s.check.Resting? || s.check.Judged?
    case TakeSnapshot => s.check.ClockRead?
    case Judge => s.check.Snapped?
  }

  function Apply(s: State, step: Step, timeout: nat): (s': State)
    requires Enabled(s, step)
  {
    match step
    case Tick(to) => s.(clock := to)
    case Register(fd, info) => s.(entries := s.entries[fd := Entry(fd, info, s.clock)])
    case Unregister(fd) => s.(entries := s.entries - {fd})
    case ReadStamp(fd) => s.(beat := Some(Beat(fd, s.clock)))
    case WriteStamp =>
      var b := s.beat.value;
      var entries := if b.fd in s.entries then s.entries[b.fd := s.entries[b.fd].(lastHeartbeat := b.stamp)] else s.entries;
      s.(entries := entries, beat := None)
    case ReadClock => s.(check := ClockRead(s.clock))
    case TakeSnapshot => s.(check := Snapped(s.check.now, s.entries, s.clock))
    case Judge =>
      s.(check := Judged(s.check.now, s.check.snapshot, s.check.at, StaleIn(s.check.snapshot, s.check.now, timeout)))
  }

  predicate Runs(s: State, steps: seq<Step>, timeout: nat)
    decreases |steps|
  {
    steps == [] || (Enabled(s, steps[0]) && Runs(Apply(s, steps[0], timeout), steps[1..], timeout))
  }

  function After(s: State, steps: seq<Step>, timeout: nat): State
    requires Runs(s, steps, timeout)
    decreases |steps|
  {
    if steps == [] then s else After(Apply(s, steps[0], timeout), steps[1..], timeout)
  }

  predicate Initial(s: State) {
    s.entries == map[] && s.beat.None? && s.check.Resting?
  }

  // The client on `fd` is never late: time does not pass beyond its last stamp plus the timeout.
  predicate NeverLate(s: State, steps: seq<Step>, timeout: nat, fd: int)
    requires Runs(s, steps, timeout)
    decreases |steps|
  {
    steps == [] ||
    (&& (steps[0].Tick? && fd in s.entries ==> steps[0].to - s.entries[fd].lastHeartbeat <= timeout)
     && NeverLate(Apply(s, steps[0], timeout), steps[1..], timeout, fd))
  }

  // ---------------------------------------------------------------- what every run keeps

  // Stamps are never in the future, and a heartbeat under way is the newest of them.
  predicate InOrder(s: State) {
    && (forall fd :: fd in s.entries ==> s.entries[fd].lastHeartbeat <= s.clock)
    && (s.beat.Some? ==>
          && s.beat.value.stamp <= s.clock
          && forall fd :: fd in s.entries ==> s.entries[fd].lastHeartbeat <= s.beat.value.stamp)
  }

  // The clock was read before the snapshot, which was taken before now; the verdict is about the snapshot.
  predicate CheckInOrder(s: State, timeout: nat) {
    match s.check
    case Resting => true
    case ClockRead(now) => now <= s.clock
    case Snapped(now, _, at) => now <= at <= s.clock
    case Judged(now, snapshot, at, stale) => now <= at <= s.clock && stale == StaleIn(snapshot, now, timeout)
  }

  // What a check has seen of a client that is never late, it has seen in time.
  predicate SeenInTime(s: State, timeout: nat, fd: int) {
    && (fd in s.entries ==> !Stale(s.entries[fd], s.clock, timeout))
    && ((s.check.Snapped? || s.check.Judged?) && fd in s.check.snapshot ==>
          !Stale(s.check.snapshot[fd], s.check.at, timeout))
  }

  lemma StepKeeps(s: State, step: Step, timeout: nat)
    requires InOrder(s) && CheckInOrder(s, timeout) && Enabled(s, step)
    ensures InOrder(Apply(s, step, timeout)) && CheckInOrder(Apply(s, step, timeout), timeout)
  {
    hide Accepts, StaleIn;
  }

  lemma {:induction false} RunKeeps(s: State, steps: seq<Step>, timeout: nat)
    requires InOrder(s) && CheckInOrder(s, timeout) && Runs(s, steps, timeout)
    ensures InOrder(After(s, steps, timeout)) && CheckInOrder(After(s, steps, timeout), timeout)
    decreases |steps|
  {
    hide InOrder, CheckInOrder, Enabled, Apply;
    if steps != [] {
      StepKeeps(s, steps[0], timeout);
      RunKeeps(Apply(s, steps[0], timeout), steps[1..], timeout);
    }
  }

  // Whatever else runs in between: a client is counted only if, when the snapshot was taken, its stamp in the
  // table really was more than the timeout in the past.
  lemma CountedWereLate(s: State, steps: seq<Step>, timeout: nat)
    requires Initial(s) && Runs(s, steps, timeout) && After(s, steps, timeout).check.Judged?
    ensures var c := After(s, steps, timeout).check;
            && c.now <= c.at <= After(s, steps, timeout).clock
            && (forall fd :: fd in c.stale <==> fd in c.snapshot && c.now - c.snapshot[fd].lastHeartbeat > timeout)
            && forall fd :: fd in c.stale ==> c.at - c.snapshot[fd].lastHeartbeat > timeout
  {
    hide Runs, After;
    RunKeeps(s, steps, timeout);
  }

  lemma StepSeesInTime(s: State, step: Step, timeout: nat, fd: int)
    requires InOrder(s) && CheckInOrder(s, timeout) && Enabled(s, step) && SeenInTime(s, timeout, fd)
    requires step.Tick? && fd in s.entries ==> !Stale(s.entries[fd], step.to, timeout)
    ensures SeenInTime(Apply(s, step, timeout), timeout, fd)
  {
    hide Accepts, StaleIn;
  }

  lemma {:induction false} RunSeesInTime(s: State, steps: seq<Step>, timeout: nat, fd: int)
    requires InOrder(s) && CheckInOrder(s, timeout) && SeenInTime(s, timeout, fd)
    requires Runs(s, steps, timeout) && NeverLate(s, steps, timeout, fd)
    ensures SeenInTime(After(s, steps, timeout), timeout, fd)
    decreases |steps|
  {
    hide InOrder, CheckInOrder, SeenInTime, Enabled, Apply;
    if steps != [] {
      StepKeeps(s, steps[0], timeout);
      StepSeesInTime(s, steps[0], timeout, fd);
      RunSeesInTime(Apply(s, steps[0], timeout), steps[1..], timeout, fd);
    }
  }

  // No false alarm: a client that is never late is never counted, however the steps interleave.
  lemma NoFalseAlarm(s: State, steps: seq<Step>, timeout: nat, fd: int)
    requires Initial(s) && Runs(s, steps, timeout) && NeverLate(s, steps, timeout, fd)
    ensures After(s, steps, timeout).check.Judged? ==> fd !in After(s, steps, timeout).check.stale
  {
    RunSeesInTime(s, steps, timeout, fd);
    hide Runs, After, NeverLate;
    if After(s, steps, timeout).check.Judged? {
      CountedWereLate(s, steps, timeout);
    }
  }

  // ---------------------------------------------------------------- no missed alarm

  // A step of the service thread that concerns the client, or the start of another check.
  predicate Touches(s: State, step: Step, fd: int) {
    || (step.Register? && step.fd == fd) || (step.Unregister? && step.fd == fd)
    || (step.WriteStamp? && s.beat.Some? && s.beat.value.fd == fd)
    || step.ReadClock?
  }

  predicate Untouched(s: State, steps: seq<Step>, timeout: nat, fd: int)
    requires Runs(s, steps, timeout)
    decreases |steps|
  {
    steps == [] || (!Touches(s, steps[0], fd) && Untouched(Apply(s, steps[0], timeout), steps[1..], timeout, fd))
  }

  // The check that read the clock at `now` has the entry before it, in its snapshot, or among the stale ones.
  predicate OnItsWay(s: State, timeout: nat, fd: int, now: nat, e: Entry) {
    && fd in s.entries && s.entries[fd] == e
    && match s.check
       case Resting => false
       case ClockRead(n) => n == now
       case Snapped(n, snapshot, _) => n == now && fd in snapshot && snapshot[fd] == e
       case Judged(n, snapshot, _, stale) => n == now && fd in stale
  }

  lemma {:induction false} StaysOnItsWay(s: State, steps: seq<Step>, timeout: nat, fd: int, now: nat, e: Entry)
    requires OnItsWay(s, timeout, fd, now, e) && now - e.lastHeartbeat > timeout
    requires Runs(s, steps, timeout) && Untouched(s, steps, timeout, fd)
    ensures OnItsWay(After(s, steps, timeout), timeout, fd, now, e)
    decreases |steps|
  {
    hide Accepts;
    if steps != [] {
      StaysOnItsWay(Apply(s, steps[0], timeout), steps[1..], timeout, fd, now, e);
    }
  }

  // No missed alarm: a client that is late when a check reads the clock, and from which nothing more is heard, is
  // counted by that check.
  lemma NoMissedAlarm(s: State, before: seq<Step>, steps: seq<Step>, timeout: nat, fd: int)
    requires Initial(s) && Runs(s, before, timeout)
    requires var r := After(s, before, timeout);
             && Enabled(r, ReadClock) && fd in r.entries && r.clock - r.entries[fd].lastHeartbeat > timeout
             && var t := Apply(r, ReadClock, timeout);
                Runs(t, steps, timeout) && Untouched(t, steps, timeout, fd)
    ensures var e := After(Apply(After(s, before, timeout), ReadClock, timeout), steps, timeout);
            e.check.Judged? ==> fd in e.check.stale
  {
    var r := After(s, before, timeout);
    StaysOnItsWay(Apply(r, ReadClock, timeout), steps, timeout, fd, r.clock, r.entries[fd]);
  }

  // ---------------------------------------------------------------- the steps as the table runs them

  // The service thread's steps on the table itself; `beat` is the heartbeat it has read the time for.
  method RunStep(table: Table, step: Step, payload: seq<Byte>, clock: nat, beat: Option<Beat>, timeout: nat, ghost s: State)
    requires table.Valid() && table.Entries() == s.entries && clock == s.clock && beat == s.beat && Enabled(s, step)
    requires step.Register? ==> RegisterInfo(payload) == Some(step.info)
    modifies table.slots
    ensures table.Valid() && table.Entries() == Apply(s, step, timeout).entries
  {
    hide View, RegisterInfo;
    match step
    case Register(fd, info) =>
      var outcome := table.Register(fd, payload, clock);
    case Unregister(fd) =>
      var found := table.Unregister(fd);
    case WriteStamp =>
      var found := table.UpdateHeartbeat(beat.value.fd, beat.value.stamp);
    case _ =>
  }

  // A whole check that nothing interrupts counts what the machine judges.
  method RunCheck(table: Table, clock: nat, timeout: nat, ghost s: State) returns (stale: nat)
    requires table.Valid() && table.Entries() == s.entries && clock == s.clock && Enabled(s, ReadClock)
    ensures var read := Apply(s, ReadClock, timeout);
            var snapped := Apply(read, TakeSnapshot, timeout);
            stale == |Apply(snapped, Judge, timeout).check.stale|
  {
    hide View;
    stale := CheckHeartbeatsAt(table, clock, timeout);
    StaleByAge(table.Entries(), clock, timeout);
  }
}
