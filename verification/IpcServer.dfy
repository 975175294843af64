/**
 * The connection loop and the service loop (routerd/src/ipc_server.c:57-135): a receive buffer of one maximal
 * frame, decoding in place, dispatching, and moving what is left to the front. Proved for every way the
 * stream can be cut into receives, every error and interruption, and every point at which the daemon stops.
 */
module IpcServer {
  import opened Bytes
  import opened ProtoCodec
  import opened Deframing
  import opened RegisterPayload
  import opened Registry
  import opened Dispatcher

  const BUFFER_SIZE: nat := HEADER_SIZE + MAX_PAYLOAD

  // How serving a client ends: the peer closed, a receive failed, the daemon is stopping, a broken stream.
  datatype Finish = Closed | ReceiveFailed | Stopped | BrokenStream(error: Error)

  // ---------------------------------------------------------------- what the answers must be

  predicate WellFormedRegister(f: Frame) {
    f.cmd == REGISTER && RegisterInfo(f.payload).Some?
  }

  // The REGISTER frames among all frames, in order.
  function Registers(frames: seq<Frame>): (r: seq<Frame>)
    ensures forall i :: 0 <= i < |r| ==> r[i].cmd == REGISTER
  {
    if frames == [] then []
    else (if frames[|frames| - 1].cmd == REGISTER then Registers(frames[..|frames| - 1]) + [frames[|frames| - 1]]
          else Registers(frames[..|frames| - 1]))
  }

  predicate AnyWellFormed(frames: seq<Frame>) {
    frames != []
    && (WellFormedRegister(frames[|frames| - 1]) || AnyWellFormed(frames[..|frames| - 1]))
  }

  lemma {:induction false} AnyWellFormedMeans(frames: seq<Frame>)
    ensures AnyWellFormed(frames) <==> exists i :: 0 <= i < |frames| && WellFormedRegister(frames[i])
  {
    hide WellFormedRegister;
    if frames != [] {
      var n := |frames| - 1;
      AnyWellFormedMeans(frames[..n]);
      assert forall i :: 0 <= i < n ==> frames[..n][i] == frames[i];
    }
  }

  // One answer per REGISTER, with its sequence number, in order; only the first well-formed one is accepted.
  predicate AnswersFor(frames: seq<Frame>, acks: seq<Ack>) {
    var r := Registers(frames);
    && |acks| == |r|
    && forall i :: 0 <= i < |r| ==>
         && acks[i].seqNo == r[i].seqNo
         && (acks[i].ok <==> WellFormedRegister(r[i]) && !AnyWellFormed(r[..i]))
  }

  lemma {:induction false} RegistersKeepWellFormed(frames: seq<Frame>)
    ensures AnyWellFormed(Registers(frames)) <==> AnyWellFormed(frames)
  {
    hide RegisterInfo;
    if frames != [] {
      var n := |frames| - 1;
      RegistersKeepWellFormed(frames[..n]);
      assert Registers(frames[..n]) == (Registers(frames[..n]) + [frames[n]])[..|Registers(frames[..n])|];
    }
  }

  // Everything the kernel took, acknowledgement by acknowledgement.
  function AllAckBytes(acks: seq<Ack>): seq<Byte> {
    if acks == [] then [] else AllAckBytes(acks[..|acks| - 1]) + AckBytes(acks[|acks| - 1])
  }

  // Dispatching one more frame extends the answers as they must be.
  lemma AnswersExtend(frames: seq<Frame>, acks: seq<Ack>, f: Frame, ack: Option<Ack>)
    requires AnswersFor(frames, acks)
    requires ack.Some? <==> f.cmd == REGISTER
    requires ack.Some? ==>
               && ack.value.seqNo == f.seqNo
               && (ack.value.ok <==> WellFormedRegister(f) && !AnyWellFormed(frames))
    ensures AnswersFor(frames + [f], if ack.Some? then acks + [ack.value] else acks)
    ensures AnyWellFormed(frames + [f]) <==> AnyWellFormed(frames) || WellFormedRegister(f)
  {
    hide WellFormedRegister;
    var all := frames + [f];
    assert all[..|frames|] == frames && all[|frames|] == f;
    var r := Registers(frames);
    RegistersKeepWellFormed(frames);
    hide AnyWellFormed;
    if ack.Some? {
      assert Registers(all) == r + [f];
      assert Registers(all)[..|r|] == r;
      assert forall i :: 0 <= i < |r| ==> Registers(all)[..i] == r[..i];
    }
  }

  // ---------------------------------------------------------------- one connection

  // While a client is served the table holds at most one entry, which is the client's.
  ghost predicate OnlyClient(m: map<int, Entry>, fd: int) {
    m.Keys <= {fd}
  }

  lemma OnlyClientSize(m: map<int, Entry>, fd: int)
    requires OnlyClient(m, fd)
    ensures |m| <= 1
    ensures fd !in m ==> m == map[]
  {
    if fd in m {
      assert m.Keys == {fd};
    }
    assert |m| == |m.Keys|;
  }

  // memmove of the rest of the buffer to its front.
  method ShiftDown(buf: array<Byte>, length: nat, consumed: nat)
    requires consumed <= length <= buf.Length
    modifies buf
    ensures buf[..length - consumed] == old(buf[consumed..length])
  {
    forall i | 0 <= i < length - consumed {
      buf[i] := buf[consumed + i];
    }
  }

  // The client's entry after some frames dispatched at certain times: its first well-formed REGISTER makes it,
  // each HEARTBEAT after that renews the stamp.
  function ClientEntry(fd: int, frames: seq<Frame>, times: seq<nat>): (e: Option<Entry>)
    requires |frames| == |times|
  {
    if frames == [] then None
    else
      var n := |frames| - 1;
      var before := ClientEntry(fd, frames[..n], times[..n]);
      if before.None? then
        if WellFormedRegister(frames[n]) then Some(Entry(fd, RegisterInfo(frames[n].payload).value, times[n])) else None
      else if frames[n].cmd == HEARTBEAT then Some(before.value.(lastHeartbeat := times[n]))
      else before
  }

  // So the entry holds what the payload of the first well-formed REGISTER says, and the time of the last
  // HEARTBEAT after it, or of that REGISTER when none has come.
  lemma {:induction false} ClientEntryMeans(fd: int, frames: seq<Frame>, times: seq<nat>) returns (first: nat, last: nat)
    requires |frames| == |times|
    ensures var e := ClientEntry(fd, frames, times);
            && (e.None? <==> forall i :: 0 <= i < |frames| ==> !(frames[i].cmd == 1 && RegisterInfo(frames[i].payload).Some?))
            && (e.Some? ==>
                  && first <= last < |frames|
                  && frames[first].cmd == 1 && RegisterInfo(frames[first].payload).Some?
                  && (forall i :: 0 <= i < first ==> !(frames[i].cmd == 1 && RegisterInfo(frames[i].payload).Some?))
                  && (last == first || frames[last].cmd == 3)
                  && (forall i :: last < i < |frames| ==> frames[i].cmd != 3)
                  && e.value == Entry(fd, RegisterInfo(frames[first].payload).value, times[last]))
  {
    hide RegisterInfo;
    first, last := 0, 0;
    if frames != [] {
      var n := |frames| - 1;
      var front := frames[..n];
      first, last := ClientEntryMeans(fd, front, times[..n]);
      assert forall i :: 0 <= i < n ==> front[i] == frames[i];
      if ClientEntry(fd, front, times[..n]).None? {
        first, last := n, n;
      } else if frames[n].cmd == HEARTBEAT {
        last := n;
      }
    }
  }

  function ClientTable(fd: int, frames: seq<Frame>, times: seq<nat>): (m: map<int, Entry>)
    requires |frames| == |times|
    ensures OnlyClient(m, fd)
  {
    var e := ClientEntry(fd, frames, times);
    if e.Some? then map[fd := e.value] else map[]
  }

  lemma {:induction false} ClientKnown(fd: int, frames: seq<Frame>, times: seq<nat>)
    requires |frames| == |times|
    ensures ClientEntry(fd, frames, times).Some? <==> AnyWellFormed(frames)
  {
    hide WellFormedRegister;
    if frames != [] {
      ClientKnown(fd, frames[..|frames| - 1], times[..|frames| - 1]);
    }
  }

  // What one dispatch at time `now` does to the client's table.
  lemma ClientTableGrows(fd: int, frames: seq<Frame>, times: seq<nat>, f: Frame, now: nat)
    requires |frames| == |times|
    ensures var m := ClientTable(fd, frames, times);
            ClientTable(fd, frames + [f], times + [now]) ==
              if f.cmd == 1 && fd !in m && RegisterInfo(f.payload).Some? then m[fd := Entry(fd, RegisterInfo(f.payload).value, now)]
              else if f.cmd == 3 && fd in m then m[fd := m[fd].(lastHeartbeat := now)]
              else m
  {
    hide RegisterInfo;
    assert (frames + [f])[..|frames|] == frames && (times + [now])[..|times|] == times;
  }

  // What the connection has done so far, frame by frame and time by time, and what it has left in the world.
  ghost predicate Consistent(c: Connection, table: Table, frames: seq<Frame>, times: seq<nat>, acks: seq<Ack>)
    reads c`wire, table.slots
  {
    && table.Valid()
    && |frames| == |times| && table.Entries() == ClientTable(c.fd, frames, times)
    && AnswersFor(frames, acks)
    && c.wire == AllAckBytes(acks)
  }

  // One decoded frame. A REGISTER is never refused for another client's device id or for a full table.
  method Serve(c: Connection, table: Table, frame: Frame, ghost frames: seq<Frame>, ghost times: seq<nat>, acks: seq<Ack>)
    returns (acks': seq<Ack>, outcome: Option<Outcome>, now: nat)
    requires Consistent(c, table, frames, times, acks)
    modifies c`wire, c`patience, c`refusals, c`failures, table.slots
    ensures Consistent(c, table, frames + [frame], times + [now], acks') && c.patience <= old(c.patience)
    ensures outcome.Some? <==> frame.cmd == 1
    ensures outcome != Some(DeviceTaken) && outcome != Some(TableFull)
    ensures outcome == Some(FdTaken) ==> AnyWellFormed(frames)
  {
    hide AnswersFor, AnyWellFormed, View, RegisterInfo, AckBytes, ClientEntry;
    OnlyClientSize(table.Entries(), c.fd);
    ClientKnown(c.fd, frames, times);
    var ack;
    ack, outcome, now := Dispatch(c, frame, table);
    ClientTableGrows(c.fd, frames, times, frame, now);
    AnswersExtend(frames, acks, frame, ack);
    if ack.None? {
      return acks, outcome, now;
    }
    acks' := acks + [ack.value];
    assert acks'[..|acks|] == acks;
  }

  // Where recv puts what it delivers.
  method StoreChunk(buf: array<Byte>, length: nat, chunk: seq<Byte>)
    requires length + |chunk| <= buf.Length
    modifies buf
    ensures buf[..length + |chunk|] == old(buf[..length]) + chunk
  {
    forall i | 0 <= i < |chunk| {
      buf[length + i] := chunk[i];
    }
  }

  // The inner loop: decode and dispatch until the buffer holds no complete frame.
  method DrainBuffer(c: Connection, table: Table, buf: array<Byte>, length: nat, dispatched: seq<Frame>,
                     read: seq<nat>, answered: seq<Ack>)
    returns (left: nat, frames: seq<Frame>, times: seq<nat>, acks: seq<Ack>, error: Option<Error>)
    requires length <= buf.Length
    requires Consistent(c, table, dispatched, read, answered)
    modifies buf, c`wire, c`patience, c`refusals, c`failures, table.slots
    ensures left <= length && c.patience <= old(c.patience)
    ensures Consistent(c, table, frames, times, acks) && read <= times
    ensures var s := Deframe(old(buf[..length]));
            && frames == dispatched + s.frames
            && s.end == if error.Some? then Broken(error.value) else Residue(buf[..left])
  {
    hide Decode, AnswersFor, AnyWellFormed, AllAckBytes, View, ClientTable;
    ghost var whole := Deframe(buf[..length]);
    left, frames, times, acks, error := length, dispatched, read, answered, None;
    while true
      invariant left <= length && c.patience <= old(c.patience)
      invariant Consistent(c, table, frames, times, acks) && read <= times
      invariant dispatched + whole.frames == frames + Deframe(buf[..left]).frames
      invariant whole.end == Deframe(buf[..left]).end
      decreases left
    {
      match Decode(buf[..left]) {
        case Incomplete =>
          return;
        case Rejected(e) =>
          error := Some(e);
          return;
        case Complete(frame, consumed) =>
          ghost var rest := Deframe(buf[..left][consumed..]);
          assert frames + ([frame] + rest.frames) == (frames + [frame]) + rest.frames;
          assert buf[..left][consumed..] == buf[consumed..left];
          var outcome, now;
          acks, outcome, now := Serve(c, table, frame, frames, times, acks);
          frames, times := frames + [frame], times + [now];
          ShiftDown(buf, left, consumed);
          left := left - consumed;
      }
    }
  }

  // What has been deframed of a prefix stands, whatever follows.
  lemma StreamPrefix(s: seq<Byte>, more: seq<Byte>)
    ensures Deframe(s).frames <= Deframe(s + more).frames
    ensures Deframe(s).end.Broken? ==> Deframe(s + more) == Deframe(s)
  {
    hide Deframe;
    DeframeAppend(s, more);
  }

  lemma NothingYet(c: Connection, table: Table)
    requires table.Valid() && table.Entries() == map[] && c.wire == []
    ensures Deframe([]) == Stream([], Residue([])) && Consistent(c, table, [], [], [])
  {
  }

  lemma AtTheEnd(c: Connection, table: Table, frames: seq<Frame>, times: seq<nat>, acks: seq<Ack>)
    requires Consistent(c, table, frames, times, acks)
    ensures table.Valid() && table.Entries() - {c.fd} == map[]
    ensures AnswersFor(frames, acks) && c.wire == AllAckBytes(acks)
  {
  }

  // handle_client. For every stream the peer may send and every way it arrives:
  // - the frames dispatched and the way the loop ends are those of deframing what was received in one go:
  //   the whole stream when the peer closes, and a prefix that decides it all when the stream is broken;
  // - the answers are those AnswersFor demands, and only prefixes of their frames went out;
  // - the client's entry is gone afterwards.
  method HandleClient(c: Connection, table: Table) returns (frames: seq<Frame>, acks: seq<Ack>, finish: Finish)
    requires table.Valid() && table.Entries() == map[]
    requires c.received == [] && c.wire == []
    modifies c, table.slots
    ensures table.Valid() && table.Entries() == map[]
    ensures c.received + c.incoming == old(c.incoming)
    ensures frames == Deframe(c.received).frames
    ensures finish.BrokenStream? ==> Deframe(c.received).end == Broken(finish.error)
    ensures !finish.BrokenStream? ==> Deframe(c.received).end.Residue?
    ensures finish.Closed? ==> c.received == old(c.incoming)
    ensures frames <= Deframe(old(c.incoming)).frames
    ensures finish.BrokenStream? ==>
              Deframe(old(c.incoming)) == Stream(frames, Broken(finish.error))
    ensures AnswersFor(frames, acks) && c.wire == AllAckBytes(acks)
  {
    hide Deframe, AnswersFor, AnyWellFormed, View, AllAckBytes, Consistent;
    ghost var stream := c.incoming;
    var buf := new Byte[BUFFER_SIZE];
    var length: nat := 0;
    frames, acks := [], [];
    var times := [];
    finish := Stopped;
    NothingYet(c, table);
    var running: bool := *;
    while running
      invariant length < BUFFER_SIZE && buf.Length == BUFFER_SIZE
      invariant finish.Stopped?
      invariant c.received + c.incoming == stream
      invariant Deframe(c.received) == Stream(frames, Residue(buf[..length]))
      invariant Consistent(c, table, frames, times, acks)
      decreases |c.incoming|, c.patience, running
    {
      ghost var had := c.received;
      var r := c.Recv(BUFFER_SIZE - length);
      match r {
        case EndOfStream =>
          finish := Closed;
          break;
        case RecvInterrupted =>
        case RecvFailed =>
          finish := ReceiveFailed;
          break;
        case Data(chunk) =>
          StoreChunk(buf, length, chunk);
          DeframeAppend(had, chunk);
          length := length + |chunk|;
          var error;
          length, frames, times, acks, error := DrainBuffer(c, table, buf, length, frames, times, acks);
          if error.Some? {
            finish := BrokenStream(error.value);
            break;
          }
          ResidueIsShort(c.received);
          if length == BUFFER_SIZE {
            assert false;
          }
      }
      running := *;
    }
    StreamPrefix(c.received, c.incoming);
    AtTheEnd(c, table, frames, times, acks);
    var found := table.Unregister(c.fd);
  }

  // ---------------------------------------------------------------- the service loop

  // What accept may return: an error, or a connection whose peer will send `stream`.
  datatype Arrival = NoClient | Client(fd: int, stream: seq<Byte>, patience: nat)

  datatype Session = Session(arrival: Arrival, frames: seq<Frame>, acks: seq<Ack>, finish: Finish)

  predicate SessionCorrect(s: Session) {
    && s.arrival.Client?
    && AnswersFor(s.frames, s.acks)
    && s.frames <= Deframe(s.arrival.stream).frames
    && (s.finish.Closed? ==> s.frames == Deframe(s.arrival.stream).frames)
    && (s.finish.BrokenStream? ==> Deframe(s.arrival.stream) == Stream(s.frames, Broken(s.finish.error)))
  }

  // The connections among the arrivals, in order.
  function Clients(arrivals: seq<Arrival>): (r: seq<Arrival>) {
    if arrivals == [] then []
    else
      var n := |arrivals| - 1;
      Clients(arrivals[..n]) + (if arrivals[n].Client? then [arrivals[n]] else [])
  }

  function Served(sessions: seq<Session>): (r: seq<Arrival>) {
    seq(|sessions|, i requires 0 <= i < |sessions| => sessions[i].arrival)
  }

  // ipc_thread: clients are served one after the other, each to its end, and the table is empty in between.
  method ServeAll(table: Table, arrivals: seq<Arrival>) returns (sessions: seq<Session>, next: nat)
    requires table.Valid() && table.Entries() == map[]
    modifies table.slots
    ensures table.Valid() && table.Entries() == map[]
    ensures forall i :: 0 <= i < |sessions| ==> SessionCorrect(sessions[i])
    ensures next <= |arrivals| && Served(sessions) == Clients(arrivals[..next])
  {
    hide SessionCorrect, View;
    sessions, next := [], 0;
    var running: bool := *;
    while running && next < |arrivals|
      invariant next <= |arrivals| && Served(sessions) == Clients(arrivals[..next])
      invariant table.Valid() && table.Entries() == map[]
      invariant forall i :: 0 <= i < |sessions| ==> SessionCorrect(sessions[i])
    {
      var arrival := arrivals[next];
      assert arrivals[..next + 1][..next] == arrivals[..next];
      next := next + 1;
      if arrival.Client? {
        var c := new Connection(arrival.fd, arrival.stream, arrival.patience);
        var frames, acks, finish := HandleClient(c, table);
        var session := Session(arrival, frames, acks, finish);
        SessionIs(session, c.received);
        sessions := sessions + [session];
      }
      running := *;
    }
  }

  lemma SessionIs(s: Session, received: seq<Byte>)
    requires s.arrival.Client? && AnswersFor(s.frames, s.acks)
    requires s.frames <= Deframe(s.arrival.stream).frames
    requires s.frames == Deframe(received).frames
    requires s.finish.Closed? ==> received == s.arrival.stream
    requires s.finish.BrokenStream? ==> Deframe(s.arrival.stream) == Stream(s.frames, Broken(s.finish.error))
    ensures SessionCorrect(s)
  {
    hide Deframe, AnswersFor;
  }
}
