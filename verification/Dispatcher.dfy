/**
 * Frame dispatch and the REGISTER acknowledgement (routerd/src/proto_dispatcher.c:29-150). The peer and the
 * kernel are an adversary: every call on a connection may take any outcome the call allows.
 */
module Dispatcher {
  import opened Bytes
  import opened ProtoCodec
  import opened RegisterPayload
  import opened Registry
  import JsonText
  import JsonGrammar
  import JsonRoundTrip

  const REGISTER: U8 := 0x01
  const REGISTER_ACK: U8 := 0x02
  const HEARTBEAT: U8 := 0x03
  const MAX_RETRIES: nat := 8

  datatype SendResult = Took(n: nat) | WouldBlock | Interrupted | Failed

  datatype RecvResult = Data(chunk: seq<Byte>) | EndOfStream | RecvInterrupted | RecvFailed

  // One client connection. `incoming` is everything the peer is still going to send, `received` what has
  // been read of it, `wire` what the kernel has taken for the peer. A call is interrupted only finitely often.
  class Connection {
    const fd: int
    var incoming: seq<Byte>
    var patience: nat
    ghost var received: seq<Byte>
    ghost var wire: seq<Byte>
    ghost var refusals: nat  // sends that found the socket full
    ghost var failures: nat  // sends that failed for good

    constructor (fd: int, incoming: seq<Byte>, patience: nat)
      ensures this.fd == fd && this.incoming == incoming && received == [] && wire == []
    {
      this.fd, this.incoming, this.patience := fd, incoming, patience;
      received, wire, refusals, failures := [], [], 0, 0;
    }

    // send(MSG_DONTWAIT): any non-empty prefix may be taken, or nothing for one of three reasons.
    method Send(bytes: seq<Byte>) returns (r: SendResult)
      requires bytes != []
      modifies this`wire, this`patience, this`refusals, this`failures
      ensures refusals == old(refusals) + (if r.WouldBlock? then 1 else 0)
      ensures failures == old(failures) + (if r.Failed? then 1 else 0)
      ensures r.Took? ==> 0 < r.n <= |bytes| && wire == old(wire) + bytes[..r.n]
      ensures !r.Took? ==> wire == old(wire)
      ensures r.Interrupted? ==> patience < old(patience)
      ensures !r.Interrupted? ==> patience == old(patience)
    {
      var choice: int := *;
      if choice == 0 {
        refusals := refusals + 1;
        return WouldBlock;
      } else if choice == 1 && patience > 0 {
        patience := patience - 1;
        return Interrupted;
      } else if choice == 2 {
        failures := failures + 1;
        return Failed;
      }
      var n: nat :| 0 < n <= |bytes|;
      wire := wire + bytes[..n];
      return Took(n);
    }

    // recv: any non-empty prefix of what is coming that fits the room; a zero return when the peer is done
    // or when there is no room; or an error.
    method Recv(room: nat) returns (r: RecvResult)
      modifies this`incoming, this`received, this`patience
      ensures r.Data? ==> 0 < |r.chunk| <= room && old(incoming) == r.chunk + incoming && received == old(received) + r.chunk
      ensures !r.Data? ==> incoming == old(incoming) && received == old(received)
      ensures r.EndOfStream? ==> room == 0 || incoming == []
      ensures r.RecvInterrupted? ==> patience < old(patience)
      ensures !r.RecvInterrupted? ==> patience == old(patience)
    {
      var choice: int := *;
      if choice == 0 && patience > 0 {
        patience := patience - 1;
        return RecvInterrupted;
      } else if choice == 1 {
        return RecvFailed;
      }
      if room == 0 || incoming == [] {
        return EndOfStream;
      }
      var n: nat :| 0 < n <= |incoming| && n <= room by {
        assert 0 < 1 <= |incoming| && 1 <= room;
      }
      var chunk := incoming[..n];
      incoming := incoming[n..];
      received := received + chunk;
      return Data(chunk);
    }
  }

  // ---------------------------------------------------------------- acknowledgements

  // {"ok":true} or {"ok":false}
  function AckPayload(ok: bool): (t: seq<Byte>)
    ensures |t| < 32
  {
    [123, 34, 111, 107, 34, 58] + (if ok then [116, 114, 117, 101] else [102, 97, 108, 115, 101]) + [125]
  }

  function AckFrame(seqNo: U32, ok: bool): (f: Frame)
    ensures |f.payload| < 32
  {
    Frame(REGISTER_ACK, seqNo, AckPayload(ok))
  }

  // The bytes of an acknowledgement: command 2, the request's sequence number, and {"ok":true} or {"ok":false}.
  lemma AckLayout(seqNo: U32, ok: bool)
    ensures var t := Wire(AckFrame(seqNo, ok));
            && |t| == (if ok then 23 else 24)
            && t[0] == 0x7C && t[1] == 0xEB && t[2] == 1 && t[3] == 2
            && seqNo == t[4] as int + 256 * t[5] as int + 65536 * t[6] as int + 16777216 * t[7] as int
            && t[8] as int == |t| - 12 && t[9] == 0 && t[10] == 0 && t[11] == 0
            && t[12..] == if ok then [123, 34, 111, 107, 34, 58, 116, 114, 117, 101, 125]
                          else [123, 34, 111, 107, 34, 58, 102, 97, 108, 115, 101, 125]
  {
    hide Wire;
    WireLayout(AckFrame(seqNo, ok));
  }

  // The hand-built payload is JSON: it parses to an object holding the answer and nothing else.
  lemma AckIsJson(ok: bool)
    ensures JsonGrammar.Parse(AckPayload(ok)) ==
            JsonGrammar.Ok(JsonText.Obj([JsonText.Member([111, 107], JsonText.Bool(ok))]), |AckPayload(ok)|)
  {
    var v := JsonText.Obj([JsonText.Member([111, 107], JsonText.Bool(ok))]);
    AckPrinted(ok);
    assert JsonText.NestingOfMembers(v.members) == 0;
    hide JsonText.Render, JsonGrammar.Parse;
    JsonRoundTrip.PrintThenParseExactly(v, false);
  }

  lemma AckPrinted(ok: bool)
    ensures JsonText.Render(JsonText.Obj([JsonText.Member([111, 107], JsonText.Bool(ok))]), false, 0) == AckPayload(ok)
  {
    var m := JsonText.Member([111, 107], JsonText.Bool(ok));
    assert JsonText.EscapeText([107]) == [107];
    assert JsonText.EscapeText([111, 107]) == [111, 107];
    assert JsonText.RenderMember(m, true, false, 1) == [34, 111, 107, 34, 58] + JsonText.Render(m.value, false, 1);
    assert [m][1..] == [];
    assert JsonText.RenderMembers([m], false, 1) == JsonText.RenderMember(m, true, false, 1);
  }

  // What became of one acknowledgement: how much of its frame went out, and how often the sender slept.
  datatype AckRecord = AckRecord(seqNo: U32, ok: bool, sent: nat, naps: nat)

  type Ack = a: AckRecord | a.sent <= |Wire(AckFrame(a.seqNo, a.ok))| && a.naps <= MAX_RETRIES
    witness AckRecord(0, false, 0, 0)

  // The part of the frame the kernel took.
  function AckBytes(a: Ack): seq<Byte> {
    Wire(AckFrame(a.seqNo, a.ok))[..a.sent]
  }

  // send_nonblock_retry: whatever happens, a prefix of the data goes out, and success means all of it. The
  // sender sleeps once for each of the first 8 refusals, and gives up on the 9th or on a failure, only.
  method SendRetry(c: Connection, data: seq<Byte>) returns (ok: bool, sent: nat, naps: nat)
    modifies c`wire, c`patience, c`refusals, c`failures
    ensures sent <= |data| && c.wire == old(c.wire) + data[..sent]
    ensures ok <==> sent == |data|
    ensures ok <==> c.failures == old(c.failures) && c.refusals <= old(c.refusals) + 8
    ensures c.failures <= old(c.failures) + 1 && c.refusals <= old(c.refusals) + 9
    ensures naps == if c.refusals - old(c.refusals) <= 8 then c.refusals - old(c.refusals) else 8
    ensures c.patience <= old(c.patience)
  {
    sent, naps := 0, 0;
    var retries := 0;
    while sent < |data|
      invariant sent <= |data| && retries == naps <= MAX_RETRIES
      invariant c.refusals == old(c.refusals) + retries && c.failures == old(c.failures)
      invariant c.wire == old(c.wire) + data[..sent]
      invariant c.patience <= old(c.patience)
      decreases |data| - sent, c.patience, MAX_RETRIES - retries
    {
      var w := c.Send(data[sent..]);
      match w {
        case Took(n) =>
          assert data[..sent] + data[sent..][..n] == data[..sent + n];
          sent := sent + n;
        case WouldBlock =>
          retries := retries + 1;
          if retries > MAX_RETRIES {
            return false, sent, naps;
          }
          naps := naps + 1;
        case Interrupted =>
        case Failed =>
          return false, sent, naps;
      }
    }
    ok := true;
  }

  method SendRegisterAck(c: Connection, seqNo: U32, ok: bool) returns (a: Ack)
    modifies c`wire, c`patience, c`refusals, c`failures
    ensures a.seqNo == seqNo && a.ok == ok
    ensures a.sent == |Wire(AckFrame(seqNo, ok))| <==>
            c.failures == old(c.failures) && c.refusals <= old(c.refusals) + 8
    ensures c.wire == old(c.wire) + AckBytes(a)
    ensures c.patience <= old(c.patience)
  {
    hide Wire;
    var frame := new Byte[HEADER_SIZE + 32];
    var n, error := Encode(AckFrame(seqNo, ok), frame);
    var done, sent, naps := SendRetry(c, frame[..n]);
    return AckRecord(seqNo, ok, sent, naps);
  }

  // ---------------------------------------------------------------- dispatch

  // proto_dispatch. Only REGISTER (command 1) is answered, always once and with its own sequence number. An
  // accepted REGISTER enters the client with what its payload says and the time, a HEARTBEAT (command 3) of a
  // registered client renews its stamp, and nothing else changes the table. `now` is the time read on the way.
  method Dispatch(c: Connection, f: Frame, table: Table)
    returns (ack: Option<Ack>, outcome: Option<Outcome>, now: nat)
    requires table.Valid()
    modifies c`wire, c`patience, c`refusals, c`failures, table.slots
    ensures table.Valid() && c.patience <= old(c.patience)
    ensures ack.Some? <==> f.cmd == 1
    ensures outcome.Some? <==> f.cmd == 1
    ensures ack.Some? ==>
              && ack.value.seqNo == f.seqNo
              && ack.value.ok == outcome.value.Registered?
              && (ack.value.ok <==> Accepts(old(table.Entries()), c.fd, RegisterInfo(f.payload)))
              && c.wire == old(c.wire) + AckBytes(ack.value)
    ensures ack.None? ==> c.wire == old(c.wire)
    ensures outcome == Some(DeviceTaken) ==> exists fd :: fd in old(table.Entries()) && fd != c.fd
    ensures outcome == Some(FdTaken) ==> c.fd in old(table.Entries())
    ensures outcome == Some(TableFull) ==> |old(table.Entries())| == 32
    ensures table.Entries() ==
            if f.cmd == 1 && Accepts(old(table.Entries()), c.fd, RegisterInfo(f.payload)) then
              old(table.Entries())[c.fd := Entry(c.fd, RegisterInfo(f.payload).value, now)]
            else if f.cmd == 3 && c.fd in old(table.Entries()) then
              old(table.Entries())[c.fd := old(table.Entries())[c.fd].(lastHeartbeat := now)]
            else old(table.Entries())
  {
    hide Wire, View, RegisterInfo;
    ack, outcome := None, None;
    now := *;
    if f.cmd == REGISTER {
      var o := table.Register(c.fd, f.payload, now);
      var a := SendRegisterAck(c, f.seqNo, o.Registered?);
      ack, outcome := Some(a), Some(o);
    } else if f.cmd == HEARTBEAT {
      var found := table.UpdateHeartbeat(c.fd, now);
    }
  }
}
