/**
 * Forwarding, end to end: the routes of a port (routerd/src/config_store.c:394-416), the reactor's fan-out of
 * one read over them (routerd/src/reactor.c:124-199), and what the dispatcher gets to see of it through the
 * bounded queue.
 */
module Forwarding {
  import opened Bytes
  import opened EventQueue

  const MAX_DATA: nat := 1024
  const MAX_FANOUT: nat := 16

  datatype Route = Route(src: seq<Byte>, dst: seq<Byte>, handler: seq<Byte>)

  type Buffer = b: seq<Byte> | |b| == MAX_DATA witness seq(MAX_DATA, _ => 0)

  datatype Handled = Handled(len: CInt, buf: Buffer)

  // Plugin code: from the moment of the call, the buffer and the length, a result and a rewritten buffer. The
  // moment lets one handler answer differently each time, so nothing is assumed about it.
  type Handler = (nat, Buffer, nat) -> Handled

  datatype Registration = Registration(name: seq<Byte>, call: Handler)

  // ---------------------------------------------------------------- choosing routes

  predicate From(r: Route, src: seq<Byte>) {
    CString(r.src) == CString(src)
  }

  // The routes of a source, in the order of the configuration.
  function Matching(routes: seq<Route>, src: seq<Byte>): (m: seq<Route>)
    ensures |m| <= |routes|
    ensures forall r :: r in m <==> r in routes && From(r, src)
  {
    if routes == [] then []
    else
      var n := |routes| - 1;
      Matching(routes[..n], src) + (if From(routes[n], src) then [routes[n]] else [])
  }

  function FirstOf<T>(s: seq<T>, n: nat): (t: seq<T>)
    ensures t <= s && |t| <= n && (|s| <= n ==> t == s)
  {
    if |s| <= n then s else s[..n]
  }

  lemma OneMoreRoute(routes: seq<Route>, i: nat, src: seq<Byte>, cap: nat)
    requires i < |routes|
    ensures var found := FirstOf(Matching(routes[..i], src), cap);
            FirstOf(Matching(routes[..i + 1], src), cap)
            == found + (if From(routes[i], src) && |found| < cap then [routes[i]] else [])
  {
    hide From;
    assert routes[..i + 1][..i] == routes[..i];
  }

  method FindRoutes(routes: seq<Route>, src: seq<Byte>, out: array<Route>) returns (count: nat)
    modifies out
    ensures count <= out.Length && out[..count] == FirstOf(Matching(routes, src), out.Length)
  {
    hide Matching, FirstOf, CString;
    count := 0;
    assert Matching(routes[..0], src) == [];
    for i := 0 to |routes|
      invariant count <= out.Length && out[..count] == FirstOf(Matching(routes[..i], src), out.Length)
    {
      OneMoreRoute(routes, i, src, out.Length);
      if From(routes[i], src) {
        if count < out.Length {
          out[count] := routes[i];
          count := count + 1;
        }
      }
    }
    assert routes[..|routes|] == routes;
  }

  // ---------------------------------------------------------------- handlers

  function FirstHandler(table: seq<Registration>, name: seq<Byte>): (h: Option<Handler>)
    ensures h.None? <==> forall e :: e in table ==> CString(e.name) != CString(name)
  {
    if table == [] then None
    else if CString(table[0].name) == CString(name) then Some(table[0].call)
    else FirstHandler(table[1..], name)
  }

  method GetHandler(table: seq<Registration>, name: seq<Byte>) returns (h: Option<Handler>)
    ensures h == FirstHandler(table, name)
  {
    for i := 0 to |table|
      invariant FirstHandler(table, name) == FirstHandler(table[i..], name)
    {
      if CString(table[i].name) == CString(name) {
        return Some(table[i].call);
      }
      assert table[i..][1..] == table[i + 1..];
    }
    return None;
  }

  // ---------------------------------------------------------------- fanning one read out

  // What one route makes of the buffer: perhaps a message, and the buffer as the next route finds it.
  function Through(r: Route, table: seq<Registration>, moment: nat, buf: Buffer, len: nat): (Option<Message>, Buffer)
    requires len < MAX_DATA
  {
    match FirstHandler(table, r.handler)
    case None => (Some(Message(r.dst, buf[..len])), buf)
    case Some(h) =>
      var done := h(moment, buf, len);
      if done.len < 0 then (None, done.buf)
      else (Some(Message(r.dst, FirstOf(done.buf, done.len))), done.buf)
  }

  function Opt(m: Option<Message>): (s: seq<Message>)
    ensures |s| <= 1
  {
    if m.Some? then [m.value] else []
  }

  function Fan(routes: seq<Route>, table: seq<Registration>, moment: nat, buf: Buffer, len: nat): (msgs: seq<Message>)
    requires len < MAX_DATA
  {
    if routes == [] then []
    else
      var (m, buf') := Through(routes[0], table, moment, buf, len);
      Opt(m) + Fan(routes[1..], table, moment + 1, buf', len)
  }

  function BufferAfter(routes: seq<Route>, table: seq<Registration>, moment: nat, buf: Buffer, len: nat): Buffer
    requires len < MAX_DATA
  {
    if routes == [] then buf
    else BufferAfter(routes[1..], table, moment + 1, Through(routes[0], table, moment, buf, len).1, len)
  }

  lemma {:induction false} FanSnoc(routes: seq<Route>, r: Route, table: seq<Registration>, moment: nat, buf: Buffer, len: nat)
    requires len < MAX_DATA
    ensures var buf' := BufferAfter(routes, table, moment, buf, len);
            var (m, buf'') := Through(r, table, moment + |routes|, buf', len);
            && Fan(routes + [r], table, moment, buf, len) == Fan(routes, table, moment, buf, len) + Opt(m)
            && BufferAfter(routes + [r], table, moment, buf, len) == buf''
  {
    hide Through, Opt;
    var all := routes + [r];
    if routes == [] {
      assert all[0] == r && all[1..] == [];
      var t := Through(r, table, moment, buf, len);
      assert BufferAfter([], table, moment + 1, t.1, len) == t.1;
      assert Opt(t.0) + [] == [] + Opt(t.0);
    } else {
      assert all[0] == routes[0] && all[1..] == routes[1..] + [r];
      var (m, next) := Through(routes[0], table, moment, buf, len);
      FanSnoc(routes[1..], r, table, moment + 1, next, len);
    }
  }

  // The loop over the routes. Handlers rewrite the one buffer in place, for later routes too.
  method FanOut(routes: seq<Route>, table: seq<Registration>, moment: nat, buf: array<Byte>, len: nat)
    returns (pushed: seq<Message>)
    requires buf.Length == MAX_DATA && len < MAX_DATA
    modifies buf
    ensures pushed == Fan(routes, table, moment, old(buf[..]), len)
    ensures buf[..] == BufferAfter(routes, table, moment, old(buf[..]), len)
  {
    hide FirstHandler, Fan, BufferAfter;
    ghost var start: Buffer := buf[..];
    pushed := [];
    FanNone(table, moment, start, len);
    assert routes[..0] == [];
    for j := 0 to |routes|
      invariant pushed == Fan(routes[..j], table, moment, start, len)
      invariant buf[..] == BufferAfter(routes[..j], table, moment, start, len)
    {
      var r := routes[j];
      ghost var found: Buffer := buf[..];
      assert routes[..j + 1] == routes[..j] + [r];
      FanSnoc(routes[..j], r, table, moment, start, len);
      ghost var through := Through(r, table, moment + j, found, len);
      var handler := GetHandler(table, r.handler);
      var dataLen: int := len;
      if handler.Some? {
        var done := handler.value(moment + j, buf[..], len);
        assert done == handler.value(moment + j, found, len);
        forall i | 0 <= i < MAX_DATA { buf[i] := done.buf[i]; }
        assert buf[..] == done.buf;
        dataLen := done.len;
        if dataLen < 0 {
          assert pushed + Opt(through.0) == pushed;
          continue;
        }
        if dataLen > MAX_DATA {
          dataLen := MAX_DATA;
        }
        assert through.1 == done.buf;
        assert buf[..dataLen] == buf[..][..dataLen] == FirstOf(done.buf, done.len);
      }
      assert through.0 == Some(Message(r.dst, buf[..dataLen]));
      pushed := pushed + [Message(r.dst, buf[..dataLen])];
    }
    assert routes[..|routes|] == routes;
  }

  lemma FanNone(table: seq<Registration>, moment: nat, buf: Buffer, len: nat)
    requires len < MAX_DATA
    ensures Fan([], table, moment, buf, len) == [] && BufferAfter([], table, moment, buf, len) == buf
  {
  }

  // ---------------------------------------------------------------- what one read yields

  // The messages pushed for `data` read from port `src`, with `stale` what the stack buffer held before.
  function FromRead(routes: seq<Route>, table: seq<Registration>, moment: nat, src: seq<Byte>, data: seq<Byte>,
                    stale: Buffer): seq<Message>
    requires |data| < MAX_DATA
  {
    Fan(FirstOf(Matching(routes, src), MAX_FANOUT), table, moment, Filled(data, stale), |data|)
  }

  function Filled(data: seq<Byte>, stale: Buffer): (buf: Buffer)
    requires |data| < MAX_DATA
    ensures data + [0] <= buf
  {
    data + [0] + stale[|data| + 1..]
  }

  method HandleRead(routes: seq<Route>, table: seq<Registration>, moment: nat, src: seq<Byte>, data: seq<Byte>,
                    buf: array<Byte>) returns (pushed: seq<Message>)
    requires buf.Length == MAX_DATA && 0 < |data| < MAX_DATA
    modifies buf
    ensures pushed == FromRead(routes, table, moment, src, data, old(buf[..]))
  {
    hide Fan, BufferAfter, Matching;
    ghost var stale: Buffer := buf[..];
    forall i | 0 <= i < |data| { buf[i] := data[i]; }
    buf[|data|] := 0;
    assert buf[..] == Filled(data, stale);
    var out := new Route[MAX_FANOUT];
    var n := FindRoutes(routes, src, out);
    pushed := FanOut(out[..n], table, moment, buf, |data|);
  }

  predicate Unhandled(routes: seq<Route>, table: seq<Registration>) {
    forall r :: r in routes ==> FirstHandler(table, r.handler).None?
  }

  // A message for each of a prefix of routes without handlers carries the bytes unchanged.
  lemma {:induction false} UnhandledFan(routes: seq<Route>, table: seq<Registration>, moment: nat, buf: Buffer, len: nat)
    requires len < MAX_DATA && Unhandled(routes, table)
    ensures Fan(routes, table, moment, buf, len) == seq(|routes|, j requires 0 <= j < |routes| => Message(routes[j].dst, buf[..len]))
  {
    if routes != [] {
      UnhandledFan(routes[1..], table, moment + 1, buf, len);
    }
  }

  // Without handlers on its routes a source is forwarded byte for byte, to its first 16 routes in order.
  lemma ByteForByte(routes: seq<Route>, table: seq<Registration>, moment: nat, src: seq<Byte>, data: seq<Byte>, stale: Buffer)
    requires |data| < MAX_DATA && Unhandled(Matching(routes, src), table)
    ensures var chosen := FirstOf(Matching(routes, src), MAX_FANOUT);
            FromRead(routes, table, moment, src, data, stale)
            == seq(|chosen|, j requires 0 <= j < |chosen| => Message(chosen[j].dst, data))
  {
    var chosen := FirstOf(Matching(routes, src), MAX_FANOUT);
    var buf := Filled(data, stale);
    UnhandledFan(chosen, table, moment, buf, |data|);
    assert buf[..|data|] == data;
  }

  // ---------------------------------------------------------------- the same, route by route

  // Registration i is the first of that name.
  predicate FirstRegistered(table: seq<Registration>, name: seq<Byte>, i: int) {
    && 0 <= i < |table| && CString(table[i].name) == CString(name)
    && forall j :: 0 <= j < i ==> CString(table[j].name) != CString(name)
  }

  // A lookup finds the first registration of the name, and nothing when there is none.
  lemma {:induction false} FirstHandlerMeans(table: seq<Registration>, name: seq<Byte>, i: int)
    ensures FirstRegistered(table, name, i) ==> FirstHandler(table, name) == Some(table[i].call)
    ensures (forall j :: 0 <= j < |table| ==> CString(table[j].name) != CString(name)) ==> FirstHandler(table, name).None?
  {
    hide CString;
    if table != [] {
      FirstHandlerMeans(table[1..], name, i - 1);
      assert forall j :: 0 < j < |table| ==> table[j] == table[1..][j - 1];
    }
  }

  // One route sends `sent` when it finds `buf`, and leaves `buf'`: without a handler the bytes that were read and
  // the buffer as it is; with one, what that handler returned, nothing if its length is negative and at most
  // 1024 bytes of it, and the buffer it wrote.
  ghost predicate RouteStep(r: Route, table: seq<Registration>, moment: nat, buf: Buffer, len: nat, sent: seq<Message>,
                            buf': Buffer)
    requires len < MAX_DATA
  {
    && ((forall j :: 0 <= j < |table| ==> CString(table[j].name) != CString(r.handler)) ==>
          sent == [Message(r.dst, buf[..len])] && buf' == buf)
    && (forall i :: FirstRegistered(table, r.handler, i) ==>
          var done := table[i].call(moment, buf, len);
          && buf' == done.buf
          && (done.len < 0 ==> sent == [])
          && (0 <= done.len <= 1024 ==> sent == [Message(r.dst, done.buf[..done.len])])
          && (done.len > 1024 ==> sent == [Message(r.dst, done.buf)]))
  }

  lemma ThroughMeans(r: Route, table: seq<Registration>, moment: nat, buf: Buffer, len: nat)
    requires len < MAX_DATA
    ensures var t := Through(r, table, moment, buf, len); RouteStep(r, table, moment, buf, len, Opt(t.0), t.1)
  {
    hide FirstHandler, CString;
    FirstHandlerMeans(table, r.handler, 0);
    forall i | FirstRegistered(table, r.handler, i) ensures FirstHandler(table, r.handler) == Some(table[i].call) {
      FirstHandlerMeans(table, r.handler, i);
    }
    hide FirstRegistered;
    match FirstHandler(table, r.handler)
    case None =>
    case Some(h) =>
      var done := h(moment, buf, len);
      assert done.buf[..1024] == done.buf;
      assert 0 <= done.len <= 1024 ==> FirstOf(done.buf, done.len) == done.buf[..done.len];
  }

  function Concat(parts: seq<seq<Message>>): (all: seq<Message>) {
    if parts == [] then [] else Concat(parts[..|parts| - 1]) + parts[|parts| - 1]
  }

  // The buffers from route to route and what each route sends.
  ghost predicate FanRun(routes: seq<Route>, table: seq<Registration>, moment: nat, len: nat, bufs: seq<Buffer>,
                         sent: seq<seq<Message>>)
    requires len < MAX_DATA
  {
    && |bufs| == |routes| + 1 && |sent| == |routes|
    && forall k :: 0 <= k < |routes| ==> RouteStep(routes[k], table, moment + k, bufs[k], len, sent[k], bufs[k + 1])
  }

  lemma {:induction false} FanIsRun(routes: seq<Route>, table: seq<Registration>, moment: nat, buf: Buffer, len: nat)
    returns (bufs: seq<Buffer>, sent: seq<seq<Message>>)
    requires len < MAX_DATA
    ensures FanRun(routes, table, moment, len, bufs, sent) && bufs[0] == buf
    ensures bufs[|routes|] == BufferAfter(routes, table, moment, buf, len)
    ensures Concat(sent) == Fan(routes, table, moment, buf, len)
    decreases |routes|
  {
    hide Through, RouteStep, Opt, Fan, BufferAfter;
    if routes == [] {
      FanNone(table, moment, buf, len);
      bufs, sent := [buf], [];
    } else {
      var n := |routes| - 1;
      var front, r := routes[..n], routes[n];
      assert routes == front + [r];
      bufs, sent := FanIsRun(front, table, moment, buf, len);
      FanSnoc(front, r, table, moment, buf, len);
      ThroughMeans(r, table, moment + n, bufs[n], len);
      var t := Through(r, table, moment + n, bufs[n], len);
      var bufs', sent' := bufs + [t.1], sent + [Opt(t.0)];
      assert sent'[..n] == sent;
      forall k | 0 <= k <= n
        ensures RouteStep(routes[k], table, moment + k, bufs'[k], len, sent'[k], bufs'[k + 1])
      {
        if k < n {
          assert front[k] == routes[k] && bufs'[k] == bufs[k] && bufs'[k + 1] == bufs[k + 1] && sent'[k] == sent[k];
        }
      }
      bufs, sent := bufs', sent';
    }
  }

  // What a read of `data` sends: the data, a NUL and the stale rest go through the chosen routes one after the
  // other, each handler called with what the one before it left, and the messages are those of the routes in order.
  lemma ReadRuns(routes: seq<Route>, table: seq<Registration>, moment: nat, src: seq<Byte>, data: seq<Byte>, stale: Buffer)
    returns (bufs: seq<Buffer>, sent: seq<seq<Message>>)
    requires |data| < MAX_DATA
    ensures FanRun(FirstOf(Matching(routes, src), 16), table, moment, |data|, bufs, sent)
    ensures bufs[0] == data + [0] + stale[|data| + 1..]
    ensures FromRead(routes, table, moment, src, data, stale) == Concat(sent)
  {
    hide Fan, BufferAfter, RouteStep;
    bufs, sent := FanIsRun(FirstOf(Matching(routes, src), 16), table, moment, Filled(data, stale), |data|);
  }

  // In particular one route with a handler sends what that handler returned.
  lemma OneHandledRoute(routes: seq<Route>, r: Route, table: seq<Registration>, i: nat, moment: nat, src: seq<Byte>,
                        data: seq<Byte>, stale: Buffer)
    requires |data| < MAX_DATA && Matching(routes, src) == [r] && FirstRegistered(table, r.handler, i)
    ensures var done := table[i].call(moment, data + [0] + stale[|data| + 1..], |data|);
            FromRead(routes, table, moment, src, data, stale) ==
              if done.len < 0 then []
              else if done.len > 1024 then [Message(r.dst, done.buf)]
              else [Message(r.dst, done.buf[..done.len])]
  {
    hide Matching, FirstRegistered;
    var bufs, sent := ReadRuns(routes, table, moment, src, data, stale);
    assert RouteStep(r, table, moment + 0, bufs[0], |data|, sent[0], bufs[1]);
    assert sent[..0] == [] && Concat([]) == [];
    assert Concat(sent) == [] + sent[0];
  }

  // `at` lists routes of that source in order, and the selection consists of them.
  predicate Picks(selection: seq<Route>, routes: seq<Route>, src: seq<Byte>, at: seq<nat>) {
    && |at| == |selection|
    && (forall k :: 0 <= k < |at| ==> at[k] < |routes| && selection[k] == routes[at[k]])
    && (forall k, l :: 0 <= k < l < |at| ==> at[k] < at[l])
    && forall k :: 0 <= k < |at| ==> CString(selection[k].src) == CString(src)
  }

  // And it lists all of them.
  predicate Selects(selection: seq<Route>, routes: seq<Route>, src: seq<Byte>, at: seq<nat>) {
    && Picks(selection, routes, src, at)
    && forall i :: 0 <= i < |routes| && CString(routes[i].src) == CString(src) ==> i in at
  }

  lemma PicksSnoc(selection: seq<Route>, routes: seq<Route>, src: seq<Byte>, at: seq<nat>, r: Route)
    requires Picks(selection, routes, src, at)
    ensures CString(r.src) == CString(src) ==> Picks(selection + [r], routes + [r], src, at + [|routes|])
    ensures Picks(selection, routes + [r], src, at)
  {
    hide CString;
    var all, more, found := routes + [r], at + [|routes|], selection + [r];
    assert forall k :: 0 <= k < |at| ==> more[k] == at[k] && found[k] == selection[k] && all[at[k]] == routes[at[k]];
  }

  lemma SelectsSnoc(selection: seq<Route>, routes: seq<Route>, src: seq<Byte>, at: seq<nat>, r: Route)
    requires Selects(selection, routes, src, at)
    ensures CString(r.src) == CString(src) ==> Selects(selection + [r], routes + [r], src, at + [|routes|])
    ensures CString(r.src) != CString(src) ==> Selects(selection, routes + [r], src, at)
  {
    PicksSnoc(selection, routes, src, at, r);
    hide CString, Picks;
    var all, more := routes + [r], at + [|routes|];
    assert more[|at|] == |routes|;
    StillIn(at, |routes|);
    assert forall i :: 0 <= i < |routes| ==> all[i] == routes[i];
  }

  lemma StillIn(at: seq<nat>, n: nat)
    ensures forall i :: i in at ==> i in at + [n]
  {
  }

  // The matching routes are those of that source, each once, in the order of the configuration.
  lemma {:induction false} MatchingMeans(routes: seq<Route>, src: seq<Byte>) returns (at: seq<nat>)
    ensures Selects(Matching(routes, src), routes, src, at)
    decreases |routes|
  {
    hide CString, Selects;
    at := [];
    if routes == [] {
      NoneSelected(src);
    } else {
      var n := |routes| - 1;
      at := MatchingMeans(routes[..n], src);
      assert routes == routes[..n] + [routes[n]];
      SelectsSnoc(Matching(routes[..n], src), routes[..n], src, at, routes[n]);
      assert Matching(routes[..n], src) + [] == Matching(routes[..n], src);
      if From(routes[n], src) {
        at := at + [n];
      }
    }
  }

  lemma NoneSelected(src: seq<Byte>)
    ensures Selects([], [], src, [])
  {
  }

  // What each route by itself makes of the buffer that the routes before it left.
  function Outcomes(routes: seq<Route>, table: seq<Registration>, moment: nat, buf: Buffer, len: nat): (o: seq<Option<Message>>)
    requires len < MAX_DATA
    ensures |o| == |routes|
    ensures forall k :: 0 <= k < |o| && o[k].Some? ==> o[k].value.dst == routes[k].dst && |o[k].value.data| <= MAX_DATA
  {
    seq(|routes|, k requires 0 <= k < |routes| =>
      Through(routes[k], table, moment + k, BufferAfter(routes[..k], table, moment, buf, len), len).0)
  }

  // The messages are the outcomes without the gaps: `at` lists, in order, the routes that produced one.
  predicate Sifted(msgs: seq<Message>, outcomes: seq<Option<Message>>, at: seq<nat>) {
    && |at| == |msgs|
    && (forall i :: 0 <= i < |at| ==> at[i] < |outcomes| && outcomes[at[i]] == Some(msgs[i]))
    && (forall i, j :: 0 <= i < j < |at| ==> at[i] < at[j])
    && forall k :: 0 <= k < |outcomes| && outcomes[k].Some? ==> k in at
  }

  lemma SiftedSnoc(msgs: seq<Message>, outcomes: seq<Option<Message>>, at: seq<nat>, m: Option<Message>)
    requires Sifted(msgs, outcomes, at)
    ensures Sifted(msgs + Opt(m), outcomes + [m], if m.Some? then at + [|outcomes|] else at)
  {
    if m.Some? {
      var at', msgs' := at + [|outcomes|], msgs + [m.value];
      assert forall i :: 0 <= i < |at| ==> at'[i] == at[i] && msgs'[i] == msgs[i];
      forall k | 0 <= k < |outcomes| && outcomes[k].Some? ensures k in at' {
        assert k in at;
      }
      assert at'[|at|] == |outcomes|;
    } else {
      assert msgs + Opt(m) == msgs;
    }
  }

  lemma NothingSifted()
    ensures Sifted([], [], [])
  {
  }

  lemma OutcomesSnoc(routes: seq<Route>, r: Route, table: seq<Registration>, moment: nat, buf: Buffer, len: nat)
    requires len < MAX_DATA
    ensures Outcomes(routes + [r], table, moment, buf, len)
         == Outcomes(routes, table, moment, buf, len)
            + [Through(r, table, moment + |routes|, BufferAfter(routes, table, moment, buf, len), len).0]
  {
    hide Through, BufferAfter;
    var all := routes + [r];
    assert all[..|routes|] == routes;
    assert forall k :: 0 <= k < |routes| ==> all[..k] == routes[..k];
  }

  lemma {:induction false} FanSifted(routes: seq<Route>, table: seq<Registration>, moment: nat, buf: Buffer, len: nat)
    returns (at: seq<nat>)
    requires len < MAX_DATA
    ensures Sifted(Fan(routes, table, moment, buf, len), Outcomes(routes, table, moment, buf, len), at)
    decreases |routes|
  {
    hide Fan, BufferAfter, Sifted, Through, Opt, Outcomes;
    if routes == [] {
      at := [];
      FanNone(table, moment, buf, len);
      assert Outcomes(routes, table, moment, buf, len) == [];
      NothingSifted();
    } else {
      var n := |routes| - 1;
      var front, r := routes[..n], routes[n];
      assert routes == front + [r];
      FanSnoc(front, r, table, moment, buf, len);
      OutcomesSnoc(front, r, table, moment, buf, len);
      at := FanSifted(front, table, moment, buf, len);
      var m := Through(r, table, moment + n, BufferAfter(front, table, moment, buf, len), len).0;
      SiftedSnoc(Fan(front, table, moment, buf, len), Outcomes(front, table, moment, buf, len), at, m);
      if m.Some? {
        at := at + [n];
      }
    }
  }

  // Whatever the handlers do, a read yields the outcomes of its first 16 matching routes, in configuration
  // order, without those a handler refused; so at most 16 messages, of at most 1024 bytes each.
  lemma ReadYields(routes: seq<Route>, table: seq<Registration>, moment: nat, src: seq<Byte>, data: seq<Byte>,
                   stale: Buffer) returns (at: seq<nat>)
    requires |data| < MAX_DATA
    ensures var chosen := FirstOf(Matching(routes, src), MAX_FANOUT);
            var msgs := FromRead(routes, table, moment, src, data, stale);
            && Sifted(msgs, Outcomes(chosen, table, moment, Filled(data, stale), |data|), at)
            && |msgs| <= MAX_FANOUT
            && forall i :: 0 <= i < |msgs| ==>
                 |msgs[i].data| <= MAX_DATA && at[i] < |chosen| && msgs[i].dst == chosen[at[i]].dst
  {
    hide Outcomes, Fan, FirstOf;
    var chosen := FirstOf(Matching(routes, src), MAX_FANOUT);
    at := FanSifted(chosen, table, moment, Filled(data, stale), |data|);
    Increasing(at, |chosen|);
  }

  lemma {:induction false} Increasing(at: seq<nat>, n: nat)
    requires forall i :: 0 <= i < |at| ==> at[i] < n
    requires forall i, j :: 0 <= i < j < |at| ==> at[i] < at[j]
    ensures |at| <= n
    decreases |at|
  {
    if at != [] {
      Increasing(at[..|at| - 1], at[|at| - 1]);
    }
  }

  // Two plugin tables that register the same names, with whatever code behind them.
  predicate SameNames(a: seq<Registration>, b: seq<Registration>) {
    |a| == |b| && forall i :: 0 <= i < |a| ==> a[i].name == b[i].name
  }

  // The route behind `before` is sent just the data that was read.
  predicate SentAsRead(before: seq<Route>, r: Route, table: seq<Registration>, moment: nat, data: seq<Byte>, stale: Buffer)
    requires |data| < MAX_DATA
  {
    var msgs := Fan(before + [r], table, moment, Filled(data, stale), |data|);
    msgs != [] && msgs[|msgs| - 1] == Message(r.dst, data)
  }

  // A route without a handler is sent the data that was read, whatever the handlers do, exactly when none of
  // the routes before it has a handler.
  lemma {:induction false} AfterAHandler(before: seq<Route>, r: Route, table: seq<Registration>, moment: nat, data: seq<Byte>, stale: Buffer)
    requires 0 < |data| < MAX_DATA && FirstHandler(table, r.handler).None?
    ensures (forall t :: SameNames(t, table) ==> SentAsRead(before, r, t, moment, data, stale)) <==> Unhandled(before, table)
  {
    hide SentAsRead, FirstHandler, Unhandled;
    if Unhandled(before, table) {
      forall t | SameNames(t, table) ensures SentAsRead(before, r, t, moment, data, stale) {
        SameNamesFound(before, table, t);
        SameNameFound(t, table, r.handler);
        OneUnhandled(r, t);
        UnspoiltBefore(before, r, t, moment, data, stale);
      }
    } else {
      var t := SpoiltBefore(before, r, table, moment, data, stale);
    }
  }

  lemma OneUnhandled(r: Route, table: seq<Registration>)
    requires FirstHandler(table, r.handler).None?
    ensures Unhandled([r], table)
  {
  }

  lemma UnspoiltBefore(before: seq<Route>, r: Route, table: seq<Registration>, moment: nat, data: seq<Byte>, stale: Buffer)
    requires |data| < MAX_DATA && Unhandled(before, table) && Unhandled([r], table)
    ensures SentAsRead(before, r, table, moment, data, stale)
  {
    var buf := Filled(data, stale);
    assert [r][0] == r;
    assert Unhandled(before + [r], table);
    UnhandledFan(before + [r], table, moment, buf, |data|);
    assert buf[..|data|] == data;
  }

  // Plugin code that writes one byte and leaves the rest.
  function Spoiler(b: Byte): Handler {
    (moment: nat, buf: Buffer, len: nat) => Handled(0, buf[0 := b])
  }

  // Otherwise handlers under the same names can spoil it: here each writes a wrong first byte.
  lemma SpoiltBefore(before: seq<Route>, r: Route, table: seq<Registration>, moment: nat, data: seq<Byte>, stale: Buffer)
    returns (t: seq<Registration>)
    requires 0 < |data| < MAX_DATA && FirstHandler(table, r.handler).None? && !Unhandled(before, table)
    ensures SameNames(t, table) && !SentAsRead(before, r, t, moment, data, stale)
  {
    hide SentAsRead, Fan, BufferAfter, FirstHandler, Unhandled;
    var wrong: Byte := if data[0] == 0 then 1 else 0;
    t := seq(|table|, i requires 0 <= i < |table| => Registration(table[i].name, Spoiler(wrong)));
    SameNamesFound(before, table, t);
    SameNameFound(table, t, r.handler);
    SpoiltStays(before, t, wrong, moment, Filled(data, stale), |data|);
    NotSent(before, r, t, moment, data, stale);
  }

  lemma NotSent(before: seq<Route>, r: Route, table: seq<Registration>, moment: nat, data: seq<Byte>, stale: Buffer)
    requires 0 < |data| < MAX_DATA && FirstHandler(table, r.handler).None?
    requires BufferAfter(before, table, moment, Filled(data, stale), |data|)[0] != data[0]
    ensures !SentAsRead(before, r, table, moment, data, stale)
  {
    hide Fan, BufferAfter, FirstHandler;
    FanSnoc(before, r, table, moment, Filled(data, stale), |data|);
    var buf := BufferAfter(before, table, moment, Filled(data, stale), |data|);
    assert buf[..|data|][0] == buf[0];
  }

  ghost predicate AllSpoilers(table: seq<Registration>, b: Byte) {
    forall i :: 0 <= i < |table| ==> table[i].call == Spoiler(b)
  }

  lemma {:induction false} FirstIsSpoiler(table: seq<Registration>, b: Byte)
    requires AllSpoilers(table, b)
    ensures forall name :: FirstHandler(table, name).Some? ==> FirstHandler(table, name).value == Spoiler(b)
  {
    if table != [] {
      FirstIsSpoiler(table[1..], b);
    }
  }

  lemma {:induction false} SpoiltStays(routes: seq<Route>, table: seq<Registration>, b: Byte, moment: nat, buf: Buffer, len: nat)
    requires len < MAX_DATA && AllSpoilers(table, b)
    requires buf[0] == b || !Unhandled(routes, table)
    ensures BufferAfter(routes, table, moment, buf, len)[0] == b
  {
    FirstIsSpoiler(table, b);
    if routes != [] {
      hide FirstHandler;
      SpoiltStays(routes[1..], table, b, moment + 1, Through(routes[0], table, moment, buf, len).1, len);
    }
  }

  lemma {:induction false} SameNamesFound(routes: seq<Route>, a: seq<Registration>, b: seq<Registration>)
    requires SameNames(a, b) || SameNames(b, a)
    ensures Unhandled(routes, a) <==> Unhandled(routes, b)
  {
    forall name ensures FirstHandler(a, name).None? <==> FirstHandler(b, name).None? {
      SameNameFound(a, b, name);
    }
  }

  lemma {:induction false} SameNameFound(a: seq<Registration>, b: seq<Registration>, name: seq<Byte>)
    requires SameNames(a, b) || SameNames(b, a)
    ensures FirstHandler(a, name).None? <==> FirstHandler(b, name).None?
  {
    if a != [] {
      assert a[0].name == b[0].name;
      SameNameFound(a[1..], b[1..], name);
    }
  }

  // ---------------------------------------------------------------- through the queue

  const REACTOR: Thread := 0

  // One read as the reactor meets it.
  datatype Read = Read(routes: seq<Route>, table: seq<Registration>, moment: nat, src: seq<Byte>, data: seq<Byte>, stale: Buffer)

  predicate Readable(inputs: seq<Read>) {
    forall i :: 0 <= i < |inputs| ==> |inputs[i].data| < MAX_DATA
  }

  // Everything the reactor pushes, in order.
  function Program(inputs: seq<Read>): seq<Message>
    requires Readable(inputs)
  {
    if inputs == [] then []
    else
      var r := inputs[0];
      FromRead(r.routes, r.table, r.moment, r.src, r.data, r.stale) + Program(inputs[1..])
  }

  // Read after read: what a read sends stands behind what the reads before it send.
  lemma {:induction false} ProgramInOrder(before: seq<Read>, r: Read)
    requires Readable(before + [r])
    ensures Readable(before) && |r.data| < MAX_DATA
    ensures Program(before + [r]) == Program(before) + FromRead(r.routes, r.table, r.moment, r.src, r.data, r.stale)
    decreases |before|
  {
    hide FromRead;
    var all := before + [r];
    assert all[|before|] == r;
    assert forall i :: 0 <= i < |before| ==> all[i] == before[i];
    if before == [] {
      assert all == [r] && all[1..] == [];
    } else {
      assert all[0] == before[0] && all[1..] == before[1..] + [r];
      ProgramInOrder(before[1..], r);
    }
  }

  // In this run only the reactor pushes, and it pushes program[next], program[next + 1], ...
  predicate Follows(steps: seq<Step>, program: seq<Message>, next: nat) {
    steps == [] ||
    if steps[0].CallPush? then
      steps[0].t == REACTOR && next < |program| && steps[0].m == program[next] && Follows(steps[1..], program, next + 1)
    else Follows(steps[1..], program, next)
  }

  function Pushed(steps: seq<Step>): nat {
    if steps == [] then 0 else (if steps[0].CallPush? then 1 else 0) + Pushed(steps[1..])
  }

  function Messages(finished: seq<Finished>): (ms: seq<Message>)
    ensures |ms| == |finished|
  {
    seq(|finished|, i requires 0 <= i < |finished| => finished[i].m)
  }

  predicate InPush(p: Pc) {
    p.PushReady? || p.PushAsleep? || p.PushWoken? || p.PushExpired?
  }

  // The push under way, if there is one.
  function Pending(s: State): seq<Message> {
    if REACTOR in s.pc && InPush(s.pc[REACTOR]) then [s.pc[REACTOR].m] else []
  }

  predicate OnlyReactor(s: State) {
    forall t :: t in s.pc && InPush(s.pc[t]) ==> t == REACTOR
  }

  predicate UpTo(s: State, program: seq<Message>, next: nat) {
    OnlyReactor(s) && next <= |program| && Messages(s.finished) + Pending(s) == program[..next]
  }

  lemma OneProducer(s: State, step: Step, program: seq<Message>, next: nat)
    requires UpTo(s, program, next) && Enabled(s, step) && Follows([step], program, next)
    ensures UpTo(Apply(s, step), program, next + Pushed([step]))
  {
    assert [step][1..] == [];
    StaysOnly(s, step);
    hide Put, Take, Full, Empty, Signal, Asleep, Messages, OnlyReactor;
    var s' := Apply(s, step);
    if InPush(s.pc[step.t]) && !InPush(s'.pc[step.t]) {
      var f := s'.finished[|s.finished|];
      assert s'.finished == s.finished + [f];
      OnlyOne(s, step.t);
      MessagesSnoc(s.finished, f);
    }
  }

  lemma OnlyOne(s: State, t: Thread)
    requires OnlyReactor(s) && t in s.pc && InPush(s.pc[t])
    ensures t == REACTOR
  {
  }

  lemma StaysOnly(s: State, step: Step)
    requires OnlyReactor(s) && Enabled(s, step) && (step.CallPush? ==> step.t == REACTOR)
    ensures OnlyReactor(Apply(s, step))
  {
    hide Put, Take, Full, Empty, Signal, Asleep;
  }

  lemma MessagesSnoc(finished: seq<Finished>, f: Finished)
    ensures Messages(finished + [f]) == Messages(finished) + [f.m]
  {
  }

  lemma {:induction false} FollowsKeeps(s: State, steps: seq<Step>, program: seq<Message>, next: nat)
    requires UpTo(s, program, next) && Runs(s, steps) && Follows(steps, program, next)
    ensures UpTo(After(s, steps), program, next + Pushed(steps))
    decreases |steps|
  {
    hide UpTo, Enabled, Apply;
    if steps != [] {
      assert Follows([steps[0]], program, next) by {
        assert [steps[0]][1..] == [];
      }
      OneProducer(s, steps[0], program, next);
      var n := Pushed([steps[0]]);
      assert [steps[0]][1..] == [];
      FollowsKeeps(Apply(s, steps[0]), steps[1..], program, next + n);
    }
  }

  // In every interleaving of the reactor with any number of consumers, the pushes finish in the order of the
  // reads and their routes; what has been handed out, followed by what is queued, is that sequence without the
  // dropped messages; and the drop counter says how many those are.
  lemma EndToEnd(s: State, steps: seq<Step>, inputs: seq<Read>)
    requires Readable(inputs) && Initial(s) && Runs(s, steps) && Follows(steps, Program(inputs), 0)
    ensures var e := After(s, steps);
            && RingValid(e.ring)
            && Messages(e.finished) <= Program(inputs)
            && e.popped + Contents(e.ring) == Accepted(e.finished)
            && |e.finished| == |e.popped| + |Contents(e.ring)| + e.drops
  {
    hide Runs, After, Follows, Program, Contents, Accepted;
    var program := Program(inputs);
    assert UpTo(s, program, 0);
    FollowsKeeps(s, steps, program, 0);
    EveryRun(s, steps);
    var e := After(s, steps);
    var k := 0 + Pushed(steps);
    assert Messages(e.finished) == program[..k][..|e.finished|] == program[..|e.finished|];
  }

  // The reactor sleeps in a push only while the ring is full.
  lemma ReactorSleepsOnFull(s: State, steps: seq<Step>, inputs: seq<Read>)
    requires Readable(inputs) && Initial(s) && Runs(s, steps) && Follows(steps, Program(inputs), 0)
    ensures var e := After(s, steps);
            RingValid(e.ring) && (REACTOR in e.pc && e.pc[REACTOR].PushAsleep? ==> Full(e.ring))
  {
    PushedByReactor(steps, Program(inputs), 0);
    LonePusherSleepsOnFull(s, steps, REACTOR);
  }

  lemma {:induction false} PushedByReactor(steps: seq<Step>, program: seq<Message>, next: nat)
    requires Follows(steps, program, next)
    ensures PushedBy(steps, {REACTOR})
  {
    if steps != [] {
      PushedByReactor(steps[1..], program, if steps[0].CallPush? then next + 1 else next);
      assert forall i :: 0 < i < |steps| ==> steps[i] == steps[1..][i - 1];
    }
  }

  // So as long as nothing has been dropped the dispatcher has handled a prefix of that sequence.
  lemma UndroppedIsPrefix(s: State, steps: seq<Step>, inputs: seq<Read>)
    requires Readable(inputs) && Initial(s) && Runs(s, steps) && Follows(steps, Program(inputs), 0)
    requires After(s, steps).drops == 0
    ensures After(s, steps).popped <= Program(inputs)
  {
    EndToEnd(s, steps, inputs);
    hide Runs, After, Follows, Program, Contents, Invariant;
    var e := After(s, steps);
    AllAccepted(e.finished);
    assert e.popped <= Accepted(e.finished) == Messages(e.finished);
  }

  lemma {:induction false} AllAccepted(finished: seq<Finished>)
    ensures |Accepted(finished)| == |finished| ==> Accepted(finished) == Messages(finished)
  {
    if finished != [] {
      var n := |finished| - 1;
      AllAccepted(finished[..n]);
      MessagesSnoc(finished[..n], finished[n]);
      assert finished == finished[..n] + [finished[n]];
    }
  }

  // Such runs exist for everything the reactor may push: one in which a consumer keeps up delivers all of it.
  lemma {:induction false} CanBeDelivered(s: State, program: seq<Message>, next: nat) returns (steps: seq<Step>)
    requires RingValid(s.ring) && Empty(s.ring) && s.pc == map[REACTOR := Idle, 1 := Idle] && next <= |program|
    ensures Runs(s, steps) && Follows(steps, program, next)
    ensures After(s, steps).popped == s.popped + program[next..] && After(s, steps).drops == s.drops
    decreases |program| - next
  {
    if next == |program| {
      steps := [];
    } else {
      var m := program[next];
      var s' := OneDelivered(s, m);
      var rest := CanBeDelivered(s', program, next + 1);
      steps := Delivery(m) + rest;
      DeliveryFirst(s, s', m, rest, program, next);
      assert program[next..] == [m] + program[next + 1..];
    }
  }

  function Delivery(m: Message): (steps: seq<Step>) {
    [CallPush(REACTOR, m), RunPush(REACTOR, {}), CallPop(1), RunPop(1, {})]
  }

  lemma OneDelivered(s: State, m: Message) returns (s': State)
    requires RingValid(s.ring) && Empty(s.ring) && s.pc == map[REACTOR := Idle, 1 := Idle]
    ensures RingValid(s'.ring) && Empty(s'.ring) && s'.pc == s.pc && s'.popped == s.popped + [m] && s'.drops == s.drops
    ensures Runs(s, Delivery(m)) && After(s, Delivery(m)) == s'
  {
    RingTests(s.ring);
    PutAppends(s.ring, m);
    var r := Put(s.ring, m);
    RingTests(r);
    TakeRemoves(r);
    RingTests(Take(r));
    hide Contents, Put, Take, Full, Empty;
    var s1 := Apply(s, CallPush(REACTOR, m));
    assert Asleep(s1.pc, Poppers) == {};
    var s2 := Apply(s1, RunPush(REACTOR, {}));
    assert s2.pc == s.pc;
    var s3 := Apply(s2, CallPop(1));
    assert Asleep(s3.pc, Pushers) == {};
    s' := Apply(s3, RunPop(1, {}));
    assert s'.pc == s.pc;
    hide Apply, Enabled;
    OneStep(s3, RunPop(1, {}), []);
    OneStep(s2, CallPop(1), [RunPop(1, {})] + []);
    OneStep(s1, RunPush(REACTOR, {}), [CallPop(1)] + ([RunPop(1, {})] + []));
    OneStep(s, CallPush(REACTOR, m), [RunPush(REACTOR, {})] + ([CallPop(1)] + ([RunPop(1, {})] + [])));
    assert Delivery(m) == [CallPush(REACTOR, m)] + ([RunPush(REACTOR, {})] + ([CallPop(1)] + ([RunPop(1, {})] + [])));
  }

  lemma {:induction false} DeliveryFirst(s: State, s': State, m: Message, rest: seq<Step>, program: seq<Message>, next: nat)
    requires Runs(s, Delivery(m)) && After(s, Delivery(m)) == s' && Runs(s', rest)
    requires next < |program| && program[next] == m && Follows(rest, program, next + 1)
    ensures Runs(s, Delivery(m) + rest) && After(s, Delivery(m) + rest) == After(s', rest)
    ensures Follows(Delivery(m) + rest, program, next)
  {
    hide Runs, After;
    AfterSplit(s, Delivery(m), rest);
    var all := Delivery(m) + rest;
    assert all[1..] == [RunPush(REACTOR, {}), CallPop(1), RunPop(1, {})] + rest;
    assert all[1..][1..] == [CallPop(1), RunPop(1, {})] + rest;
    assert all[1..][1..][1..] == [RunPop(1, {})] + rest;
    assert all[1..][1..][1..][1..] == rest;
    assert Follows(all[1..][1..][1..], program, next + 1);
    assert Follows(all[1..][1..], program, next + 1);
    assert Follows(all[1..], program, next + 1);
  }
}
