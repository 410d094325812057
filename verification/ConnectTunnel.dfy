/** The CONNECT tunnel: two byte streams relayed through buffers once the established
    response has been sent.

    Models modules/ngx_http_proxy_connect_module/ngx_http_proxy_connect_module.c. What the
    sockets answer is a parameter; when the answers run out neither socket is ready. */
module ConnectTunnel {
  import opened Sequences

  /** A buffer with `lead` bytes before `pos`, the bytes between `pos` and `last`, and `cap`
      bytes between `start` and `end`. */
  datatype Buf = Buf(cap: nat, lead: nat, pending: seq<nat>)

  datatype SendResult = Sent(n: nat) | SendAgain | SendError

  /** `Got([])` is the end of the stream. */
  datatype RecvResult = Got(bytes: seq<nat>) | RecvAgain | RecvError

  /** The sockets in one round of the loop: is the destination writable and what does a send
      do, is the source readable and what does a receive do. */
  datatype Io = Io(writable: bool, send: SendResult, readable: bool, recv: RecvResult)

  /** What a run of the loop did: the buffer, the bytes sent and received, whether the
      source ended, whether sending failed. */
  datatype Pumped = Pumped(b: Buf, put: seq<nat>, got: seq<nat>, eof: bool, failed: bool)

  predicate Fits(b: Buf) {
    b.lead + |b.pending| <= b.cap
  }

  /** `pos += n`, back to the start when nothing is left. */
  function Advance(b: Buf, n: nat): Buf
    requires n <= |b.pending|
  {
    if n == |b.pending| then Buf(b.cap, 0, []) else Buf(b.cap, b.lead + n, b.pending[n..])
  }

  /** What is left, and what was sent, of one round's send. */
  function SendOnce(b: Buf, n: nat): (Buf, seq<nat>) {
    var k := Min(n, |b.pending|);
    (if k > 0 then Advance(b, k) else b, b.pending[..k])
  }

  /** Does the round send at all? */
  predicate Sends(b: Buf, doWrite: bool, io: Io) {
    doWrite && b.pending != [] && io.writable
  }

  function Room(b: Buf): int {
    b.cap - b.lead - |b.pending|
  }

  /** One round: send, then receive; only a receive that gets bytes leads to another. */
  function OneRound(b: Buf, doWrite: bool, io: Io): Pumped {
    if Sends(b, doWrite, io) && !io.send.Sent? then Pumped(b, [], [], false, io.send.SendError?)
    else
      var (b1, put) := if Sends(b, doWrite, io) then SendOnce(b, io.send.n) else (b, []);
      if Room(b1) <= 0 || !io.readable || io.recv.RecvAgain? then Pumped(b1, put, [], false, false)
      else if io.recv.RecvError? || io.recv.bytes == [] then Pumped(b1, put, [], true, false)
      else
        var got := io.recv.bytes[..Min(Room(b1), |io.recv.bytes|)];
        Pumped(b1.(pending := b1.pending + got), put, got, false, false)
  }

  function After(put: seq<nat>, got: seq<nat>, r: Pumped): Pumped {
    r.(put := put + r.put, got := got + r.got)
  }

  /** The loop of ngx_http_proxy_connect_tunnel, round by round. */
  function Pump(b: Buf, doWrite: bool, script: seq<Io>): Pumped
    decreases |script|
  {
    if script == [] then Pumped(b, [], [], false, false)
    else
      var r := OneRound(b, doWrite, script[0]);
      if r.got == [] then r else After(r.put, r.got, Pump(r.b, true, script[1..]))
  }

  lemma SendFifo(b: Buf, n: nat)
    requires Fits(b)
    ensures var (b1, put) := SendOnce(b, n);
            b.pending == put + b1.pending && Fits(b1) && b1.cap == b.cap
  {
  }

  lemma RoundFifo(b: Buf, doWrite: bool, io: Io)
    requires Fits(b)
    ensures var r := OneRound(b, doWrite, io);
            b.pending + r.got == r.put + r.b.pending && Fits(r.b) && r.b.cap == b.cap
  {
    if Sends(b, doWrite, io) && io.send.Sent? {
      SendFifo(b, io.send.n);
    }
  }

  /** What one round does with the sockets' answers: it sends the front of what is pending, as
      much as the destination takes; unless that failed or had to wait it receives the front of
      what the source offers, as much as then fits behind what is left. */
  lemma RoundExact(b: Buf, doWrite: bool, io: Io)
    ensures var r, sends := OneRound(b, doWrite, io), doWrite && b.pending != [] && io.writable;
            && r.put == (if sends && io.send.Sent? then b.pending[..Min(io.send.n, |b.pending|)] else [])
            && (r.failed <==> sends && io.send.SendError?)
            && var room := b.cap - if r.put != [] && r.put == b.pending then 0 else b.lead + |b.pending|;
               var receives := !(sends && !io.send.Sent?) && room > 0 && io.readable;
               && r.got == (if receives && io.recv.Got? then io.recv.bytes[..Min(room, |io.recv.bytes|)] else [])
               && (r.eof <==> receives && (io.recv.RecvError? || io.recv == Got([])))
  {
  }

  /** The answers of two sockets that are always ready: `chunks` arrive one after the other, and
      what is sent is taken. */
  function ReadySockets(cap: nat, chunks: seq<seq<nat>>): seq<Io> {
    if chunks == [] then [Io(true, Sent(cap), true, RecvAgain)]
    else [Io(true, Sent(cap), true, Got(chunks[0]))] + ReadySockets(cap, chunks[1..])
  }

  /** Between ready sockets everything gets through. */
  lemma {:induction false} ReadyDelivers(cap: nat, pending: seq<nat>, doWrite: bool, chunks: seq<seq<nat>>)
    requires |pending| <= cap && (doWrite || pending == [])
    requires forall i :: 0 <= i < |chunks| ==> 0 < |chunks[i]| <= cap
    ensures Pump(Buf(cap, 0, pending), doWrite, ReadySockets(cap, chunks))
         == Pumped(Buf(cap, 0, []), pending + Flatten(chunks), Flatten(chunks), false, false)
    decreases |chunks|
  {
    var b, script := Buf(cap, 0, pending), ReadySockets(cap, chunks);
    var r := OneRound(b, doWrite, script[0]);
    RoundExact(b, doWrite, script[0]);
    if chunks != [] {
      assert r == Pumped(Buf(cap, 0, chunks[0]), pending, chunks[0], false, false);
      assert script[1..] == ReadySockets(cap, chunks[1..]);
      ReadyDelivers(cap, chunks[0], true, chunks[1..]);
    } else {
      assert r == Pumped(Buf(cap, 0, []), pending, [], false, false);
      assert pending + [] == pending;
    }
  }

  lemma FifoCompose(b: seq<nat>, g: seq<nat>, p: seq<nat>, m: seq<nat>, g': seq<nat>, p': seq<nat>, a: seq<nat>)
    requires b + g == p + m && m + g' == p' + a
    ensures b + (g + g') == (p + p') + a
  {
    assert b + (g + g') == (b + g) + g';
    assert (p + m) + g' == p + (m + g');
    assert p + (p' + a) == (p + p') + a;
  }

  /** Whatever the sockets answer, the bytes received are the bytes sent followed by the
      bytes still buffered, and the buffer never overflows. */
  lemma {:induction false} PumpFifo(b: Buf, doWrite: bool, script: seq<Io>)
    requires Fits(b)
    ensures var r := Pump(b, doWrite, script);
            && b.pending + r.got == r.put + r.b.pending
            && Fits(r.b) && r.b.cap == b.cap
    decreases |script|
  {
    if script != [] {
      RoundFifo(b, doWrite, script[0]);
      var q := OneRound(b, doWrite, script[0]);
      if q.got != [] {
        PumpFifo(q.b, true, script[1..]);
        var r := Pump(q.b, true, script[1..]);
        FifoCompose(b.pending, q.got, q.put, q.b.pending, r.got, r.put, r.b.pending);
      }
    }
  }

  lemma AfterAfter(a: seq<nat>, b: seq<nat>, c: seq<nat>, d: seq<nat>, r: Pumped)
    ensures After(a, b, After(c, d, r)) == After(a + c, b + d, r)
  {
    assert a + (c + r.put) == (a + c) + r.put && b + (d + r.got) == (b + d) + r.got;
  }

  /** The body of the loop. */
  method RunRound(buf: Buf, doWrite: bool, io: Io) returns (r: Pumped)
    ensures r == OneRound(buf, doWrite, io)
  {
    var b, put: seq<nat> := buf, [];
    if doWrite && b.pending != [] && io.writable {
      if io.send.SendAgain? {
        return Pumped(b, [], [], false, false);
      }
      if io.send.SendError? {
        return Pumped(b, [], [], false, true);
      }
      var k := Min(io.send.n, |b.pending|);
      put := b.pending[..k];
      if k > 0 {
        b := Advance(b, k);
      }
    }
    var size := b.cap - b.lead - |b.pending|;
    if size > 0 && io.readable {
      match io.recv
      case RecvAgain =>
      case RecvError => return Pumped(b, put, [], true, false);
      case Got(bytes) =>
        var n := Min(size, |bytes|);
        return Pumped(b.(pending := b.pending + bytes[..n]), put, bytes[..n], n == 0, false);
    }
    return Pumped(b, put, [], false, false);
  }

  /** The loop itself. */
  method RunLoop(buf: Buf, write: bool, script: seq<Io>) returns (r: Pumped)
    ensures r == Pump(buf, write, script)
  {
    var b, doWrite, put, got, i := buf, write, [], [], 0;
    while i < |script|
      invariant i <= |script|
      invariant Pump(buf, write, script) == After(put, got, Pump(b, doWrite, script[i..]))
    {
      assert script[i..][0] == script[i] && script[i..][1..] == script[i + 1..];
      var q := RunRound(b, doWrite, script[i]);
      if q.got == [] {
        return After(put, got, q);
      }
      AfterAfter(put, got, q.put, q.got, Pump(q.b, true, script[i + 1..]));
      b, doWrite, put, got, i := q.b, true, put + q.put, got + q.got, i + 1;
    }
    return Pumped(b, put, got, false, false);
  }

  // ------------------------------------------------- the established response

  datatype Drained = Drained(sent: seq<nat>, rest: seq<nat>, done: bool, failed: bool)

  function AfterSent(sent: seq<nat>, r: Drained): Drained {
    r.(sent := sent + r.sent)
  }

  /** The sending loop of the established response. */
  function Drain(resp: seq<nat>, sends: seq<SendResult>): Drained
    decreases |sends|
  {
    if sends == [] then Drained([], resp, false, false)
    else
      match sends[0]
      case SendAgain => Drained([], resp, false, false)
      case SendError => Drained([], resp, false, true)
      case Sent(n) =>
        var k := Min(n, |resp|);
        if k == |resp| then Drained(resp, [], true, false) else AfterSent(resp[..k], Drain(resp[k..], sends[1..]))
  }

  /** What an attempt has sent and left makes up the response; it is done only when all of it
      is out. */
  ghost predicate Splits(resp: seq<nat>, r: Drained) {
    r.sent + r.rest == resp && (r.done ==> r.sent == resp && r.rest == [] && !r.failed)
  }

  lemma SplitsOn(resp: seq<nat>, k: nat, r: Drained)
    requires k <= |resp| && Splits(resp[k..], r)
    ensures Splits(resp, AfterSent(resp[..k], r))
  {
    JoinLeft(resp[..k], r.sent, r.rest);
    assert resp[..k] + resp[k..] == resp;
  }

  lemma {:induction false} DrainSplits(resp: seq<nat>, sends: seq<SendResult>)
    ensures Splits(resp, Drain(resp, sends))
    decreases |sends|
  {
    if sends != [] && sends[0].Sent? {
      var k := Min(sends[0].n, |resp|);
      if k < |resp| {
        DrainSplits(resp[k..], sends[1..]);
        SplitsOn(resp, k, Drain(resp[k..], sends[1..]));
      }
    }
  }

  /** A client that takes a byte at each send has the whole response after as many sends as it
      has bytes. */
  lemma {:induction false} DrainDone(resp: seq<nat>, sends: seq<SendResult>)
    requires sends != [] && |resp| <= |sends|
    requires forall i :: 0 <= i < |sends| ==> sends[i].Sent? && sends[i].n > 0
    ensures Drain(resp, sends) == Drained(resp, [], true, false)
    decreases |sends|
  {
    var k := Min(sends[0].n, |resp|);
    if k < |resp| {
      var later := sends[1..];
      assert forall i :: 0 <= i < |later| ==> later[i] == sends[i + 1];
      DrainDone(resp[k..], later);
      assert Drain(resp, sends) == AfterSent(resp[..k], Drain(resp[k..], later));
      assert resp == resp[..k] + resp[k..];
    }
  }

  /** A send that cannot go on now, or ever, ends the attempt, and the latter breaks it. */
  lemma DrainStops(resp: seq<nat>, first: SendResult, later: seq<SendResult>)
    requires resp != [] && !first.Sent?
    ensures Drain(resp, [first] + later) == Drained([], resp, false, first == SendError)
  {
  }

  lemma AfterSentTwice(a: seq<nat>, b: seq<nat>, r: Drained)
    ensures AfterSent(a, AfterSent(b, r)) == AfterSent(a + b, r)
  {
    assert a + (b + r.sent) == (a + b) + r.sent;
  }

  method RunDrain(resp: seq<nat>, sends: seq<SendResult>) returns (r: Drained)
    ensures r == Drain(resp, sends)
  {
    var sent, rest, i := [], resp, 0;
    while i < |sends|
      invariant i <= |sends| && Drain(resp, sends) == AfterSent(sent, Drain(rest, sends[i..]))
    {
      assert sends[i..][0] == sends[i] && sends[i..][1..] == sends[i + 1..];
      if !sends[i].Sent? {
        return Drained(sent, rest, false, sends[i].SendError?);
      }
      var k := Min(sends[i].n, |rest|);
      if k == |rest| {
        return Drained(sent + rest, [], true, false);
      }
      AfterSentTwice(sent, rest[..k], Drain(rest[k..], sends[i + 1..]));
      sent, rest, i := sent + rest[..k], rest[k..], i + 1;
    }
    return Drained(sent, rest, false, false);
  }

  // ------------------------------------------------- the two streams

  /** The buffers of both directions, and what has crossed the sockets since the request
      header: the client's bytes and those of them sent on, the upstream's bytes and those of
      them sent on. A buffer that is not ready was never allocated. */
  datatype Streams = Streams(
    headerIn: Buf, fromClient: Buf, fromClientReady: bool, clientEof: bool,
    upstream: Buf, upstreamReady: bool, upstreamEof: bool,
    clientBytes: seq<nat>, toUpstream: seq<nat>, upstreamBytes: seq<nat>, relayed: seq<nat>)

  /** The client's bytes that wait, in whichever buffer holds them. */
  function Held(x: Streams): seq<nat> {
    if x.headerIn.pending != [] then x.headerIn.pending else x.fromClient.pending
  }

  /** Client to upstream: received == sent ++ buffered, across the switch from the bytes
      left over in the request header buffer to the tunnel's own buffer. */
  ghost predicate UpOk(x: Streams) {
    && Fits(x.headerIn) && Fits(x.fromClient)
    && (x.headerIn.pending != [] ==> x.fromClient.pending == [])
    && (!x.fromClientReady ==> x.fromClient == Buf(0, 0, []))
    && x.clientBytes == x.toUpstream + Held(x)
  }

  /** Upstream to client: received == sent ++ buffered. */
  ghost predicate DownOk(x: Streams) {
    && Fits(x.upstream) && (!x.upstreamReady ==> x.upstream == Buf(0, 0, []))
    && x.upstreamBytes == x.relayed + x.upstream.pending
  }

  /** The buffer the client's bytes go through: what is left in the header buffer first. */
  function UpBuf(x: Streams, bufferSize: nat): Buf {
    if x.headerIn.pending != [] then x.headerIn.(cap := x.headerIn.lead + |x.headerIn.pending|)
    else if x.fromClientReady then x.fromClient
    else Buf(bufferSize, 0, [])
  }

  /** The client's bytes after a run of the loop over their buffer. */
  function GoUp(x: Streams, r: Pumped): Streams {
    var y := if x.headerIn.pending != [] then x.(headerIn := r.b) else x.(fromClient := r.b, fromClientReady := true);
    y.(clientBytes := x.clientBytes + r.got, toUpstream := x.toUpstream + r.put, clientEof := x.clientEof || r.eof)
  }

  /** The upstream's bytes after a run of the loop over their buffer. */
  function GoDown(x: Streams, r: Pumped): Streams {
    x.(upstream := r.b, upstreamBytes := x.upstreamBytes + r.got, relayed := x.relayed + r.put,
       upstreamEof := x.upstreamEof || r.eof)
  }

  datatype Closing = Open | Broken | TunnelDone

  /** The test at the end of every relay. */
  predicate MayClose(x: Streams) {
    || (x.upstreamEof && x.upstream.pending == [])
    || (x.clientEof && x.fromClient.pending == [])
    || (x.clientEof && x.upstreamEof)
  }

  function Settle(x: Streams, failed: bool, eventsOk: bool): Closing {
    if failed then Broken else if MayClose(x) then TunnelDone else if eventsOk then Open else Broken
  }

  /** ngx_http_proxy_connect_tunnel towards the upstream; leftover header bytes force a write,
      and the tunnel's own buffer is allocated on first use. */
  function RelayedUp(x: Streams, doWrite: bool, script: seq<Io>, bufferSize: nat, canAlloc: bool, eventsOk: bool)
    : (Streams, Closing)
  {
    if x.headerIn.pending == [] && !x.fromClientReady && !canAlloc then (x, Broken)
    else
      var r := Pump(UpBuf(x, bufferSize), doWrite || x.headerIn.pending != [], script);
      (GoUp(x, r), Settle(GoUp(x, r), r.failed, eventsOk))
  }

  /** ngx_http_proxy_connect_tunnel towards the client. */
  function RelayedDown(x: Streams, doWrite: bool, script: seq<Io>, eventsOk: bool): (Streams, Closing) {
    var r := Pump(x.upstream, doWrite, script);
    (GoDown(x, r), Settle(GoDown(x, r), r.failed, eventsOk))
  }

  /** The upstream's buffer is allocated on first use. */
  function Allocated(x: Streams, bufferSize: nat): Streams {
    if x.upstreamReady then x else x.(upstream := Buf(bufferSize, 0, []), upstreamReady := true)
  }

  /** A queue takes `got` at one end and gives `put` at the other. */
  lemma FifoStep(received: seq<nat>, sent: seq<nat>, held: seq<nat>, got: seq<nat>, put: seq<nat>, held': seq<nat>)
    requires received == sent + held && held + got == put + held'
    ensures received + got == (sent + put) + held'
  {
    assert (sent + held) + got == sent + (held + got);
    assert sent + (put + held') == (sent + put) + held';
  }

  /** The header buffer takes no new bytes before all that was left in it has been sent. */
  lemma HeaderBytesFirst(x: Streams, doWrite: bool, script: seq<Io>, bufferSize: nat)
    requires x.headerIn.pending != []
    ensures var r := Pump(UpBuf(x, bufferSize), doWrite, script);
            r.got != [] ==> x.headerIn.pending <= r.put
  {
    if script != [] {
      RoundExact(UpBuf(x, bufferSize), doWrite, script[0]);
    }
  }

  /** Relaying the client's bytes keeps their order, and leaves the other direction alone. */
  lemma GoUpOk(x: Streams, doWrite: bool, script: seq<Io>, bufferSize: nat)
    requires UpOk(x)
    ensures var y := GoUp(x, Pump(UpBuf(x, bufferSize), doWrite, script));
            && UpOk(y) && x.toUpstream <= y.toUpstream && x.clientBytes <= y.clientBytes
            && (y.clientEof <==> x.clientEof || Pump(UpBuf(x, bufferSize), doWrite, script).eof)
            && (x.headerIn.pending == [] ==>
                  y.fromClient.cap == if x.fromClientReady then x.fromClient.cap else bufferSize)
  {
    var b := UpBuf(x, bufferSize);
    var r := Pump(b, doWrite, script);
    PumpFifo(b, doWrite, script);
    FifoStep(x.clientBytes, x.toUpstream, b.pending, r.got, r.put, r.b.pending);
  }

  /** Relaying the upstream's bytes keeps their order, and leaves the other direction alone. */
  lemma GoDownOk(x: Streams, doWrite: bool, script: seq<Io>)
    requires DownOk(x)
    ensures var y := GoDown(x, Pump(x.upstream, doWrite, script));
            && DownOk(y) && x.relayed <= y.relayed && x.upstreamBytes <= y.upstreamBytes
            && (y.upstreamEof <==> x.upstreamEof || Pump(x.upstream, doWrite, script).eof)
  {
    var r := Pump(x.upstream, doWrite, script);
    PumpFifo(x.upstream, doWrite, script);
    FifoStep(x.upstreamBytes, x.relayed, x.upstream.pending, r.got, r.put, r.b.pending);
    NoBufferNoBytes(doWrite, script);
  }

  /** Both directions keep their order through either relay, each moves only its own, and a
      tunnel is done only when the closing test says so. */
  ghost predicate StreamsOk(x: Streams, closing: Closing) {
    UpOk(x) && DownOk(x) && (closing.TunnelDone? ==> MayClose(x)) && (closing.Open? ==> !MayClose(x))
  }

  lemma RelayedUpOk(x: Streams, doWrite: bool, script: seq<Io>, bufferSize: nat, canAlloc: bool, eventsOk: bool)
    requires UpOk(x) && DownOk(x)
    ensures var (y, closing) := RelayedUp(x, doWrite, script, bufferSize, canAlloc, eventsOk);
            && StreamsOk(y, closing) && x.toUpstream <= y.toUpstream
            && y.upstreamBytes == x.upstreamBytes && y.relayed == x.relayed && y.upstream == x.upstream
  {
    GoUpOk(x, doWrite || x.headerIn.pending != [], script, bufferSize);
  }

  lemma RelayedDownOk(x: Streams, doWrite: bool, script: seq<Io>, eventsOk: bool)
    requires UpOk(x) && DownOk(x)
    ensures var (y, closing) := RelayedDown(x, doWrite, script, eventsOk);
            && StreamsOk(y, closing) && x.relayed <= y.relayed
            && y.clientBytes == x.clientBytes && y.toUpstream == x.toUpstream
            && y.headerIn == x.headerIn && y.fromClient == x.fromClient
  {
    GoDownOk(x, doWrite, script);
  }

  lemma AllocatedOk(x: Streams, bufferSize: nat)
    requires UpOk(x) && DownOk(x)
    ensures var y := Allocated(x, bufferSize);
            && UpOk(y) && DownOk(y) && y == x.(upstream := y.upstream, upstreamReady := true)
            && y.upstream == if x.upstreamReady then x.upstream else Buf(bufferSize, 0, [])
  {
  }

  /** The choice of the buffer and the loop over it, client to upstream. */
  method RunUp(x: Streams, doWrite: bool, script: seq<Io>, bufferSize: nat, canAlloc: bool, eventsOk: bool)
    returns (y: Streams, closing: Closing)
    ensures (y, closing) == RelayedUp(x, doWrite, script, bufferSize, canAlloc, eventsOk)
  {
    var write, b := doWrite, x.fromClient;
    if x.headerIn.pending != [] {
      write, b := true, x.headerIn.(cap := x.headerIn.lead + |x.headerIn.pending|);
    } else if !x.fromClientReady {
      if !canAlloc {
        return x, Broken;
      }
      b := Buf(bufferSize, 0, []);
    }
    var r := RunLoop(b, write, script);
    y := GoUp(x, r);
    closing := Settle(y, r.failed, eventsOk);
  }

  /** A buffer that was never allocated relays nothing. */
  lemma NoBufferNoBytes(doWrite: bool, script: seq<Io>)
    ensures Pump(Buf(0, 0, []), doWrite, script) == Pumped(Buf(0, 0, []), [], [], false, false)
  {
  }

  lemma SameLength(a: seq<nat>, b: seq<nat>)
    ensures a == a + b <==> b == []
  {
    assert |a + b| == |a| + |b|;
    assert b == [] ==> a + b == a;
  }

  /** A tunnel that closes drops what its buffers still hold, and nothing else: the upstream's
      bytes can be lost only when the client has ended, the client's only when the upstream has
      ended or the header buffer holds them, which the closing test does not look at. */
  lemma WhatClosingDrops(x: Streams)
    requires UpOk(x) && DownOk(x) && MayClose(x)
    ensures x.relayed == x.upstreamBytes <==> x.upstream.pending == []
    ensures x.relayed != x.upstreamBytes ==> x.clientEof
    ensures x.toUpstream == x.clientBytes <==> x.headerIn.pending == [] && x.fromClient.pending == []
    ensures x.toUpstream != x.clientBytes ==> x.upstreamEof || x.headerIn.pending != []
  {
    SameLength(x.relayed, x.upstream.pending);
    SameLength(x.toUpstream, Held(x));
  }

  // ------------------------------------------------- the whole exchange

  /** Which handlers the client connection has. */
  datatype ClientHandler = Waiting | SendingResponse | Tunnelling

  class Tunnel {
    const bufferSize: nat
    const defaultResponse: seq<nat>
    var response: seq<nat>
    var sendEstablished: bool
    var sendEstablishedDone: bool
    var handler: ClientHandler
    var io: Streams
    var closing: Closing
    /** What the client was sent before the upstream's bytes, and whether a response was
        configured. */
    ghost var answered: seq<nat>
    ghost var customised: bool

    /** Before the response is out no byte of either stream has been touched. */
    ghost predicate Gate()
      reads this
    {
      && (handler.Tunnelling? <==> sendEstablishedDone)
      && (handler.Waiting? <==> !sendEstablished)
      && (sendEstablishedDone ==> response == [])
      && (!sendEstablishedDone ==> io.upstreamBytes == [] && io.toUpstream == [])
    }

    /** The response goes out once, unless it is configured. */
    ghost predicate ResponseOnce()
      reads `answered, `response, `customised
    {
      !customised ==> answered + response == defaultResponse
    }

    ghost predicate Valid()
      reads this
    {
      StreamsOk(io, closing) && Gate() && ResponseOnce()
    }

    /** What the client has been sent. */
    ghost function ToClient(): seq<nat>
      reads this
    {
      answered + io.relayed
    }

    /** The request is set up with `leftover` already read behind the request header. */
    constructor (bufferSize: nat, defaultResponse: seq<nat>, headerLead: nat, leftover: seq<nat>)
      ensures Valid() && closing.Open? && !sendEstablished && !customised
      ensures this.bufferSize == bufferSize && response == this.defaultResponse == defaultResponse && answered == []
      ensures io == Streams(Buf(headerLead + |leftover|, headerLead, leftover), Buf(0, 0, []), false, false,
                            Buf(0, 0, []), false, false, leftover, [], [], [])
    {
      this.bufferSize, this.defaultResponse := bufferSize, defaultResponse;
      response, sendEstablished, sendEstablishedDone, handler := defaultResponse, false, false, Waiting;
      io := Streams(Buf(headerLead + |leftover|, headerLead, leftover), Buf(0, 0, []), false, false,
                    Buf(0, 0, []), false, false, leftover, [], [], []);
      closing, answered, customised := Open, [], false;
    }

    /** ngx_http_proxy_connect_tunnel, client to upstream. */
    method RelayUp(doWrite: bool, script: seq<Io>, canAlloc: bool, eventsOk: bool)
      requires Valid() && sendEstablishedDone && closing.Open?
      modifies `io, `closing
      ensures Valid() && (io, closing) == RelayedUp(old(io), doWrite, script, bufferSize, canAlloc, eventsOk)
      ensures old(io.toUpstream) <= io.toUpstream && io.relayed == old(io.relayed)
      ensures old(io).headerIn.pending == [] && !old(io).fromClientReady && !canAlloc ==>
                io == old(io) && closing.Broken?
      ensures !eventsOk ==> !closing.Open?
    {
      RelayedUpOk(io, doWrite, script, bufferSize, canAlloc, eventsOk);
      io, closing := RunUp(io, doWrite, script, bufferSize, canAlloc, eventsOk);
    }

    /** ngx_http_proxy_connect_tunnel, upstream to client. */
    method RelayDown(doWrite: bool, script: seq<Io>, eventsOk: bool)
      requires Valid() && sendEstablishedDone && closing.Open?
      modifies `io, `closing
      ensures Valid() && (io, closing) == RelayedDown(old(io), doWrite, script, eventsOk)
      ensures old(io.relayed) <= io.relayed && io.toUpstream == old(io.toUpstream)
      ensures !eventsOk ==> !closing.Open?
      ensures Pump(old(io).upstream, doWrite, script).failed ==> closing.Broken?
    {
      RelayedDownOk(io, doWrite, script, eventsOk);
      var r := RunLoop(io.upstream, doWrite, script);
      io := GoDown(io, r);
      closing := Settle(io, r.failed, eventsOk);
    }

    /** What an attempt to send the response has to send: a configured response starts over. */
    function Whole(custom: seq<nat>): seq<nat>
      reads `response
    {
      if custom != [] then custom else response
    }

    /** The sending loop and the change of handlers after it. */
    method SendResponse(custom: seq<nat>, sends: seq<SendResult>, eventsOk: bool)
      requires Valid() && !sendEstablishedDone && closing.Open?
      modifies `response, `sendEstablished, `sendEstablishedDone, `handler, `closing, `answered, `customised
      ensures Valid() && sendEstablished && customised == (old(customised) || custom != [])
      ensures var d := Drain(old(Whole(custom)), sends);
              && sendEstablishedDone == d.done && response == d.rest && answered == old(answered) + d.sent
              && closing == if d.failed || !eventsOk then Broken else Open
      ensures answered + response == old(answered) + old(Whole(custom))
    {
      var whole := Whole(custom);
      var d := RunDrain(whole, sends);
      DrainSplits(whole, sends);
      JoinLeft(answered, d.sent, d.rest);
      answered, response, customised := answered + d.sent, d.rest, customised || custom != [];
      sendEstablished, sendEstablishedDone := true, d.done;
      handler := if d.done then Tunnelling else SendingResponse;
      closing := if d.failed || !eventsOk then Broken else Open;
    }

    /** One attempt to send the response, and, once it is out, a relay of the client's bytes if
        there are any. */
    twostate predicate Attempted(custom: seq<nat>, sends: seq<SendResult>, clientReadable: bool, script: seq<Io>,
                                 canAlloc: bool, eventsOk: bool)
      reads this
    {
      var d := Drain(old(Whole(custom)), sends);
      && sendEstablished && sendEstablishedDone == d.done && response == d.rest && answered == old(answered) + d.sent
      && (io, closing) ==
         if d.done && eventsOk && (old(io).headerIn.pending != [] || clientReadable)
         then RelayedUp(old(io), false, script, bufferSize, canAlloc, eventsOk)
         else (old(io), if d.failed || !eventsOk then Broken else Open)
    }

    /** ngx_http_proxy_connect_send_connection_established; `custom` is what the
        proxy_connect_response directive evaluates to, empty when there is none. */
    method SendEstablished(custom: seq<nat>, sends: seq<SendResult>, clientReadable: bool, script: seq<Io>,
                           canAlloc: bool, eventsOk: bool)
      requires Valid() && !sendEstablishedDone && closing.Open?
      modifies this
      ensures Valid() && customised == (old(customised) || custom != [])
      ensures Attempted(custom, sends, clientReadable, script, canAlloc, eventsOk)
      ensures answered + response == old(answered) + old(Whole(custom))
      ensures sendEstablishedDone && custom != [] ==> (answered == custom <==> old(answered) == [])
      ensures old(io.toUpstream) <= io.toUpstream && io.relayed == old(io.relayed)
    {
      DrainSplits(Whole(custom), sends);
      if custom != [] && Drain(custom, sends).done {
        ConfiguredResponse(answered, custom, sends);
      }
      SendResponse(custom, sends, eventsOk);
      if sendEstablishedDone && closing.Open? && (io.headerIn.pending != [] || clientReadable) {
        RelayUp(false, script, canAlloc, eventsOk);
      }
    }

    /** ngx_http_proxy_connect_write_upstream */
    method OnUpstreamWritable(timedOut: bool, connectOk: bool, custom: seq<nat>, sends: seq<SendResult>,
                              clientReadable: bool, script: seq<Io>, canAlloc: bool, eventsOk: bool)
      requires Valid() && closing.Open?
      modifies this
      ensures Valid() && old(ToClient()) <= ToClient() && old(io.toUpstream) <= io.toUpstream
      ensures customised ==> old(customised) || custom != []
      ensures old(sendEstablished) ==> sendEstablished
      ensures old(sendEstablishedDone) ==>
                sendEstablishedDone && answered == old(answered) && customised == old(customised)
      ensures if timedOut || (!old(sendEstablished) && !connectOk) then
                closing.Broken? && io == old(io) && answered == old(answered)
              else if !old(sendEstablished) then Attempted(custom, sends, clientReadable, script, canAlloc, eventsOk)
              else if !old(sendEstablishedDone) then
                io == old(io) && answered == old(answered) && closing == if eventsOk then Open else Broken
              else (io, closing) == RelayedUp(old(io), true, script, bufferSize, canAlloc, eventsOk)
    {
      if timedOut || (!sendEstablished && !connectOk) {
        closing := Broken;
      } else if !sendEstablished {
        SendEstablished(custom, sends, clientReadable, script, canAlloc, eventsOk);
      } else if !sendEstablishedDone {
        if !eventsOk {
          closing := Broken;
        }
      } else {
        RelayUp(true, script, canAlloc, eventsOk);
      }
    }

    /** ngx_http_proxy_connect_read_upstream */
    method OnUpstreamReadable(timedOut: bool, connectOk: bool, script: seq<Io>, canAlloc: bool, eventsOk: bool)
      requires Valid() && closing.Open?
      modifies `io, `closing
      ensures Valid() && old(ToClient()) <= ToClient() && io.toUpstream == old(io.toUpstream)
      ensures if timedOut || (!sendEstablished && !connectOk) || (!old(io).upstreamReady && !canAlloc) then
                closing.Broken? && io == old(io)
              else if !sendEstablishedDone then
                io == Allocated(old(io), bufferSize) && closing == if eventsOk then Open else Broken
              else (io, closing) == RelayedDown(Allocated(old(io), bufferSize), false, script, eventsOk)
    {
      if timedOut || (!sendEstablished && !connectOk) {
        closing := Broken;
        return;
      }
      if !io.upstreamReady {
        if !canAlloc {
          closing := Broken;
          return;
        }
        AllocatedOk(io, bufferSize);
        io := io.(upstream := Buf(bufferSize, 0, []), upstreamReady := true);
      }
      if !sendEstablishedDone {
        if !eventsOk {
          closing := Broken;
        }
      } else {
        RelayDown(false, script, eventsOk);
      }
    }

    /** The client is readable: ngx_http_proxy_connect_read_downstream once it is installed. */
    method OnClientReadable(timedOut: bool, script: seq<Io>, canAlloc: bool, eventsOk: bool)
      requires Valid() && closing.Open?
      modifies `io, `closing
      ensures Valid() && old(io.toUpstream) <= io.toUpstream && ToClient() == old(ToClient())
      ensures if !sendEstablishedDone then io == old(io) && closing.Open?
              else if timedOut then io == old(io) && closing.Broken?
              else (io, closing) == RelayedUp(old(io), false, script, bufferSize, canAlloc, eventsOk)
    {
      if handler.Tunnelling? {
        if timedOut {
          closing := Broken;
        } else {
          RelayUp(false, script, canAlloc, eventsOk);
        }
      }
    }

    /** The client is writable: ngx_http_proxy_connect_send_handler while the response is on
        its way, ngx_http_proxy_connect_write_downstream after it. */
    method OnClientWritable(timedOut: bool, custom: seq<nat>, sends: seq<SendResult>,
                            clientReadable: bool, script: seq<Io>, canAlloc: bool, eventsOk: bool)
      requires Valid() && closing.Open?
      modifies this
      ensures Valid() && old(ToClient()) <= ToClient() && old(io.toUpstream) <= io.toUpstream
      ensures customised ==> old(customised) || custom != []
      ensures old(sendEstablished) ==> sendEstablished
      ensures old(sendEstablishedDone) ==>
                sendEstablishedDone && answered == old(answered) && customised == old(customised)
      ensures if !old(sendEstablished) then io == old(io) && answered == old(answered) && closing.Open?
              else if timedOut then io == old(io) && answered == old(answered) && closing.Broken?
              else if old(sendEstablishedDone) then (io, closing) == RelayedDown(old(io), true, script, eventsOk)
              else if old(response) == [] then io == old(io) && answered == old(answered) && closing.Open?
              else Attempted(custom, sends, clientReadable, script, canAlloc, eventsOk)
    {
      if timedOut {
        if !handler.Waiting? {
          closing := Broken;
        }
      } else if handler.Tunnelling? {
        RelayDown(true, script, eventsOk);
      } else if handler.SendingResponse? && response != [] {
        SendEstablished(custom, sends, clientReadable, script, canAlloc, eventsOk);
      }
    }

    /** In every state: each side has been sent a prefix of what the other side sent, nothing
        at all before the response is out, and the client first got the response, which is
        the default one unless a response is configured. */
    lemma TunnelIsTransparent()
      requires Valid()
      ensures io.toUpstream <= io.clientBytes && io.relayed <= io.upstreamBytes
      ensures io.relayed != [] || io.toUpstream != [] ==> sendEstablishedDone
      ensures sendEstablishedDone && !customised ==> ToClient() == defaultResponse + io.relayed
      ensures !sendEstablishedDone ==> ToClient() == answered
    {
      assert sendEstablishedDone && !customised ==> answered + [] == defaultResponse;
    }

    /** A tunnel that has closed delivered the upstream's bytes if and only if none wait, which
        only a client that has ended can bring about; and the client's bytes if and only if
        none wait in either buffer, which takes an upstream that has ended or bytes in the
        header buffer. */
    lemma ClosingDelivers()
      requires Valid() && closing.TunnelDone?
      ensures || (io.upstreamEof && io.upstream.pending == [])
              || (io.clientEof && (io.fromClient.pending == [] || io.upstreamEof))
      ensures io.relayed == io.upstreamBytes <==> io.upstream.pending == []
      ensures io.relayed != io.upstreamBytes ==> io.clientEof
      ensures io.toUpstream == io.clientBytes <==> io.headerIn.pending == [] && io.fromClient.pending == []
      ensures io.toUpstream != io.clientBytes ==> io.upstreamEof || io.headerIn.pending != []
    {
      WhatClosingDrops(io);
    }

    /** A tunnel that is open has a side that has not ended, and a side that has ended still has
        bytes on their way. */
    lemma OpenGoesOn()
      requires Valid() && closing.Open?
      ensures !(io.clientEof && io.upstreamEof)
      ensures io.upstreamEof ==> io.upstream.pending != []
      ensures io.clientEof ==> io.fromClient.pending != []
    {
    }
  }

  /** Attempts with a configured response: the last one sends all of it, so the client has
      exactly that response if and only if the attempts before it sent nothing. */
  lemma ConfiguredResponse(before: seq<nat>, custom: seq<nat>, sends: seq<SendResult>)
    requires Drain(custom, sends).done
    ensures before + Drain(custom, sends).sent == custom <==> before == []
  {
    DrainSplits(custom, sends);
    assert |before + custom| == |before| + |custom|;
    assert before == [] ==> before + custom == custom;
  }

  // ------------------------------------------------- how bytes are lost

  const SOURCE_ENDS := Io(false, SendAgain, true, Got([]))

  function SourceSends(x: nat): Io {
    Io(false, SendAgain, true, Got([x]))
  }

  /** The header buffer is emptied, takes one more byte, and the source ends. */
  lemma LeftoverByteStays()
    ensures Pump(Buf(3, 0, [1, 2, 3]), true, [Io(true, Sent(3), true, Got([7])), SOURCE_ENDS])
         == Pumped(Buf(3, 0, [7]), [1, 2, 3], [7], true, false)
  {
    var script := [Io(true, Sent(3), true, Got([7])), SOURCE_ENDS];
    assert OneRound(Buf(3, 0, [1, 2, 3]), true, script[0]) == Pumped(Buf(3, 0, [7]), [1, 2, 3], [7], false, false);
    assert script[1..][0] == script[1];
    assert OneRound(Buf(3, 0, [7]), true, script[1]) == Pumped(Buf(3, 0, [7]), [], [], true, false);
  }

  /** One byte arrives, or the end of the stream, or one after the other. */
  lemma ByteArrives()
    ensures Pump(Buf(8, 0, []), false, [SourceSends(9)]) == Pumped(Buf(8, 0, [9]), [], [9], false, false)
    ensures Pump(Buf(8, 0, []), false, [SourceSends(9), SOURCE_ENDS]) == Pumped(Buf(8, 0, [9]), [], [9], true, false)
    ensures Pump(Buf(8, 0, []), false, [SOURCE_ENDS]) == Pumped(Buf(8, 0, []), [], [], true, false)
  {
    var script := [SourceSends(9), SOURCE_ENDS];
    assert OneRound(Buf(8, 0, []), false, SourceSends(9)) == Pumped(Buf(8, 0, [9]), [], [9], false, false);
    assert [SourceSends(9)][1..] == [] && script[1..] == [SOURCE_ENDS];
    assert OneRound(Buf(8, 0, [9]), true, SOURCE_ENDS) == Pumped(Buf(8, 0, [9]), [], [], true, false);
  }

  lemma ResponseOut()
    ensures Drain([200], [Sent(1)]) == Drained([200], [], true, false)
  {
  }

  /** Client bytes lost: they were left in the header buffer when the client ended. */
  method LeftoverLost() returns (t: Tunnel)
    ensures fresh(t) && t.Valid() && t.closing.TunnelDone?
    ensures !t.io.upstreamEof && t.io.toUpstream == [1, 2, 3] && t.io.clientBytes == [1, 2, 3, 7]
  {
    t := new Tunnel(8, [200], 0, [1, 2, 3]);
    ResponseOut();
    LeftoverByteStays();
    var trips := [Io(true, Sent(3), true, Got([7])), SOURCE_ENDS];
    t.OnUpstreamWritable(false, true, [], [Sent(1)], false, trips, true, true);
  }

  /** A tunnel whose response went out at once. */
  method Opened() returns (t: Tunnel)
    ensures fresh(t) && t.Valid() && t.closing.Open? && t.sendEstablished && t.sendEstablishedDone && t.bufferSize == 8
    ensures !t.customised && t.answered == [200]
    ensures t.io == Streams(Buf(0, 0, []), Buf(0, 0, []), false, false, Buf(0, 0, []), false, false, [], [], [], [])
  {
    t := new Tunnel(8, [200], 0, []);
    ResponseOut();
    t.OnUpstreamWritable(false, true, [], [Sent(1)], false, [], true, true);
  }

  lemma ResponseInTwo()
    ensures Drain([7, 8], [Sent(1), SendAgain]) == Drained([7], [8], false, false)
    ensures Drain([7, 8], [Sent(2)]) == Drained([7, 8], [], true, false)
  {
    assert [Sent(1), SendAgain][1..] == [SendAgain] && [7, 8][1..] == [8] && [7, 8][..1] == [7];
  }

  /** A configured response of two bytes that goes out in two attempts: the client gets its
      first byte twice. */
  method ResponseRestarts() returns (t: Tunnel)
    ensures fresh(t) && t.Valid() && t.closing.Open? && t.sendEstablishedDone && t.answered == [7, 7, 8]
  {
    t := new Tunnel(8, [200], 0, []);
    ResponseInTwo();
    t.OnUpstreamWritable(false, true, [7, 8], [Sent(1), SendAgain], false, [], true, true);
    t.OnClientWritable(false, [7, 8], [Sent(2)], false, [], true, true);
  }

  /** Upstream bytes lost: the client ended while they waited. */
  method UpstreamBytesLost() returns (t: Tunnel)
    ensures fresh(t) && t.Valid() && t.closing.TunnelDone?
    ensures t.io.headerIn.pending == [] && t.io.relayed == [] && t.io.upstreamBytes == [9]
  {
    t := Opened();
    ByteArrives();
    t.OnUpstreamReadable(false, true, [SourceSends(9)], true, true);
    t.OnClientReadable(false, [SOURCE_ENDS], true, true);
  }

  /** Client bytes lost: the upstream ended while they waited in the tunnel's own buffer. */
  method ClientBytesLost() returns (t: Tunnel)
    ensures fresh(t) && t.Valid() && t.closing.TunnelDone?
    ensures t.io.headerIn.pending == [] && t.io.toUpstream == [] && t.io.clientBytes == [9]
  {
    t := Opened();
    ByteArrives();
    t.OnClientReadable(false, [SourceSends(9), SOURCE_ENDS], true, true);
    t.OnUpstreamReadable(false, true, [SOURCE_ENDS], true, true);
  }
}
