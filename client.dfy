/**
 * The transport of src/client/client.c: call_method opens one TCP
 * connection per call, sends the request whole, receives into a zeroed
 * response buffer until the buffer is full, the peer closes or a receive
 * fails, and shuts down and releases the socket on every path after
 * creating it.
 *
 * The kernel socket API is replaced by a Network value that fixes what
 * each step returns, and by a Socket object whose methods play
 * kernel_connect, kernel_sendmsg, kernel_recvmsg, kernel_sock_shutdown
 * and sock_release and record each call in a trace.
 */
module Transport {
  import opened Protocol

  /** A negative kernel error number. */
  type Errno = x: int | x < 0 witness -1

  /** What the peer has in store for the client's receives, in order:
      runs of bytes (each possibly handed out over several receives), ended
      by an orderly close or by a receive error that every later receive
      reports again. */
  datatype Stream = Closed | Chunk(bytes: seq<byte>, next: Stream) | Fault(err: Errno)

  /** The outcome of each step of one call: whether sock_create_kern and
      kernel_connect succeed, what kernel_sendmsg returns, and the stream
      that kernel_recvmsg reads from. */
  datatype Network = Network(createOk: bool, connectOk: bool, sendResult: int, incoming: Stream)

  /** The lifecycle of the socket of one call. */
  datatype SockState = Created | Connected | Sent | Released

  /** One kernel_recvmsg: how many bytes it asked for and what it returned. */
  datatype Receipt = Receipt(asked: nat, result: int)

  /** One socket operation as the trace records it. */
  datatype Event =
    | Connect(ok: bool)
    | SendMsg(msg: seq<byte>, result: int)
    | RecvMsg(receipt: Receipt)
    | Shutdown
    | Release

  function Zeros(n: nat): (z: seq<byte>)
    ensures |z| == n && forall i :: 0 <= i < n ==> z[i] == 0
  {
    seq(n, _ => 0)
  }

  /** The trace entries of a run of receives. */
  function RecvEvents(rs: seq<Receipt>): (es: seq<Event>)
    ensures |es| == |rs|
    ensures forall i :: 0 <= i < |rs| ==> es[i] == RecvMsg(rs[i])
  {
    seq(|rs|, i requires 0 <= i < |rs| => RecvMsg(rs[i]))
  }

  /** One more receive extends a trace by its event. */
  lemma RecvEventsAppend(prefix: seq<Event>, rs: seq<Receipt>, x: Receipt)
    ensures prefix + RecvEvents(rs + [x]) == (prefix + RecvEvents(rs)) + [RecvMsg(x)]
  {
    assert RecvEvents(rs + [x]) == RecvEvents(rs) + [RecvMsg(x)];
  }

  /** The outcome of one kernel_recvmsg asking for `len` bytes. */
  datatype RecvStep = RecvStep(result: int, data: seq<byte>, rest: Stream)

  function Receive(incoming: Stream, len: nat): (s: RecvStep)
    requires len > 0
    ensures s.result <= len
    ensures s.result > 0 ==> |s.data| == s.result
    ensures s.result <= 0 ==> s.data == []
    ensures incoming == Closed ==> s.result == 0
  {
    match incoming
    case Closed => RecvStep(0, [], Closed)
    case Fault(err) => RecvStep(err, [], incoming)
    case Chunk(b, next) =>
      if |b| <= len then RecvStep(|b|, b, next)
      else RecvStep(len, b[..len], Chunk(b[len..], next))
  }

  /** What the receive loop collects: whether it ended on an error, the
      bytes it placed in the buffer, and the receives it made. */
  datatype RecvRun = RecvRun(failed: bool, data: seq<byte>, receipts: seq<Receipt>)

  /** The receive loop with `want` bytes of the buffer still to fill. */
  function ReceiveAll(incoming: Stream, want: nat): (r: RecvRun)
    decreases want
    ensures |r.data| <= want
  {
    if want == 0 then RecvRun(false, [], [])
    else
      var s := Receive(incoming, want);
      if s.result == 0 then RecvRun(false, [], [Receipt(want, 0)])
      else if s.result < 0 then RecvRun(true, [], [Receipt(want, s.result)])
      else
        var tail := ReceiveAll(s.rest, want - s.result);
        RecvRun(tail.failed, s.data + tail.data, [Receipt(want, s.result)] + tail.receipts)
  }

  /** The whole of one call: its return value, the socket operations in
      order, and the response buffer after the receive phase (None when
      the call fails before the buffer is zeroed and it keeps its bytes). */
  datatype CallOutcome = CallOutcome(ret: int, events: seq<Event>, response: Option<seq<byte>>)

  function Call(net: Network, req: seq<byte>): (out: CallOutcome)
    ensures out.ret == 0 || out.ret == -1
    ensures out.response.Some? ==> |out.response.value| == RESPONSE_SIZE
    ensures out.ret == 0 ==> out.response.Some?
  {
    if !net.createOk then CallOutcome(-1, [], None)
    else if !net.connectOk then CallOutcome(-1, [Connect(false), Release], None)
    else if net.sendResult < 0 then
      CallOutcome(-1, [Connect(true), SendMsg(req, net.sendResult), Shutdown, Release], None)
    else
      var run := ReceiveAll(net.incoming, RESPONSE_SIZE);
      CallOutcome(if run.failed then -1 else 0,
                  [Connect(true), SendMsg(req, net.sendResult)] + RecvEvents(run.receipts) + [Shutdown, Release],
                  Some(run.data + Zeros(RESPONSE_SIZE - |run.data|)))
  }

  /** The kernel socket of one call. */
  class Socket {
    var state: SockState
    var events: seq<Event>
    var incoming: Stream
    const connectOk: bool
    const sendResult: int

    /** sock_create_kern, when it succeeds. */
    constructor (net: Network)
      ensures state == Created && events == []
      ensures incoming == net.incoming && connectOk == net.connectOk && sendResult == net.sendResult
    {
      state := Created;
      events := [];
      incoming := net.incoming;
      connectOk := net.connectOk;
      sendResult := net.sendResult;
    }

    /** kernel_connect. */
    method Connect() returns (r: int)
      requires state == Created
      modifies this
      ensures r < 0 <==> !connectOk
      ensures state == (if connectOk then Connected else Created)
      ensures events == old(events) + [Event.Connect(connectOk)]
      ensures incoming == old(incoming)
    {
      r := if connectOk then 0 else -1;
      state := if connectOk then Connected else Created;
      events := events + [Event.Connect(connectOk)];
    }

    /** kernel_sendmsg of one message. */
    method SendMsg(msg: seq<byte>) returns (r: int)
      requires state == Connected
      modifies this
      ensures r == sendResult
      ensures state == (if r < 0 then Connected else Sent)
      ensures events == old(events) + [Event.SendMsg(msg, r)]
      ensures incoming == old(incoming)
    {
      r := sendResult;
      state := if r < 0 then Connected else Sent;
      events := events + [Event.SendMsg(msg, r)];
    }

    /** kernel_recvmsg of at most `len` bytes into buf[at..at+len]. */
    method RecvMsg(buf: array<byte>, at: nat, len: nat) returns (r: int)
      requires state == Sent
      requires 0 < len && at + len <= buf.Length
      modifies this, buf
      ensures var s := Receive(old(incoming), len);
        && r == s.result && incoming == s.rest
        && buf[..] == old(buf[..at]) + s.data + old(buf[at + |s.data|..])
      ensures events == old(events) + [Event.RecvMsg(Receipt(len, r))]
      ensures state == old(state)
    {
      var s := Receive(incoming, len);
      r := s.result;
      forall i | 0 <= i < |s.data| {
        buf[at + i] := s.data[i];
      }
      assert buf[..] == old(buf[..at]) + s.data + old(buf[at + |s.data|..]);
      incoming := s.rest;
      events := events + [Event.RecvMsg(Receipt(len, r))];
    }

    /** kernel_sock_shutdown(SHUT_RDWR). */
    method Shutdown()
      requires state == Connected || state == Sent
      modifies this
      ensures events == old(events) + [Event.Shutdown]
      ensures state == old(state) && incoming == old(incoming)
    {
      events := events + [Event.Shutdown];
    }

    /** sock_release: allowed once, on a socket that is not yet released. */
    method Release()
      requires state != Released
      modifies this
      ensures events == old(events) + [Event.Release]
      ensures state == Released && incoming == old(incoming)
    {
      events := events + [Event.Release];
      state := Released;
    }
  }

  /** The receive loop as the trace continues it: what was collected so
      far, followed by what the loop still collects. */
  function Join(got: seq<byte>, done: seq<Receipt>, rest: RecvRun): RecvRun
  {
    RecvRun(rest.failed, got + rest.data, done + rest.receipts)
  }

  /** One turn of the receive loop, seen through Join. */
  lemma JoinStep(got: seq<byte>, done: seq<Receipt>, incoming: Stream, want: nat)
    requires want > 0
    ensures var s := Receive(incoming, want);
      var whole := Join(got, done, ReceiveAll(incoming, want));
      var done' := done + [Receipt(want, s.result)];
      && (s.result == 0 ==> whole == RecvRun(false, got, done'))
      && (s.result < 0 ==> whole == RecvRun(true, got, done'))
      && (s.result > 0 ==> whole == Join(got + s.data, done', ReceiveAll(s.rest, want - s.result)))
  {
    var s := Receive(incoming, want);
    if s.result > 0 {
      var tail := ReceiveAll(s.rest, want - s.result);
      assert got + (s.data + tail.data) == (got + s.data) + tail.data;
      assert done + ([Receipt(want, s.result)] + tail.receipts)
          == (done + [Receipt(want, s.result)]) + tail.receipts;
    }
  }

  /** Receiving into the zeroed rest of the buffer leaves the bytes so
      far, then the new bytes, then zeros. */
  lemma FillFront(got: seq<byte>, data: seq<byte>, left: nat)
    requires |data| <= left
    ensures var before := got + Zeros(left);
      before[..|got|] + data + before[|got| + |data|..] == (got + data) + Zeros(left - |data|)
  {
    var before := got + Zeros(left);
    assert before[..|got|] == got;
    assert before[|got| + |data|..] == Zeros(left - |data|);
  }

  /** One turn of the receive loop: a kernel_recvmsg into what is left of
      the buffer, and where it leaves the loop's run. */
  method ReceiveMore(sock: Socket, resp: array<byte>, at: nat, left: nat, ghost got: seq<byte>, ghost done: seq<Receipt>)
      returns (r: int, ghost got': seq<byte>)
    requires sock.state == Sent && 0 < left && at + left == resp.Length && |got| == at
    requires resp[..] == got + Zeros(left)
    modifies sock, resp
    ensures sock.state == Sent && r <= left
    ensures sock.events == old(sock.events) + [Event.RecvMsg(Receipt(left, r))]
    ensures r <= 0 ==> resp[..] == got + Zeros(left)
    ensures 0 < r ==> |got'| == at + r && resp[..] == got' + Zeros(left - r)
    ensures Join(got, done, ReceiveAll(old(sock.incoming), left)) ==
      if r <= 0 then RecvRun(r < 0, got, done + [Receipt(left, r)])
      else Join(got', done + [Receipt(left, r)], ReceiveAll(sock.incoming, left - r))
  {
    ghost var s := Receive(sock.incoming, left);
    JoinStep(got, done, sock.incoming, left);
    r := sock.RecvMsg(resp, at, left);
    FillFront(got, s.data, left);
    got' := got + s.data;
  }

  /** The memset of the response buffer. */
  method Clear(resp: array<byte>)
    modifies resp
    ensures resp[..] == Zeros(resp.Length)
  {
    forall i | 0 <= i < resp.Length {
      resp[i] := 0;
    }
  }

  /** The receive phase of call_method: zero the response buffer, then
      receive into what is left of it (vec.iov_base, vec.iov_len) until it
      is full, the peer closes or a receive fails. */
  method ReceiveResponse(sock: Socket, resp: array<byte>) returns (failed: bool)
    requires sock.state == Sent
    modifies sock, resp
    ensures var run := ReceiveAll(old(sock.incoming), resp.Length);
      && failed == run.failed
      && sock.events == old(sock.events) + RecvEvents(run.receipts)
      && resp[..] == run.data + Zeros(resp.Length - |run.data|)
    ensures sock.state == Sent
  {
    Clear(resp);
    ghost var prefix := sock.events;
    ghost var whole := ReceiveAll(sock.incoming, resp.Length);
    assert prefix == old(sock.events) && whole == ReceiveAll(old(sock.incoming), resp.Length);
    ghost var got: seq<byte> := [];
    ghost var done: seq<Receipt> := [];
    var at: nat := 0;
    var left: nat := resp.Length;
    failed := false;
    while left > 0
      invariant at + left == resp.Length
      invariant sock.state == Sent && !failed
      invariant |got| == at
      invariant resp[..] == got + Zeros(left)
      invariant sock.events == prefix + RecvEvents(done)
      invariant whole == Join(got, done, ReceiveAll(sock.incoming, left))
      decreases left
    {
      var r;
      ghost var got';
      r, got' := ReceiveMore(sock, resp, at, left, got, done);
      RecvEventsAppend(prefix, done, Receipt(left, r));
      done := done + [Receipt(left, r)];
      if r <= 0 {
        failed := r < 0;
        break;
      }
      got := got';
      at := at + r;
      left := left - r;
    }
    assert whole.failed == failed && whole.data == got && whole.receipts == done;
    assert sock.events == prefix + RecvEvents(whole.receipts);
  }

  /** What call_method does once the request is sent: receive the
      response, then shut the socket down and release it. */
  method Conclude(sock: Socket, resp: array<byte>) returns (ret: int)
    requires sock.state == Sent
    modifies sock, resp
    ensures var run := ReceiveAll(old(sock.incoming), resp.Length);
      && ret == (if run.failed then -1 else 0)
      && sock.state == Released
      && sock.events == old(sock.events) + RecvEvents(run.receipts) + [Shutdown, Release]
      && resp[..] == run.data + Zeros(resp.Length - |run.data|)
  {
    var failed := ReceiveResponse(sock, resp);
    sock.Shutdown();
    sock.Release();
    ret := if failed then -1 else 0;
  }

  /** call_method. `req` is the request struct as bytes and `resp` the
      response struct; `sock` is the socket the call created, if any. */
  method CallMethod(net: Network, req: seq<byte>, resp: array<byte>) returns (ret: int, sock: Socket?)
    requires |req| == REQUEST_SIZE && resp.Length == RESPONSE_SIZE
    modifies resp
    ensures var out := Call(net, req);
      && ret == out.ret
      && (sock == null <==> !net.createOk)
      && (sock != null ==> fresh(sock) && sock.state == Released && sock.events == out.events)
      && resp[..] == (if out.response.Some? then out.response.value else old(resp[..]))
  {
    if !net.createOk {
      return -1, null;
    }
    sock := new Socket(net);
    var r := sock.Connect();
    if r < 0 {
      sock.Release();
      return -1, sock;
    }
    r := sock.SendMsg(req);
    if r < 0 {
      sock.Shutdown();
      sock.Release();
      return -1, sock;
    }
    ret := Conclude(sock, resp);
  }

  // ---------------------------------------------------------------------
  // Properties of the exchange

  function CountReleases(events: seq<Event>): nat
  {
    if events == [] then 0
    else (if events[0] == Release then 1 else 0) + CountReleases(events[1..])
  }

  lemma {:induction false} CountReleasesAppend(a: seq<Event>, b: seq<Event>)
    ensures CountReleases(a + b) == CountReleases(a) + CountReleases(b)
  {
    if a == [] {
      assert a + b == b;
    } else {
      assert (a + b)[1..] == a[1..] + b;
      CountReleasesAppend(a[1..], b);
    }
  }

  /** The receive loop adds receives to the trace and nothing else. */
  lemma {:induction false} NoReleaseAmongReceives(rs: seq<Receipt>)
    ensures CountReleases(RecvEvents(rs)) == 0
  {
    if rs != [] {
      assert RecvEvents(rs)[1..] == RecvEvents(rs[1..]);
      NoReleaseAmongReceives(rs[1..]);
    }
  }

  /** Once the socket exists, every path releases it exactly once, as the
      last operation; a failed creation touches no socket at all. */
  lemma ReleasedExactlyOnce(net: Network, req: seq<byte>)
    ensures var out := Call(net, req);
      if net.createOk then
        CountReleases(out.events) == 1 && out.events[|out.events| - 1] == Release
      else out.events == [] && out.ret == -1
  {
    if net.createOk && net.connectOk && net.sendResult >= 0 {
      var run := ReceiveAll(net.incoming, RESPONSE_SIZE);
      var head: seq<Event> := [Connect(true), SendMsg(req, net.sendResult)];
      NoReleaseAmongReceives(run.receipts);
      CountReleasesAppend(head, RecvEvents(run.receipts));
      CountReleasesAppend(head + RecvEvents(run.receipts), [Shutdown, Release]);
    }
  }

  /** A failed connect releases without a shutdown; a failed send shuts
      down and releases; neither touches the response buffer. The request
      goes out as one message of exactly sizeof(MethodRequest) bytes. */
  lemma EarlyFailures(net: Network, req: seq<byte>)
    requires |req| == REQUEST_SIZE && net.createOk
    ensures !net.connectOk ==> Call(net, req) == CallOutcome(-1, [Connect(false), Release], None)
    ensures net.connectOk ==> Call(net, req).events[1] == SendMsg(req, net.sendResult)
    ensures net.connectOk && net.sendResult < 0 ==>
      Call(net, req).events == [Connect(true), SendMsg(req, net.sendResult), Shutdown, Release]
      && Call(net, req).response.None?
  {
  }

  /** The loop receives at least once unless the buffer is full; it stops
      short of filling the buffer only when the last receive returned 0, and
      it fails exactly when the last receive returned an error. */
  lemma {:induction false} ReceiveAllEnds(incoming: Stream, want: nat)
    ensures var r := ReceiveAll(incoming, want);
      r.receipts == [] <==> want == 0
    ensures var r := ReceiveAll(incoming, want);
      !r.failed && |r.data| < want ==> r.receipts[|r.receipts| - 1].result == 0
    ensures var r := ReceiveAll(incoming, want);
      r.failed ==> r.receipts != [] && r.receipts[|r.receipts| - 1].result < 0
    ensures var r := ReceiveAll(incoming, want);
      r.receipts != [] && r.receipts[|r.receipts| - 1].result < 0 ==> r.failed
    decreases want
  {
    if want > 0 {
      var s := Receive(incoming, want);
      if s.result > 0 {
        var r := ReceiveAll(incoming, want);
        var tail := ReceiveAll(s.rest, want - s.result);
        ReceiveAllEnds(s.rest, want - s.result);
        assert r.receipts == [Receipt(want, s.result)] + tail.receipts;
        assert r.data == s.data + tail.data;
      }
    }
  }

  /** Each receive asks for exactly what is left of the buffer, a result
      never exceeds what was asked, and every receive but the last returned
      bytes and left that much less of the buffer to the next one. */
  lemma {:induction false} ReceivesShrinkRemaining(incoming: Stream, want: nat)
    ensures var rs := ReceiveAll(incoming, want).receipts;
      rs != [] ==> rs[0].asked == want
    ensures var rs := ReceiveAll(incoming, want).receipts;
      forall k :: 0 <= k < |rs| ==> rs[k].result <= rs[k].asked
    ensures var rs := ReceiveAll(incoming, want).receipts;
      forall k :: 0 <= k < |rs| - 1 ==> 0 < rs[k].result && rs[k + 1].asked == rs[k].asked - rs[k].result
    decreases want
  {
    if want > 0 {
      var s := Receive(incoming, want);
      if s.result > 0 {
        var rs := ReceiveAll(incoming, want).receipts;
        var tail := ReceiveAll(s.rest, want - s.result).receipts;
        ReceivesShrinkRemaining(s.rest, want - s.result);
        assert rs == [Receipt(want, s.result)] + tail;
        forall k | 0 <= k < |rs|
          ensures rs[k].result <= rs[k].asked
        {
          if k > 0 {
            assert rs[k] == tail[k - 1];
          }
        }
        forall k | 0 <= k < |rs| - 1
          ensures 0 < rs[k].result && rs[k + 1].asked == rs[k].asked - rs[k].result
        {
          assert rs[k + 1] == tail[k];
          if k > 0 {
            assert rs[k] == tail[k - 1];
          }
        }
      }
    }
  }

  /** The bytes a peer sends before it closes or fails. */
  function StreamBytes(incoming: Stream): seq<byte>
  {
    match incoming
    case Closed => []
    case Fault(_) => []
    case Chunk(b, next) => if b == [] then [] else b + StreamBytes(next)
  }

  /** One receive takes its bytes off the front of the stream. */
  lemma ReceiveTakesFront(incoming: Stream, len: nat)
    requires len > 0
    ensures var s := Receive(incoming, len);
      s.result > 0 ==> StreamBytes(incoming) == s.data + StreamBytes(s.rest)
  {
    var s := Receive(incoming, len);
    if s.result > 0 && len < |incoming.bytes| {
      var b := incoming.bytes;
      assert b == b[..len] + b[len..];
    }
  }

  /** The buffer receives the first bytes of the stream, in order. */
  lemma {:induction false} ReceivedIsStreamPrefix(incoming: Stream, want: nat)
    ensures ReceiveAll(incoming, want).data <= StreamBytes(incoming)
    decreases want
  {
    if want > 0 {
      var s := Receive(incoming, want);
      if s.result > 0 {
        ReceiveTakesFront(incoming, want);
        ReceivedIsStreamPrefix(s.rest, want - s.result);
      }
    }
  }

  /** Whether the peer closes (an orderly close, or a run of no bytes,
      which a receive reports as 0) before any receive error. */
  predicate EndsInClose(incoming: Stream)
  {
    match incoming
    case Closed => true
    case Fault(_) => false
    case Chunk(b, next) => b == [] || EndsInClose(next)
  }

  /** A peer that sends at least `want` bytes, in pieces of any size, fills
      the buffer with its first `want` bytes and the loop succeeds. */
  lemma {:induction false} FullStreamFillsBuffer(incoming: Stream, want: nat)
    requires |StreamBytes(incoming)| >= want
    ensures !ReceiveAll(incoming, want).failed
    ensures ReceiveAll(incoming, want).data == StreamBytes(incoming)[..want]
    decreases want
  {
    if want > 0 {
      var b := incoming.bytes;
      var s := Receive(incoming, want);
      if |b| <= want {
        FullStreamFillsBuffer(incoming.next, want - |b|);
        assert ReceiveAll(incoming, want).data == b + ReceiveAll(incoming.next, want - |b|).data;
        assert (b + StreamBytes(incoming.next))[..want] == b + StreamBytes(incoming.next)[..want - |b|];
      } else {
        assert ReceiveAll(s.rest, 0).data == [];
        assert ReceiveAll(incoming, want).data == b[..want] + [];
      }
    }
  }

  /** A peer that sends fewer than `want` bytes, in pieces of any size,
      leaves all of them in the buffer; the loop fails exactly when the
      peer ends with a receive error rather than a close. */
  lemma {:induction false} ShortStreamEnds(incoming: Stream, want: nat)
    requires |StreamBytes(incoming)| < want
    ensures ReceiveAll(incoming, want).failed <==> !EndsInClose(incoming)
    ensures ReceiveAll(incoming, want).data == StreamBytes(incoming)
    decreases want
  {
    if incoming.Chunk? && incoming.bytes != [] {
      var b := incoming.bytes;
      ShortStreamEnds(incoming.next, want - |b|);
      assert ReceiveAll(incoming, want).data == b + ReceiveAll(incoming.next, want - |b|).data;
    }
  }

  /** A stream delivered one byte per chunk and then closed. */
  function Trickle(s: seq<byte>): Stream
  {
    if s == [] then Closed else Chunk([s[0]], Trickle(s[1..]))
  }

  lemma {:induction false} TrickleBytes(s: seq<byte>)
    ensures StreamBytes(Trickle(s)) == s
  {
    if s != [] {
      TrickleBytes(s[1..]);
    }
  }

  /** One byte per receive still fills the buffer. */
  lemma TrickleFillsBuffer(s: seq<byte>, want: nat)
    requires |s| >= want
    ensures !ReceiveAll(Trickle(s), want).failed
    ensures ReceiveAll(Trickle(s), want).data == s[..want]
  {
    TrickleBytes(s);
    FullStreamFillsBuffer(Trickle(s), want);
  }

  /** A peer that sends a whole response, in any pieces, makes the call
      succeed with exactly the first sizeof(MethodResponse) bytes. */
  lemma FullReplyIsSuccess(net: Network, req: seq<byte>)
    requires net.createOk && net.connectOk && net.sendResult >= 0
    requires |StreamBytes(net.incoming)| >= RESPONSE_SIZE
    ensures Call(net, req).ret == 0
    ensures Call(net, req).response == Some(StreamBytes(net.incoming)[..RESPONSE_SIZE])
  {
    FullStreamFillsBuffer(net.incoming, RESPONSE_SIZE);
    var data := StreamBytes(net.incoming)[..RESPONSE_SIZE];
    assert data + Zeros(0) == data;
  }

  lemma TrickleCompletesCall(net: Network, req: seq<byte>, s: seq<byte>)
    requires net.createOk && net.connectOk && net.sendResult >= 0
    requires |s| >= RESPONSE_SIZE && net.incoming == Trickle(s)
    ensures Call(net, req).ret == 0
    ensures Call(net, req).response == Some(s[..RESPONSE_SIZE])
  {
    TrickleBytes(s);
    FullReplyIsSuccess(net, req);
  }

  /** A peer that closes after too few bytes, sent in any pieces, still
      makes the call succeed, with the short bytes followed by zeros; one
      that ends with a receive error instead makes it fail. */
  lemma ShortReplyOutcome(net: Network, req: seq<byte>)
    requires net.createOk && net.connectOk && net.sendResult >= 0
    requires |StreamBytes(net.incoming)| < RESPONSE_SIZE
    ensures Call(net, req).ret == 0 <==> EndsInClose(net.incoming)
    ensures Call(net, req).response ==
      Some(StreamBytes(net.incoming) + Zeros(RESPONSE_SIZE - |StreamBytes(net.incoming)|))
  {
    ShortStreamEnds(net.incoming, RESPONSE_SIZE);
  }

  /** The single-chunk case: the bytes, then a close. */
  lemma EarlyCloseIsSuccess(net: Network, req: seq<byte>, s: seq<byte>)
    requires net.createOk && net.connectOk && net.sendResult >= 0
    requires 0 < |s| < RESPONSE_SIZE && net.incoming == Chunk(s, Closed)
    ensures Call(net, req).ret == 0
    ensures Call(net, req).response == Some(s + Zeros(RESPONSE_SIZE - |s|))
  {
    assert StreamBytes(net.incoming) == s + [] == s;
    ShortReplyOutcome(net, req);
  }

  /** After the receive phase every byte that did not arrive reads as zero. */
  lemma UnreceivedBytesAreZero(net: Network, req: seq<byte>, i: nat)
    requires Call(net, req).response.Some?
    requires |ReceiveAll(net.incoming, RESPONSE_SIZE).data| <= i < RESPONSE_SIZE
    ensures Call(net, req).response.value[i] == 0
  {
  }
}
