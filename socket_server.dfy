/**
  The per-connection loop shared by the two Python OCR servers: read an 8-byte
  `>Q` length with `recvall`, read that many payload bytes, answer with an 8-byte
  `>Q` length and the UTF-8 bytes of the reply text; a missing header, an empty
  or missing payload, or a failed send ends the connection, which is then closed.
  What a request is answered with is the server's own business and is a
  parameter here; it may carry state from one request to the next, and it may
  raise an exception that nothing catches (`Crash`).
*/
module SocketServer {
  import opened Common
  import opened Wire
  import opened Sockets
  import Utf8

  /**
    `socket.recv` takes its buffer size as a C `ssize_t`: `recvall` asked for
    2^63 bytes or more raises `OverflowError` at its first `recv`, before reading
    anything, and the connection loop's `except` does not catch it.
  */
  const RECV_LIMIT: nat := 0x8000_0000_0000_0000

  /** What handling one payload comes to: the reply text and the next state, or an uncaught exception. */
  datatype Handled<S> = Reply(next: S, text: string) | Crash

  /** A whole connection: the replies sent, whether an exception escaped, and the state left behind. */
  datatype Session<S> = Session(replies: seq<string>, crashed: bool, last: S)

  /** `struct.pack('>Q', n)` raises for a reply whose UTF-8 form has 2^64 bytes or more. */
  predicate TooLong(text: string) {
    Utf8.EncodedLength(text) >= TWO_TO_THE_64
  }

  /** Any reply shorter than 2^62 characters can be framed. */
  lemma ShortNotTooLong(text: string)
    requires |text| < 0x4000_0000_0000_0000
    ensures !TooLong(text)
  {
    Utf8.EncodedLengthBound(text);
  }

  /** The bytes that carry the replies: each one's length header, then its UTF-8 bytes. */
  function Framed(replies: seq<string>): seq<uint8> {
    if replies == [] then [] else FrameOf(replies[0]) + Framed(replies[1..])
  }

  /** One reply on the wire; a reply too long to frame is never sent. */
  function FrameOf(text: string): seq<uint8> {
    if TooLong(text) then [] else Utf8.EncodeLength(text); Frame(Utf8.Encode(text))
  }

  lemma {:induction false} FramedAppend(a: seq<string>, b: seq<string>)
    ensures Framed(a + b) == Framed(a) + Framed(b)
  {
    if a == [] {
      assert a + b == b;
    } else {
      assert (a + b)[0] == a[0];
      assert (a + b)[1..] == a[1..] + b;
      FramedAppend(a[1..], b);
    }
  }

  lemma FramedOne(text: string)
    ensures Framed([text]) == FrameOf(text)
  {
    assert [text][1..] == [];
  }

  /** The outbound bytes after one more reply are the frames of the replies so far. */
  lemma SentStep(base: seq<uint8>, sent: seq<string>, reply: string, out: seq<uint8>, out': seq<uint8>)
    requires out == base + Framed(sent) && out' == out + FrameOf(reply)
    ensures out' == base + Framed(sent + [reply])
  {
    FramedSnoc(sent, reply);
    AppendAssoc(base, Framed(sent), FrameOf(reply));
  }

  lemma AppendAssoc(a: seq<uint8>, b: seq<uint8>, c: seq<uint8>)
    ensures (a + b) + c == a + (b + c)
  {
  }

  /** One more reply sent is one more frame on the wire. */
  lemma FramedSnoc(sent: seq<string>, reply: string)
    ensures Framed(sent + [reply]) == Framed(sent) + FrameOf(reply)
  {
    FramedAppend(sent, [reply]);
    FramedOne(reply);
  }

  /**
    How the request at the front of the stream is dealt with: the loop stops
    (with what the whole session then comes to), or `reply` is sent and the
    loop goes on with state `next`, `consumed` bytes further on.
  */
  datatype Turn<S> = Stop(session: Session<S>) | Go(reply: string, next: S, consumed: nat)

  function TakeTurn<S>(avail: seq<uint8>, s: S, writable: bool, handle: (S, seq<uint8>) -> Handled<S>): (t: Turn<S>)
    ensures t.Go? ==> HEADER_SIZE < t.consumed <= |avail|
  {
    if |avail| < HEADER_SIZE then Stop(Session([], false, s))
    else
      var n := DecodeBE(avail[..HEADER_SIZE]);
      if n == 0 then Stop(Session([], false, s))
      else if n >= RECV_LIMIT then Stop(Session([], true, s))
      else if |avail| - HEADER_SIZE < n then Stop(Session([], false, s))
      else
        var h := handle(s, avail[HEADER_SIZE..HEADER_SIZE + n]);
        if h.Crash? then Stop(Session([], true, s))
        else if TooLong(h.text) then Stop(Session([], true, h.next))
        else if !writable then Stop(Session([], false, h.next))
        else Go(h.text, h.next, HEADER_SIZE + n)
  }

  /** A session that follows the replies already sent. */
  function Continue<S>(sent: seq<string>, r: Session<S>): Session<S> {
    Session(sent + r.replies, r.crashed, r.last)
  }

  /** Nothing sent yet: the session is all still to come. */
  lemma ContinueNothing<S>(r: Session<S>)
    ensures Continue([], r) == r
  {
    assert [] + r.replies == r.replies;
  }

  /**
    The connection as a function of the bytes the client sends: one reply per
    framed request, in order, up to the first incomplete or empty request. A
    peer that does not take writes gets nothing, and the loop stops at the
    first reply.
  */
  function Served<S>(avail: seq<uint8>, s: S, writable: bool, handle: (S, seq<uint8>) -> Handled<S>): (r: Session<S>)
    decreases |avail|
  {
    match TakeTurn(avail, s, writable, handle)
    case Stop(r) => r
    case Go(reply, next, k) => Continue([reply], Served(avail[k..], next, writable, handle))
  }

  /** A framed request is answered before anything that follows it is read. */
  lemma ServedFrame<S>(payload: seq<uint8>, rest: seq<uint8>, s: S, handle: (S, seq<uint8>) -> Handled<S>)
    requires 0 < |payload| < TWO_TO_THE_64
    ensures var r := Served(Frame(payload) + rest, s, true, handle);
      var h := handle(s, payload);
      && (|payload| >= RECV_LIMIT ==> r == Session([], true, s))
      && (|payload| < RECV_LIMIT && h.Crash? ==> r == Session([], true, s))
      && (|payload| < RECV_LIMIT && h.Reply? && TooLong(h.text) ==> r == Session([], true, h.next))
      && (|payload| < RECV_LIMIT && h.Reply? && !TooLong(h.text) ==> r == Continue([h.text], Served(rest, h.next, true, handle)))
  {
    var avail := Frame(payload) + rest;
    assert avail[..HEADER_SIZE] == Header(|payload|);
    assert avail[HEADER_SIZE..HEADER_SIZE + |payload|] == payload;
    assert avail[HEADER_SIZE + |payload|..] == rest;
  }

  /** A client's requests, each framed, back to back. */
  function Requests(payloads: seq<seq<uint8>>): seq<uint8>
    requires forall i :: 0 <= i < |payloads| ==> |payloads[i]| < TWO_TO_THE_64
  {
    if payloads == [] then [] else Frame(payloads[0]) + Requests(payloads[1..])
  }

  /**
    The conversation a server means to have: each request handled in turn,
    threading the state, until an exception escapes: from `recvall` for a
    request of `RECV_LIMIT` bytes or more, from the handler, or from
    `struct.pack` for a reply too long to frame.
  */
  function Conversation<S>(payloads: seq<seq<uint8>>, s: S, handle: (S, seq<uint8>) -> Handled<S>): (r: Session<S>)
    ensures |r.replies| <= |payloads|
    ensures !r.crashed ==> |r.replies| == |payloads|
  {
    if payloads == [] then Session([], false, s)
    else if |payloads[0]| >= RECV_LIMIT then Session([], true, s)
    else
      var h := handle(s, payloads[0]);
      if h.Crash? then Session([], true, s)
      else if TooLong(h.text) then Session([], true, h.next)
      else Continue([h.text], Conversation(payloads[1..], h.next, handle))
  }

  /**
    Read off the byte stream, a connection whose client sends well-framed,
    non-empty requests and then stops is exactly that conversation.
  */
  lemma {:induction false} ServedRequests<S>(payloads: seq<seq<uint8>>, s: S, handle: (S, seq<uint8>) -> Handled<S>)
    requires forall i :: 0 <= i < |payloads| ==> 0 < |payloads[i]| < TWO_TO_THE_64
    ensures Served(Requests(payloads), s, true, handle) == Conversation(payloads, s, handle)
  {
    if payloads != [] {
      var h := handle(s, payloads[0]);
      ServedFrame(payloads[0], Requests(payloads[1..]), s, handle);
      if |payloads[0]| < RECV_LIMIT && h.Reply? && !TooLong(h.text) {
        ServedRequests(payloads[1..], h.next, handle);
      }
    }
  }

  /** A header announcing `RECV_LIMIT` bytes or more ends the connection in `OverflowError`, whatever follows it. */
  lemma OversizedHeaderCrashes<S>(n: nat, rest: seq<uint8>, s: S, writable: bool, handle: (S, seq<uint8>) -> Handled<S>)
    requires RECV_LIMIT <= n < TWO_TO_THE_64
    ensures Served(Header(n) + rest, s, writable, handle) == Session([], true, s)
  {
    assert (Header(n) + rest)[..HEADER_SIZE] == Header(n);
  }

  /** ... and so does it end the server: no later client is accepted. */
  lemma OversizedHeaderStopsServer<S>(n: nat, rest: seq<uint8>, listens: bool, later: seq<Client>, s: S,
                                      handle: (S, seq<uint8>) -> Handled<S>)
    requires RECV_LIMIT <= n < TWO_TO_THE_64
    ensures Lifetime([Client(Header(n) + rest, listens)] + later, s, handle) == [Session([], true, s)]
  {
    OversizedHeaderCrashes(n, rest, s, listens, handle);
  }

  /** Eight 0xFF bytes announce 2^64 - 1 bytes: the server dies on such a header. */
  lemma AllOnesHeaderStopsServer<S>(rest: seq<uint8>, listens: bool, later: seq<Client>, s: S,
                                    handle: (S, seq<uint8>) -> Handled<S>)
    ensures var ones: seq<uint8> := [0xFF, 0xFF, 0xFF, 0xFF, 0xFF, 0xFF, 0xFF, 0xFF];
      Lifetime([Client(ones + rest, listens)] + later, s, handle) == [Session([], true, s)]
  {
    var ones: seq<uint8> := [0xFF, 0xFF, 0xFF, 0xFF, 0xFF, 0xFF, 0xFF, 0xFF];
    assert ones == Header(0xFFFF_FFFF_FFFF_FFFF) by {
      EncodeDecode(ones);
    }
    OversizedHeaderStopsServer(0xFFFF_FFFF_FFFF_FFFF, rest, listens, later, s, handle);
  }

  /**
    The connection loop of ocr_server.py and server.py, closing the connection
    in the `finally` clause whatever ends the loop.
  */
  method Serve<S>(conn: Socket, s0: S, handle: (S, seq<uint8>) -> Handled<S>) returns (crashed: bool, s: S)
    requires WellFormed(conn.inbound)
    modifies conn
    ensures var r := Served(Avail(old(conn.inbound)), s0, old(conn.writable), handle);
      && conn.outbound == old(conn.outbound) + Framed(r.replies)
      && crashed == r.crashed && s == r.last
    ensures conn.closed && conn.writable == old(conn.writable)
  {
    crashed, s := Exchanges(conn, s0, handle);
    conn.Close();
  }

  /** The `while True` loop itself. */
  method Exchanges<S>(conn: Socket, s0: S, handle: (S, seq<uint8>) -> Handled<S>) returns (crashed: bool, s: S)
    requires WellFormed(conn.inbound)
    modifies conn`inbound, conn`outbound
    ensures var r := Served(Avail(old(conn.inbound)), s0, conn.writable, handle);
      conn.outbound == old(conn.outbound) + Framed(r.replies) && crashed == r.crashed && s == r.last
  {
    ghost var target := Served(Avail(conn.inbound), s0, conn.writable, handle);
    ghost var sent: seq<string> := [];
    ContinueNothing(target);
    s := s0;
    crashed := false;
    while true
      invariant WellFormed(conn.inbound)
      invariant conn.outbound == old(conn.outbound) + Framed(sent)
      invariant target == Continue(sent, Served(Avail(conn.inbound), s, conn.writable, handle))
      decreases |Avail(conn.inbound)|
    {
      var more, stopCrashed, next;
      more, stopCrashed, next, sent := Round(conn, s, handle, target, sent, old(conn.outbound));
      s := next;
      if !more {
        crashed := stopCrashed;
        break;
      }
    }
  }

  /** One pass of the loop body, stated in terms of the session the loop is producing. */
  method Round<S>(conn: Socket, s: S, handle: (S, seq<uint8>) -> Handled<S>, ghost target: Session<S>, ghost sent: seq<string>, ghost base: seq<uint8>)
    returns (more: bool, crashed: bool, next: S, ghost sent': seq<string>)
    requires WellFormed(conn.inbound)
    requires target == Continue(sent, Served(Avail(conn.inbound), s, conn.writable, handle))
    requires conn.outbound == base + Framed(sent)
    modifies conn`inbound, conn`outbound
    ensures WellFormed(conn.inbound)
    ensures conn.outbound == base + Framed(sent')
    ensures more ==> && |Avail(conn.inbound)| < |Avail(old(conn.inbound))|
                     && target == Continue(sent', Served(Avail(conn.inbound), next, conn.writable, handle))
    ensures !more ==> target == Session(sent', crashed, next)
  {
    ghost var rest := Avail(conn.inbound);
    ghost var t;
    more, crashed, next, t := Exchange(conn, s, handle);
    if more {
      sent' := sent + [t.reply];
      Advance(target, sent, rest, s, conn.writable, handle, t);
      SentStep(base, sent, t.reply, old(conn.outbound), conn.outbound);
    } else {
      sent' := sent;
      Finish(target, sent, rest, s, conn.writable, handle, t);
    }
  }

  /** The loop goes on: what is left is the reply, then the rest of the session. */
  lemma Advance<S>(target: Session<S>, sent: seq<string>, rest: seq<uint8>, s: S, w: bool, handle: (S, seq<uint8>) -> Handled<S>,
                   t: Turn<S>)
    requires target == Continue(sent, Served(rest, s, w, handle))
    requires t == TakeTurn(rest, s, w, handle) && t.Go?
    ensures |rest[t.consumed..]| < |rest|
    ensures target == Continue(sent + [t.reply], Served(rest[t.consumed..], t.next, w, handle))
  {
    var more := Served(rest[t.consumed..], t.next, w, handle);
    assert sent + ([t.reply] + more.replies) == (sent + [t.reply]) + more.replies;
  }

  /** The loop stops: the session is what has been sent. */
  lemma Finish<S>(target: Session<S>, sent: seq<string>, rest: seq<uint8>, s: S, w: bool, handle: (S, seq<uint8>) -> Handled<S>,
                  t: Turn<S>)
    requires target == Continue(sent, Served(rest, s, w, handle))
    requires t == TakeTurn(rest, s, w, handle) && t.Stop? && t.session.replies == []
    ensures target == Session(sent, t.session.crashed, t.session.last)
  {
    assert sent + [] == sent;
  }

  /**
    One turn of the loop: read a request, handle it, send the reply. `more`
    says whether the loop goes on; `reply` is what was sent.
  */
  method Exchange<S>(conn: Socket, s: S, handle: (S, seq<uint8>) -> Handled<S>)
    returns (more: bool, crashed: bool, next: S, ghost t: Turn<S>)
    requires WellFormed(conn.inbound)
    modifies conn`inbound, conn`outbound
    ensures WellFormed(conn.inbound)
    ensures t == TakeTurn(Avail(old(conn.inbound)), s, conn.writable, handle)
    ensures more ==> && t.Go? && t.next == next
                     && Avail(conn.inbound) == Avail(old(conn.inbound))[t.consumed..]
                     && conn.outbound == old(conn.outbound) + FrameOf(t.reply)
    ensures !more ==> t == Stop(Session([], crashed, next)) && conn.outbound == old(conn.outbound)
    ensures var a := Avail(old(conn.inbound));
      |a| >= HEADER_SIZE && DecodeBE(a[..HEADER_SIZE]) >= RECV_LIMIT ==> !more && crashed && next == s
  {
    t := TakeTurn(Avail(conn.inbound), s, conn.writable, handle);
    next := s;
    more, crashed := false, false;
    var request := ReadRequest(conn);
    if request.Overflow? {
      crashed := true;
      return;
    }
    if request.Ended? {
      return;
    }
    var handled := handle(s, request.bytes);
    if handled.Crash? {
      crashed := true;
      return;
    }
    next := handled.next;
    var bytes := Utf8.Encode(handled.text);
    Utf8.EncodeLength(handled.text);
    if |bytes| >= TWO_TO_THE_64 {
      crashed := true;
      return;
    }
    more := SendReply(conn, bytes);
  }

  /** What the two `recvall` calls of one request come to. */
  datatype Request = Payload(bytes: seq<uint8>) | Ended | Overflow

  /**
    The two `recvall` calls of one request: the payload; `Ended` when the header
    or the payload is missing or the payload is empty; `Overflow` when the header
    announces `RECV_LIMIT` bytes or more.
  */
  method ReadRequest(conn: Socket) returns (request: Request)
    requires WellFormed(conn.inbound)
    modifies conn`inbound
    ensures WellFormed(conn.inbound)
    ensures var a := Avail(old(conn.inbound));
      request.Overflow? <==> |a| >= HEADER_SIZE && DecodeBE(a[..HEADER_SIZE]) >= RECV_LIMIT
    ensures var a := Avail(old(conn.inbound));
      request.Ended? <==>
        || |a| < HEADER_SIZE
        || DecodeBE(a[..HEADER_SIZE]) == 0
        || (DecodeBE(a[..HEADER_SIZE]) < RECV_LIMIT && |a| - HEADER_SIZE < DecodeBE(a[..HEADER_SIZE]))
    ensures var a := Avail(old(conn.inbound));
      request.Payload? ==>
        var n := DecodeBE(a[..HEADER_SIZE]);
        && request.bytes == a[HEADER_SIZE..HEADER_SIZE + n]
        && Avail(conn.inbound) == a[HEADER_SIZE + n..]
  {
    ghost var before := conn.inbound;
    var header := conn.RecvAll(HEADER_SIZE);
    if !header.Full? {
      return Ended;
    }
    AvailAfterRead(before, HEADER_SIZE);
    var n := DecodeBE(header.bytes);
    if n >= RECV_LIMIT {
      return Overflow;
    }
    ghost var middle := conn.inbound;
    var body := conn.RecvAll(n);
    if !body.Full? || body.bytes == [] {
      return Ended;
    }
    AvailAfterRead(middle, n);
    assert Avail(before)[HEADER_SIZE..HEADER_SIZE + n] == body.bytes;
    request := Payload(body.bytes);
  }

  /** The two `sendall` calls of one reply: header and body, or nothing once writes fail. */
  method SendReply(conn: Socket, bytes: seq<uint8>) returns (ok: bool)
    requires |bytes| < TWO_TO_THE_64
    modifies conn`outbound
    ensures ok == conn.writable
    ensures conn.outbound == old(conn.outbound) + if ok then Frame(bytes) else []
  {
    var header := Header(|bytes|);
    assert Frame(bytes) == header + bytes;
    ok := conn.Send(header);
    if ok {
      ok := conn.Send(bytes);
    }
  }

  // ------------------------------------------------------------ accept loop

  /** A client as the server meets it: the bytes it sends, and whether it takes replies. */
  datatype Client = Client(sends: seq<uint8>, listens: bool)

  /**
    The `while True: accept()` loop over the clients that connect, in order:
    each connection starts from the state the previous one left, and an
    exception that escapes a connection ends the server after that connection
    is closed. Only the last session can have crashed, and the server stops
    early only because of a crash.
  */
  function Lifetime<S>(clients: seq<Client>, s: S, handle: (S, seq<uint8>) -> Handled<S>): (sessions: seq<Session<S>>)
    ensures |sessions| <= |clients|
    ensures sessions == [] <==> clients == []
  {
    if clients == [] then []
    else
      var r := Served(clients[0].sends, s, clients[0].listens, handle);
      [r] + (if r.crashed then [] else Lifetime(clients[1..], r.last, handle))
  }

  /** Every client is accepted unless one before it crashed the server, and only the last session can crash. */
  lemma {:induction false} LifetimeShape<S>(clients: seq<Client>, s: S, handle: (S, seq<uint8>) -> Handled<S>)
    ensures var sessions := Lifetime(clients, s, handle);
      && (forall k :: 0 <= k < |sessions| - 1 ==> !sessions[k].crashed)
      && (|sessions| < |clients| ==> |sessions| > 0 && sessions[|sessions| - 1].crashed)
  {
    if clients != [] {
      var r := Served(clients[0].sends, s, clients[0].listens, handle);
      if !r.crashed {
        var more := Lifetime(clients[1..], r.last, handle);
        LifetimeShape(clients[1..], r.last, handle);
        var sessions := [r] + more;
        assert Lifetime(clients, s, handle) == sessions;
        assert forall k :: 1 <= k < |sessions| ==> sessions[k] == more[k - 1];
        if more != [] {
          assert sessions[|sessions| - 1] == more[|more| - 1];
        }
      }
    }
  }

  /** The server's state is whatever the last connection left behind. */
  function LastState<S>(sessions: seq<Session<S>>, s0: S): S {
    if sessions == [] then s0 else sessions[|sessions| - 1].last
  }

  /** A connection just accepted from `client`: nothing sent on it yet, and still open. */
  predicate Accepted(conn: Socket, client: Client)
    reads conn
  {
    && WellFormed(conn.inbound) && client == Client(Avail(conn.inbound), conn.writable)
    && conn.outbound == [] && !conn.closed
  }

  /** A connection the server is done with: closed, after sending the session's replies. */
  predicate Finished<S>(conn: Socket, r: Session<S>)
    reads conn
  {
    conn.closed && conn.outbound == Framed(r.replies)
  }

  /**
    The accept loop: `conns[i]` is the i-th connection accepted and `clients[i]`
    what its peer does. Every connection the loop reaches is served and closed;
    the ones after a crash are never served.
  */
  method AcceptLoop<S>(conns: seq<Socket>, ghost clients: seq<Client>, s0: S, handle: (S, seq<uint8>) -> Handled<S>)
    returns (accepted: nat, crashed: bool, s: S)
    requires |clients| == |conns|
    requires forall i, j :: 0 <= i < |conns| && 0 <= j < |conns| && i != j ==> conns[i] != conns[j]
    requires forall i :: 0 <= i < |conns| ==> Accepted(conns[i], clients[i])
    modifies conns
    ensures var sessions := Lifetime(clients, s0, handle);
      && accepted == |sessions|
      && crashed == (accepted > 0 && sessions[accepted - 1].crashed)
      && s == LastState(sessions, s0)
      && (forall i :: 0 <= i < accepted ==> Finished(conns[i], sessions[i]))
      && (forall i :: accepted <= i < |conns| ==> Accepted(conns[i], clients[i]))
  {
    ghost var target := Lifetime(clients, s0, handle);
    accepted, crashed, s := AcceptRun(conns, clients, s0, handle, target);
    LifetimeShape(clients, s0, handle);
    if !crashed {
      assert clients[accepted..] == [];
    }
  }

  /** The loop itself, producing the sessions of `target` one connection at a time. */
  method AcceptRun<S>(conns: seq<Socket>, ghost clients: seq<Client>, s0: S, handle: (S, seq<uint8>) -> Handled<S>,
                      ghost target: seq<Session<S>>)
    returns (accepted: nat, crashed: bool, s: S)
    requires |clients| == |conns|
    requires forall i, j :: 0 <= i < |conns| && 0 <= j < |conns| && i != j ==> conns[i] != conns[j]
    requires forall i :: 0 <= i < |conns| ==> Accepted(conns[i], clients[i])
    requires target == Lifetime(clients, s0, handle)
    modifies conns
    ensures accepted <= |conns| && accepted <= |target|
    ensures !crashed ==> accepted == |conns| && target[accepted..] == Lifetime(clients[accepted..], s, handle)
    ensures crashed ==> accepted == |target|
    ensures s == if accepted == 0 then s0 else target[accepted - 1].last
    ensures crashed == (accepted > 0 && target[accepted - 1].crashed)
    ensures forall k :: 0 <= k < accepted ==> Finished(conns[k], target[k])
    ensures forall k :: accepted <= k < |conns| ==> Accepted(conns[k], clients[k])
  {
    s, accepted, crashed := s0, 0, false;
    while accepted < |conns| && !crashed
      invariant accepted <= |conns| && accepted <= |target|
      invariant !crashed ==> target[accepted..] == Lifetime(clients[accepted..], s, handle)
      invariant crashed ==> accepted == |target|
      invariant s == if accepted == 0 then s0 else target[accepted - 1].last
      invariant crashed == (accepted > 0 && target[accepted - 1].crashed)
      invariant forall k :: 0 <= k < accepted ==> Finished(conns[k], target[k])
      invariant forall k :: accepted <= k < |conns| ==> Accepted(conns[k], clients[k])
    {
      crashed, s := AcceptOne(conns, clients, accepted, s, handle, target);
      accepted := accepted + 1;
    }
  }

  /** One pass of the accept loop: serve connection `i`, the i-th session of `target`. */
  method AcceptOne<S>(conns: seq<Socket>, ghost clients: seq<Client>, i: nat, s: S, handle: (S, seq<uint8>) -> Handled<S>,
                      ghost target: seq<Session<S>>)
    returns (crashed: bool, s': S)
    requires i < |conns| == |clients|
    requires forall k :: 0 <= k < |conns| && k != i ==> conns[k] != conns[i]
    requires i <= |target| && target[i..] == Lifetime(clients[i..], s, handle)
    requires forall k :: 0 <= k < i ==> Finished(conns[k], target[k])
    requires forall k :: i <= k < |conns| ==> Accepted(conns[k], clients[k])
    modifies conns[i]
    ensures i < |target| && target[i].crashed == crashed && target[i].last == s'
    ensures !crashed ==> target[i + 1..] == Lifetime(clients[i + 1..], s', handle)
    ensures crashed ==> |target| == i + 1
    ensures forall k :: 0 <= k < i + 1 ==> Finished(conns[k], target[k])
    ensures forall k :: i + 1 <= k < |conns| ==> Accepted(conns[k], clients[k])
  {
    AcceptStep(target, clients, i, s, handle);
    crashed, s' := Serve(conns[i], s, handle);
  }

  /** Serving client i: its session is the i-th, and the rest follow from the state it leaves. */
  lemma AcceptStep<S>(target: seq<Session<S>>, clients: seq<Client>, i: nat, s: S, handle: (S, seq<uint8>) -> Handled<S>)
    requires i < |clients| && i <= |target|
    requires target[i..] == Lifetime(clients[i..], s, handle)
    ensures var r := Served(clients[i].sends, s, clients[i].listens, handle);
      && i < |target| && target[i] == r
      && (!r.crashed ==> target[i + 1..] == Lifetime(clients[i + 1..], r.last, handle))
      && (r.crashed ==> |target| == i + 1)
  {
    assert clients[i..][1..] == clients[i + 1..];
    assert target[i..][1..] == target[i + 1..];
  }
}
