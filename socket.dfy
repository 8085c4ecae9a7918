/**
  A connected Unix stream socket seen from one end. What the peer will deliver is
  given in advance as a list of segments: each `recv` returns at most the rest of the
  current segment, so short reads happen exactly where the model says they do; a
  `Reset` segment makes the call fail (a negative return in C, an exception in Python,
  an `Err` in Rust); an exhausted list is the peer's orderly shutdown.
*/
module Sockets {
  import opened Common
  import opened Wire

  datatype Segment = Data(bytes: seq<uint8>) | Reset

  datatype RecvResult = Received(bytes: seq<uint8>) | Eof | Failed

  /** What reading exactly `n` bytes comes to. */
  datatype ReadResult = Full(bytes: seq<uint8>) | Closed | Broken

  /** Every data segment carries at least one byte (an empty read means end of stream). */
  predicate WellFormed(s: seq<Segment>) {
    forall k :: 0 <= k < |s| ==> s[k].Data? ==> |s[k].bytes| > 0
  }

  /** The bytes that can still be read before the stream ends or fails. */
  function Avail(s: seq<Segment>): seq<uint8> {
    if s == [] then []
    else match s[0]
      case Reset => []
      case Data(b) => b + Avail(s[1..])
  }

  /** The stream fails (rather than ends) once the available bytes are used up. */
  predicate Fails(s: seq<Segment>) {
    if s == [] then false
    else match s[0]
      case Reset => true
      case Data(_) => Fails(s[1..])
  }

  /** The outcome of reading exactly `n` bytes, however the segments split them. */
  function ReadExactly(s: seq<Segment>, n: nat): (r: ReadResult)
    ensures r.Full? ==> |r.bytes| == n
  {
    if |Avail(s)| >= n then Full(Avail(s)[..n])
    else if Fails(s) then Broken
    else Closed
  }

  /** The segments left after reading `n` bytes, or after the read hit the end or a failure. */
  function AfterRead(s: seq<Segment>, n: nat): seq<Segment> {
    if n == 0 || s == [] then s
    else match s[0]
      case Reset => s[1..]
      case Data(b) => if n < |b| then [Data(b[n..])] + s[1..] else AfterRead(s[1..], n - |b|)
  }

  /** Reading n bytes leaves exactly the bytes after the first n. */
  lemma {:induction false} AvailAfterRead(s: seq<Segment>, n: nat)
    requires n <= |Avail(s)|
    ensures Avail(AfterRead(s, n)) == Avail(s)[n..]
    ensures Fails(AfterRead(s, n)) == Fails(s)
  {
    if n > 0 && s != [] {
      match s[0]
      case Reset =>
      case Data(b) =>
        if n < |b| {
          var t := [Data(b[n..])] + s[1..];
          assert t[1..] == s[1..];
        } else {
          AvailAfterRead(s[1..], n - |b|);
        }
    }
  }

  class Socket {
    /** What the peer will still deliver. */
    var inbound: seq<Segment>
    /** Everything written to the socket so far. */
    var outbound: seq<uint8>
    /** False once writes fail (the peer has gone away). */
    var writable: bool
    var closed: bool

    constructor (inbound: seq<Segment>, writable: bool)
      requires WellFormed(inbound)
      ensures this.inbound == inbound && this.writable == writable
      ensures outbound == [] && !closed
    {
      this.inbound := inbound;
      this.writable := writable;
      outbound := [];
      closed := false;
    }

    /** `recv(fd, buf, max, 0)`: at most `max` bytes, from the current segment only. */
    method Recv(max: nat) returns (r: RecvResult)
      requires max > 0 && WellFormed(inbound)
      modifies this`inbound
      ensures WellFormed(inbound)
      ensures old(inbound) == [] ==> r == Eof && inbound == []
      ensures old(inbound) != [] && old(inbound)[0].Reset? ==>
        r == Failed && inbound == old(inbound)[1..]
      ensures old(inbound) != [] && old(inbound)[0].Data? ==>
        var b := old(inbound)[0].bytes;
        var t := if max < |b| then max else |b|;
        r == Received(b[..t]) && inbound == AfterRead(old(inbound), t)
    {
      if inbound == [] {
        r := Eof;
      } else if inbound[0].Reset? {
        r := Failed;
        inbound := inbound[1..];
      } else {
        var b := inbound[0].bytes;
        var t := if max < |b| then max else |b|;
        r := Received(b[..t]);
        if t < |b| {
          inbound := [Data(b[t..])] + inbound[1..];
        } else {
          inbound := inbound[1..];
        }
      }
    }

    /**
      `send`/`sendall`/`write_all` of a whole buffer: either all of it is written
      or the call fails and nothing is.
    */
    method Send(bytes: seq<uint8>) returns (ok: bool)
      modifies this`outbound
      ensures ok == writable
      ensures outbound == if ok then old(outbound) + bytes else old(outbound)
    {
      ok := writable;
      if ok {
        outbound := outbound + bytes;
      }
    }

    /** A frame written as two sends, the header and then the payload; a failed header write ends it. */
    method SendFrame(payload: seq<uint8>) returns (ok: bool)
      requires |payload| < TWO_TO_THE_64
      modifies this`outbound
      ensures ok == writable
      ensures outbound == old(outbound) + (if ok then Frame(payload) else [])
    {
      ghost var before := outbound;
      var header := Header(|payload|);
      ok := Send(header);
      if ok {
        var _ := Send(payload);
        assert (before + header) + payload == before + (header + payload);
      }
    }

    method Close()
      modifies this`closed
      ensures closed
    {
      closed := true;
    }

    /**
      `recvall(sock, n)` of ocr_server.py and server.py (the two are the same code),
      and the contract of tokio's `read_exact`: keep calling `recv` for what is
      missing until `n` bytes are in; an empty `recv` gives up (`None`), a failing
      one propagates.
    */
    method RecvAll(n: nat) returns (r: ReadResult)
      requires WellFormed(inbound)
      modifies this`inbound
      ensures WellFormed(inbound)
      ensures r == ReadExactly(old(inbound), n)
      ensures inbound == AfterRead(old(inbound), n)
    {
      ghost var orig := inbound;
      var data: seq<uint8> := [];
      while |data| < n
        invariant WellFormed(inbound) && |data| <= n
        invariant ReadSoFar(orig, n, data, inbound)
        decreases n - |data|
      {
        var done;
        data, done, r := Pull(data, orig, n);
        if done {
          return;
        }
      }
      AvailAfterRead(orig, n);
      r := Full(data);
    }

    /**
      One `recv` of what is still missing. `done` when it came back empty or
      failed: the read is over and `r` is its outcome.
    */
    method Pull(data: seq<uint8>, ghost orig: seq<Segment>, n: nat) returns (data': seq<uint8>, done: bool, r: ReadResult)
      requires WellFormed(inbound) && |data| < n && ReadSoFar(orig, n, data, inbound)
      modifies this`inbound
      ensures WellFormed(inbound)
      ensures !done ==> |data| < |data'| <= n && ReadSoFar(orig, n, data', inbound)
      ensures done ==> r == ReadExactly(orig, n) && inbound == AfterRead(orig, n)
    {
      ghost var before := inbound;
      var m := n - |data|;
      var packet := Recv(m);
      data', done, r := data, true, Closed;
      if !packet.Received? {
        EndFacts(before, m);
        assert Avail(orig) == data;
        r := if packet.Eof? then Closed else Broken;
        return;
      }
      StepFacts(before, m);
      data', done := data + packet.bytes, false;
    }
  }

  /** Reading n bytes from `orig` has got `data` so far and left `s`. */
  predicate ReadSoFar(orig: seq<Segment>, n: nat, data: seq<uint8>, s: seq<Segment>)
    requires |data| <= n
  {
    && data + Avail(s) == Avail(orig)
    && Fails(s) == Fails(orig)
    && AfterRead(s, n - |data|) == AfterRead(orig, n)
  }

  /** At the end of the stream or at a failure nothing more can be read. */
  lemma EndFacts(s: seq<Segment>, m: nat)
    requires m > 0 && (s == [] || s[0].Reset?)
    ensures Avail(s) == [] && Fails(s) == (s != [])
    ensures AfterRead(s, m) == if s == [] then [] else s[1..]
  {
  }

  /**
    What one `recv` of at most m bytes does to the stream: it takes the first
    bytes of what is available, keeps the failure at the end, and is the first
    step of reading m bytes.
  */
  lemma StepFacts(s: seq<Segment>, m: nat)
    requires s != [] && s[0].Data? && m > 0 && WellFormed(s)
    ensures var b := s[0].bytes;
            var t := if m < |b| then m else |b|;
            var s' := AfterRead(s, t);
            && Avail(s) == b[..t] + Avail(s')
            && Fails(s') == Fails(s)
            && WellFormed(s')
            && AfterRead(s, m) == AfterRead(s', m - t)
  {
    var b := s[0].bytes;
    if m < |b| {
      var s' := [Data(b[m..])] + s[1..];
      assert s'[1..] == s[1..];
      assert b == b[..m] + b[m..];
    }
  }
}
