/**
 * The connection's state and what each operation does to it, as values. The
 * imperative classes in module Obd2 are proved to follow these functions; the
 * lemmas here state the ordering, "nothing else changes" and idempotence
 * properties of the connection.
 */
module ConnectionSpec {
  import opened Wrappers
  import opened Ascii
  import opened Escape
  import opened Elm327Init

  /** The serial port: open or not, bytes received but not yet read, and every byte written. */
  datatype Port = Port(open: bool, pending: seq<byte>, written: seq<byte>)

  /**
   * The connection's fields: the `isConnected` flag and the two unlimited
   * channels, each a queue with its closed-for-send flag.
   */
  datatype Connection = Connection(
    connected: bool,
    requests: seq<string>, requestsClosed: bool,
    responses: seq<string>, responsesClosed: bool,
    port: Port)

  /** A connection object as constructed over `port`. */
  function Initial(port: Port): (c: Connection)
    ensures !c.connected && c.requests == [] && c.responses == []
    ensures !c.requestsClosed && !c.responsesClosed && c.port == port
  {
    Connection(false, [], false, [], false, port)
  }

  // ---------------------------------------------------------------------------
  // The port side: framing a request, reading a response, the adapter's bytes.
  // ---------------------------------------------------------------------------

  /** The bytes written for a request: its US-ASCII encoding and one carriage return. */
  function Frame(request: string): (bs: seq<byte>)
    ensures bs == Encode(request) + [CR]
    ensures |bs| == |request| + 1 && bs[|request|] == CR
  {
    EncodeAppend(request, "\r");
    Encode(request + "\r")
  }

  /** The frames of several requests, one after the other. */
  function Frames(rs: seq<string>): seq<byte> {
    if rs == [] then [] else Frame(rs[0]) + Frames(rs[1..])
  }

  lemma {:induction false} FramesAppend(a: seq<string>, b: seq<string>)
    ensures Frames(a + b) == Frames(a) + Frames(b)
  {
    if a == [] {
      assert a + b == b;
    } else {
      assert (a + b)[1..] == a[1..] + b;
      FramesAppend(a[1..], b);
    }
  }

  /** Appending one more request to those written extends the log by its frame. */
  lemma FramesSnoc(log: seq<byte>, rs: seq<string>, r: string)
    ensures log + Frames(rs + [r]) == (log + Frames(rs)) + Frame(r)
  {
    FramesAppend(rs, [r]);
    assert Frames([r]) == Frame(r) + Frames([]);
  }

  /** `writeRequest`: the frame goes to the end of the write log; nothing else changes. */
  function WriteRequest(p: Port, request: string): (q: Port)
    ensures q.written == p.written + Encode(request) + [CR]
    ensures q.open == p.open && q.pending == p.pending
  {
    p.(written := p.written + Frame(request))
  }

  /**
   * `readResponse`: when bytes are pending, all of them are consumed and the
   * rendered text is returned; otherwise nothing is returned and nothing changes.
   */
  function ReadResponse(p: Port): (r: (Option<string>, Port))
    ensures |p.pending| > 0 ==> r.0 == Some(MakeVisible(Decode(p.pending))) && r.1 == p.(pending := [])
    ensures |p.pending| == 0 ==> r == (None, p)
  {
    if |p.pending| > 0 then
      (Some(MakeVisible(Decode(p.pending))), p.(pending := []))
    else (None, p)
  }

  /** The adapter sends `bytes`: they wait in the port until read. */
  function Arrive(p: Port, bytes: seq<byte>): (q: Port)
    ensures q.pending == p.pending + bytes
    ensures q.open == p.open && q.written == p.written
  {
    p.(pending := p.pending + bytes)
  }

  // ---------------------------------------------------------------------------
  // connect and the handshake.
  // ---------------------------------------------------------------------------

  /**
   * The bytes each handshake step finds: what was pending when the port was
   * opened (first step only), then the adapter's reply to that step, which
   * arrives during the step's settle delay.
   */
  function Arrivals(pending: seq<byte>, replies: seq<seq<byte>>): (inbound: seq<seq<byte>>)
    ensures |inbound| == |InitSteps|
    ensures inbound[0] == pending + Available(replies, 0)
    ensures forall i :: 1 <= i < |InitSteps| ==> inbound[i] == Available(replies, i)
  {
    seq(|InitSteps|, i requires 0 <= i < |InitSteps| => (if i == 0 then pending else []) + Available(replies, i))
  }

  /**
   * `connect`. `openOk` is what `openPort` reports; `configFault` says that
   * configuring the opened port throws, which the catch block answers by
   * closing the port; `replies[i]` is what the adapter sends after command `i`.
   */
  function Connect(c: Connection, openOk: bool, configFault: bool, replies: seq<seq<byte>>): (r: (bool, Connection))
    ensures !openOk ==> r == (false, c)
    ensures openOk && configFault ==> r == (false, c.(port := c.port.(open := false)))
    ensures r.0 <==> openOk && !configFault && Handshake(Arrivals(c.port.pending, replies)).ok
    ensures r.1.connected == (c.connected || r.0)
    ensures r.1.requests == c.requests && r.1.responses == c.responses
    ensures r.1.requestsClosed == c.requestsClosed && r.1.responsesClosed == c.responsesClosed
    ensures openOk && !configFault ==>
      var h := Handshake(Arrivals(c.port.pending, replies));
      r.1.port == Port(true, [], c.port.written + Frames(h.sent))
  {
    if !openOk then (false, c)
    else if configFault then (false, c.(port := c.port.(open := false)))
    else
      var h := Handshake(Arrivals(c.port.pending, replies));
      var port := Port(true, [], c.port.written + Frames(h.sent));
      if h.ok then (true, c.(connected := true, port := port)) else (false, c.(port := port))
  }

  // ---------------------------------------------------------------------------
  // One iteration of the communication loop.
  // ---------------------------------------------------------------------------

  datatype StepOutcome =
    | Exited              // `isConnected` is false: the loop has ended
    | Wrote(request: string)
    | Received(response: string)
    | Idle                // no request queued and no bytes pending
    | Failed              // a closed channel made the iteration throw

  /**
   * `select` read sequentially: a queued request is taken first; otherwise the
   * port is polled. Receiving from a closed, drained request channel throws, and
   * so does sending a response into a closed response channel (after the bytes
   * have been read).
   */
  function Step(c: Connection): (r: (Connection, StepOutcome))
    ensures r.1 == Exited <==> !c.connected
    ensures r.1.Wrote? <==> c.connected && |c.requests| > 0
    ensures r.0.connected == c.connected && r.0.port.open == c.port.open
    ensures r.0.requestsClosed == c.requestsClosed && r.0.responsesClosed == c.responsesClosed
    ensures r.1.Received? ==> r.0.responses == c.responses + [r.1.response]
    ensures !r.1.Received? ==> r.0.responses == c.responses
  {
    if !c.connected then (c, Exited)
    else if |c.requests| > 0 then
      (c.(requests := c.requests[1..], port := WriteRequest(c.port, c.requests[0])), Wrote(c.requests[0]))
    else if c.requestsClosed then (c, Failed)
    else
      var (response, port) := ReadResponse(c.port);
      match response
      case None => (c, Idle)
      case Some(text) =>
        if c.responsesClosed then (c.(port := port), Failed)
        else (c.(responses := c.responses + [text], port := port), Received(text))
  }

  /** `n` iterations of the loop. */
  function Steps(c: Connection, n: nat): (d: Connection)
    ensures d.connected == c.connected && d.port.open == c.port.open
    ensures d.requestsClosed == c.requestsClosed && d.responsesClosed == c.responsesClosed
    ensures |d.responses| >= |c.responses| && d.responses[..|c.responses|] == c.responses
    decreases n
  {
    if n == 0 then c else Steps(Step(c).0, n - 1)
  }

  /** A step with a queued request writes exactly that request and touches nothing else. */
  lemma StepWritesHead(c: Connection)
    requires c.connected && |c.requests| > 0
    ensures Step(c).1 == Wrote(c.requests[0])
    ensures Step(c).0 == c.(requests := c.requests[1..],
                            port := c.port.(written := c.port.written + Encode(c.requests[0]) + [CR]))
  {
  }

  /** A step with no queued request and pending bytes turns all of them into one response entry. */
  lemma StepReceives(c: Connection)
    requires c.connected && c.requests == [] && !c.requestsClosed && !c.responsesClosed
    requires |c.port.pending| > 0
    ensures Step(c).1 == Received(MakeVisible(Decode(c.port.pending)))
    ensures Step(c).0 == c.(responses := c.responses + [MakeVisible(Decode(c.port.pending))],
                            port := c.port.(pending := []))
  {
  }

  /** A step with nothing queued and nothing pending changes nothing. */
  lemma StepIdle(c: Connection)
    requires c.connected && c.requests == [] && !c.requestsClosed && c.port.pending == []
    ensures Step(c) == (c, Idle)
  {
  }

  /** Every queued response is rendered text: it holds no code point from 0x00 to 0x1F. */
  predicate ResponsesVisible(c: Connection) {
    forall i :: 0 <= i < |c.responses| ==> NoControl(c.responses[i])
  }

  /** A loop step only ever queues rendered text, so it keeps the response queue visible. */
  lemma StepKeepsResponsesVisible(c: Connection)
    requires ResponsesVisible(c)
    ensures ResponsesVisible(Step(c).0)
    ensures Step(c).1.Received? ==> NoControl(Step(c).1.response)
  {
    if c.connected && c.requests == [] && !c.requestsClosed && |c.port.pending| > 0 {
      MakeVisibleNoControl(Decode(c.port.pending));
    }
  }

  /**
   * Draining: `n` steps over a queue of at least `n` requests write the first
   * `n` of them, in queue order, and leave the response side and the pending
   * bytes alone.
   */
  lemma {:induction false} DrainInOrder(c: Connection, n: nat)
    requires c.connected && n <= |c.requests|
    ensures Steps(c, n) == c.(requests := c.requests[n..],
                              port := c.port.(written := c.port.written + Frames(c.requests[..n])))
    decreases n
  {
    if n == 0 {
      assert c.requests[..0] == [];
      assert c.requests[0..] == c.requests;
    } else {
      var d := Step(c).0;
      DrainInOrder(d, n - 1);
      assert d.requests[n - 1..] == c.requests[n..];
      assert c.requests[..n] == [c.requests[0]] + d.requests[..n - 1];
      assert Frames(c.requests[..n]) == Frame(c.requests[0]) + Frames(d.requests[..n - 1]);
    }
  }

  // ---------------------------------------------------------------------------
  // The public queue API and closeConnection.
  // ---------------------------------------------------------------------------

  /** `trySend`: enqueue at the tail while the request channel is open. */
  function TrySend(c: Connection, request: string): (r: (bool, Connection))
    ensures r.0 <==> !c.requestsClosed
    ensures r.0 ==> r.1 == c.(requests := c.requests + [request])
    ensures !r.0 ==> r.1 == c
  {
    if c.requestsClosed then (false, c) else (true, c.(requests := c.requests + [request]))
  }

  /**
   * `tryGetResponse`: the head of the response queue, or nothing when it is
   * empty. Closing a channel only stops senders, so buffered responses can
   * still be taken after `closeConnection`.
   */
  function TryGetResponse(c: Connection): (r: (Option<string>, Connection))
    ensures |c.responses| > 0 ==> r == (Some(c.responses[0]), c.(responses := c.responses[1..]))
    ensures c.responses == [] ==> r == (None, c)
  {
    if |c.responses| > 0 then (Some(c.responses[0]), c.(responses := c.responses[1..])) else (None, c)
  }

  /** `closeConnection`: disconnected, both channels closed, port closed; queue contents kept. */
  function Close(c: Connection): (d: Connection)
    ensures !d.connected && d.requestsClosed && d.responsesClosed && !d.port.open
    ensures d.requests == c.requests && d.responses == c.responses
    ensures d.port.pending == c.port.pending && d.port.written == c.port.written
  {
    c.(connected := false, requestsClosed := true, responsesClosed := true, port := c.port.(open := false))
  }

  lemma CloseIdempotent(c: Connection)
    ensures Close(Close(c)) == Close(c)
  {
  }

  /** After closing, `trySend` fails and changes nothing, and the loop has ended. */
  lemma ClosedRejects(c: Connection, request: string)
    ensures TrySend(Close(c), request) == (false, Close(c))
    ensures Step(Close(c)) == (Close(c), Exited)
  {
  }

  /** Several `trySend` calls in a row. */
  function SendAll(c: Connection, rs: seq<string>): Connection
    decreases |rs|
  {
    if rs == [] then c else SendAll(TrySend(c, rs[0]).1, rs[1..])
  }

  /** Sends on an open channel queue the requests at the tail, in the order sent. */
  lemma {:induction false} SendAllEnqueues(c: Connection, rs: seq<string>)
    requires !c.requestsClosed
    ensures SendAll(c, rs) == c.(requests := c.requests + rs)
    decreases |rs|
  {
    if rs == [] {
      assert c.requests + rs == c.requests;
    } else {
      SendAllEnqueues(TrySend(c, rs[0]).1, rs[1..]);
      assert c.requests + [rs[0]] + rs[1..] == c.requests + rs;
    }
  }

  /**
   * FIFO end to end: requests sent while nothing else is queued reach the port
   * in the order they were sent, each followed by a carriage return.
   */
  lemma SentRequestsWrittenInOrder(c: Connection, rs: seq<string>)
    requires c.connected && !c.requestsClosed && c.requests == []
    ensures Steps(SendAll(c, rs), |rs|).port.written == c.port.written + Frames(rs)
    ensures Steps(SendAll(c, rs), |rs|).requests == []
    ensures Steps(SendAll(c, rs), |rs|).responses == c.responses
  {
    SendAllEnqueues(c, rs);
    var d := SendAll(c, rs);
    assert d.requests == rs;
    DrainInOrder(d, |rs|);
    assert rs[..|rs|] == rs;
  }

  /** `n` calls of `tryGetResponse`, returning what they took. */
  function TakeResponses(c: Connection, n: nat): (seq<Option<string>>, Connection)
    decreases n
  {
    if n == 0 then ([], c)
    else
      var (first, d) := TryGetResponse(c);
      var (more, e) := TakeResponses(d, n - 1);
      ([first] + more, e)
  }

  /** Responses are handed out in the order they were queued. */
  lemma {:induction false} TakeResponsesInOrder(c: Connection, n: nat)
    requires n <= |c.responses|
    ensures |TakeResponses(c, n).0| == n
    ensures forall i :: 0 <= i < n ==> TakeResponses(c, n).0[i] == Some(c.responses[i])
    ensures TakeResponses(c, n).1 == c.(responses := c.responses[n..])
    decreases n
  {
    if n == 0 {
      assert c.responses[0..] == c.responses;
    } else {
      var d := TryGetResponse(c).1;
      TakeResponsesInOrder(d, n - 1);
      assert d.responses[n - 1..] == c.responses[n..];
    }
  }

  // ---------------------------------------------------------------------------
  // The round trip: connect, request 0100, read the adapter's answer.
  // ---------------------------------------------------------------------------

  /** The well-behaved adapter brings a fresh connection up. */
  lemma ConnectWellBehaved(p: Port)
    requires p.pending == []
    ensures Connect(Initial(p), true, false, WellBehaved).0
    ensures Connect(Initial(p), true, false, WellBehaved).1
         == Initial(Port(true, [], p.written + Frames(["ATZ", "ATE0", "ATL0", "ATS0", "ATSP0"]))).(connected := true)
  {
    var inbound := Arrivals(p.pending, WellBehaved);
    assert inbound[0] == WellBehaved[0];
    assert forall i :: 0 <= i < |inbound| ==> inbound[i] == WellBehaved[i];
    assert inbound == WellBehaved;
    WellBehavedSucceeds();
  }

  /**
   * On a connected, idle connection: `trySend("0100")`, a loop step, the
   * adapter's reply `41 00 BE 3B B0 11\r\r>`, and another loop step; then
   * `tryGetResponse` yields the reply with its carriage returns rendered as `\r`.
   */
  lemma Exchange(c: Connection)
    requires c.connected && !c.requestsClosed && !c.responsesClosed
    requires c.requests == [] && c.responses == [] && c.port.pending == []
    ensures
      var c1 := TrySend(c, "0100").1;
      var c2 := Step(c1).0;
      var c3 := c2.(port := Arrive(c2.port, Encode(SampleReply)));
      var c4 := Step(c3).0;
      && Step(c1).1 == Wrote("0100")
      && c2.port.written == c.port.written + Encode("0100") + [CR]
      && TryGetResponse(c4).0 == Some(SampleText + ShownPrompt)
  {
    var c1 := TrySend(c, "0100").1;
    assert c1 == c.(requests := ["0100"]);
    StepWritesHead(c1);
    var c2 := Step(c1).0;
    var c3 := c2.(port := Arrive(c2.port, Encode(SampleReply)));
    assert c3.port.pending == Encode(SampleReply);
    assert IsAsciiText(SampleReply);
    DecodeEncode(SampleReply);
    MakeVisibleExample();
    StepReceives(c3);
  }

  /** The round trip from a freshly constructed connection over a quiet port. */
  lemma RoundTrip(p: Port)
    requires p.pending == []
    ensures
      var c := Connect(Initial(p), true, false, WellBehaved).1;
      var c1 := TrySend(c, "0100").1;
      var c2 := Step(c1).0;
      var c3 := c2.(port := Arrive(c2.port, Encode(SampleReply)));
      TryGetResponse(Step(c3).0).0 == Some(SampleText + ShownPrompt)
  {
    ConnectWellBehaved(p);
    Exchange(Connect(Initial(p), true, false, WellBehaved).1);
  }
}
