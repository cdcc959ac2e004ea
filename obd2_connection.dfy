/**
 * The connection object and the serial port it owns, as classes whose fields
 * the operations update in place. Each method is proved to do what the
 * matching function of module ConnectionSpec says.
 */
module Obd2 {
  import opened Wrappers
  import opened Ascii
  import opened Escape
  import opened Elm327Init
  import Spec = ConnectionSpec

  /** The serial port, reduced to what the connection observes of it. */
  class SerialPort {
    var isOpen: bool
    var pending: seq<byte>   // received, not yet read
    var written: seq<byte>   // everything written, in order

    constructor (pending: seq<byte>)
      ensures State() == Spec.Port(false, pending, [])
    {
      isOpen := false;
      this.pending := pending;
      written := [];
    }

    function State(): Spec.Port
      reads this
    {
      Spec.Port(isOpen, pending, written)
    }

    /** `openPort()`; whether the device can be opened is decided outside the model. */
    method OpenPort(succeeds: bool) returns (ok: bool)
      modifies this
      ensures ok == succeeds
      ensures State() == if succeeds then old(State()).(open := true) else old(State())
    {
      if succeeds {
        isOpen := true;
      }
      ok := succeeds;
    }

    method BytesAvailable() returns (n: nat)
      ensures n == |pending|
    {
      n := |pending|;
    }

    /** Reads `n` of the pending bytes, oldest first. */
    method ReadBytes(n: nat) returns (bytes: seq<byte>)
      requires n <= |pending|
      modifies this
      ensures bytes == old(pending)[..n]
      ensures State() == old(State()).(pending := old(pending)[n..])
    {
      bytes := pending[..n];
      pending := pending[n..];
    }

    method WriteBytes(bytes: seq<byte>)
      modifies this
      ensures State() == old(State()).(written := old(written) + bytes)
    {
      written := written + bytes;
    }

    method ClosePort()
      modifies this
      ensures State() == old(State()).(open := false)
    {
      isOpen := false;
    }

    /** The adapter sends `bytes`; they wait until read. */
    method Receive(bytes: seq<byte>)
      modifies this
      ensures State() == Spec.Arrive(old(State()), bytes)
    {
      pending := pending + bytes;
    }
  }

  /** An ELM327 adapter connection over one serial port. */
  class Obd2Connection {
    const port: SerialPort
    var isConnected: bool
    var requests: seq<string>       // the request channel's buffer, head first
    var requestsClosed: bool
    var responses: seq<string>      // the response channel's buffer, head first
    var responsesClosed: bool

    constructor (port: SerialPort)
      ensures this.port == port
      ensures Snapshot() == Spec.Initial(port.State())
    {
      this.port := port;
      isConnected := false;
      requests, requestsClosed := [], false;
      responses, responsesClosed := [], false;
    }

    /** The connection's whole state, port included, as a value. */
    function Snapshot(): Spec.Connection
      reads this, port
    {
      Spec.Connection(isConnected, requests, requestsClosed, responses, responsesClosed, port.State())
    }

    function IsConnected(): bool
      reads this
    {
      isConnected
    }

    /** `writeRequest`: send the request followed by one carriage return. */
    method WriteRequest(request: string)
      modifies port
      ensures port.State() == Spec.WriteRequest(old(port.State()), request)
    {
      var bytes := Encode(request + "\r");
      port.WriteBytes(bytes);
    }

    /** `readResponse`: take every pending byte, if there is any, and render it. */
    method ReadResponse() returns (response: Option<string>)
      modifies port
      ensures (response, port.State()) == Spec.ReadResponse(old(port.State()))
    {
      var available := port.BytesAvailable();
      if available > 0 {
        var bytes := port.ReadBytes(available);
        assert bytes == old(port.pending);
        assert port.pending == [];
        response := Some(MakeVisible(Decode(bytes)));
      } else {
        response := None;
      }
    }

    /**
     * One step of `initELM327`: write the command, let the adapter's answer
     * arrive during the settle delay, read whatever is available, and validate it.
     */
    method RunInitStep(i: nat, reply: seq<byte>) returns (passed: bool)
      requires i < |InitSteps|
      modifies port
      ensures passed == Accepted(i, old(port.pending) + reply)
      ensures port.State() == Spec.Port(old(port.isOpen), [], old(port.written) + Spec.Frame(InitSteps[i].command))
    {
      var step := InitSteps[i];
      WriteRequest(step.command);
      port.Receive(reply);
      var response := ReadResponse();
      passed := response.Some? && Accepts(step.check, response.value);
    }

    /**
     * `initELM327`: the five steps in order; the first step without an accepted
     * answer ends the run. Returns the verdict and the commands written.
     */
    method InitElm327(replies: seq<seq<byte>>) returns (ok: bool, sent: seq<string>)
      modifies port
      ensures Outcome(ok, sent) == Handshake(Spec.Arrivals(old(port.pending), replies))
      ensures port.State() == Spec.Port(old(port.isOpen), [], old(port.written) + Spec.Frames(sent))
    {
      ghost var inbound := Spec.Arrivals(port.pending, replies);
      ghost var open0, pending0, written0 := port.isOpen, port.pending, port.written;
      sent := [];
      var i := 0;
      while i < |InitSteps|
        invariant 0 <= i <= |InitSteps|
        invariant sent == CommandsUpTo(i)
        invariant FirstFailure(inbound, 0) == FirstFailure(inbound, i)
        invariant port.State() == Spec.Port(open0, if i == 0 then pending0 else [], written0 + Spec.Frames(sent))
      {
        assert Available(inbound, i) == port.pending + Available(replies, i);
        var passed := RunInitStep(i, Available(replies, i));
        assert passed == Passes(inbound, i);
        Spec.FramesSnoc(written0, sent, InitSteps[i].command);
        sent := sent + [InitSteps[i].command];
        if !passed {
          HandshakeFailsAt(inbound, i);
          return false, sent;
        }
        i := i + 1;
      }
      ok := true;
    }

    /**
     * `connect`. `openOk` is what `openPort` reports; `configFault` says that
     * configuring the opened port throws, so the catch block closes the port;
     * `replies[i]` is what the adapter sends after the `i`-th command.
     */
    method Connect(openOk: bool, configFault: bool, replies: seq<seq<byte>>) returns (ok: bool)
      modifies this, port
      ensures (ok, Snapshot()) == Spec.Connect(old(Snapshot()), openOk, configFault, replies)
    {
      var portOpened := port.OpenPort(openOk);
      if !portOpened {
        return false;
      }
      if configFault {
        port.ClosePort();
        return false;
      }
      var sent;
      ok, sent := InitElm327(replies);
      if !ok {
        return false;
      }
      isConnected := true;
    }

    /** One iteration of `communicationLoop`: a queued request first, else a poll of the port. */
    method CommunicationStep() returns (outcome: Spec.StepOutcome)
      modifies this, port
      ensures (Snapshot(), outcome) == Spec.Step(old(Snapshot()))
    {
      if !isConnected {
        return Spec.Exited;
      }
      if |requests| > 0 {
        var request := requests[0];
        requests := requests[1..];
        WriteRequest(request);
        return Spec.Wrote(request);
      }
      if requestsClosed {
        return Spec.Failed;
      }
      var response := ReadResponse();
      match response {
        case None =>
          outcome := Spec.Idle;
        case Some(text) =>
          if responsesClosed {
            outcome := Spec.Failed;
          } else {
            responses := responses + [text];
            outcome := Spec.Received(text);
          }
      }
    }

    /** `trySend`: queue a request unless the request channel is closed. */
    method TrySend(request: string) returns (ok: bool)
      modifies this
      ensures (ok, Snapshot()) == Spec.TrySend(old(Snapshot()), request)
    {
      if requestsClosed {
        return false;
      }
      requests := requests + [request];
      ok := true;
    }

    /** `tryGetResponse`: take the oldest response, if any. */
    method TryGetResponse() returns (response: Option<string>)
      modifies this
      ensures (response, Snapshot()) == Spec.TryGetResponse(old(Snapshot()))
    {
      if |responses| > 0 {
        response := Some(responses[0]);
        responses := responses[1..];
      } else {
        response := None;
      }
    }

    /** `closeConnection`. */
    method CloseConnection()
      modifies this, port
      ensures Snapshot() == Spec.Close(old(Snapshot()))
    {
      isConnected := false;
      requestsClosed := true;
      responsesClosed := true;
      if port.isOpen {
        port.ClosePort();
      }
    }
  }
}
