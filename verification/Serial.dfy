/**
 The serial connection: one outstanding request, one deadline for it, no retransmission. Once the
 outcome of a request is unknown, nothing is sent any more.
 */
module Serial {
  import opened Ipmi
  import opened SerialFrame
  import opened SerialMessage
  import opened SerialCorrelation

  datatype SendError =
    | RequestPending
    | ConnectionUncertain
    | UnsupportedTarget
    | InvalidNetfn
    | RequestTooLong
    | SendCancelled
    | OutcomeUnknown

  datatype RecvError =
    | NoPendingRequest
    | Timeout
    | Cancelled
    | InvalidFrame
    | TooManyUnrelated
    | Io

  datatype Target =
    | ToBmc(lun: nat)
    | ToIpmb(address: byte, channel: nat, lun: nat)
    | Routed(lun: nat)

  /** A request as the caller gives it, with its bare network function. */
  datatype Call = Call(netfn: byte, cmd: byte, target: Target, data: seq<byte>)

  /** The message to send, or why it cannot be sent. */
  function Plan(mode: SerialMode, call: Call): Result<Request, SendError>
    requires call.target.lun < 4
  {
    if call.netfn % 2 != 0 || call.netfn > 0x3E then Err(InvalidNetfn)
    else if call.target.Routed? then Err(UnsupportedTarget)
    else if call.target.ToIpmb? && !(call.target.address == BMC && call.target.channel == 0)
            && call.target.channel > 0xB then Err(UnsupportedTarget)
    else
      var bridge :=
        if call.target.ToIpmb? && !(call.target.address == BMC && call.target.channel == 0)
        then Some(Bridge(call.target.address, call.target.channel)) else None;
      if |call.data| > MaxData(mode, bridge.Some?) then Err(RequestTooLong)
      else Ok(Request(4 * call.netfn + call.target.lun, call.cmd, bridge, call.data))
  }

  /** A planned request fits, and its reply cannot be mistaken for another request. */
  lemma PlannedRequestFits(mode: SerialMode, call: Call, sequence: byte)
    requires call.target.lun < 4 && sequence < 64 && Plan(mode, call).Ok?
    ensures var r := Plan(mode, call).value;
            && (r.bridge.Some? ==> r.bridge.value.channel <= 0xB)
            && |RequestPayload(mode, r, sequence)| <= MAX_REQUEST
            && Replying(r.netfn) == r.netfn + 4
  {
    DataLimitIsExact(mode, Plan(mode, call).value, sequence);
  }

  // ----- The port

  datatype Wrote = Accepted(count: nat) | WriteAgain | WriteFailed

  datatype GotByte = Byte(b: byte) | EndOfInput | ReadAgain | ReadFailed

  /** The serial port: takes and gives bytes as it likes; every call takes time. */
  class Port {
    ghost var written: seq<byte>
    ghost var received: seq<byte>
    var now: nat

    constructor () {
      written, received, now := [], [], 0;
    }

    method Write(bytes: seq<byte>) returns (r: Wrote)
      modifies this`written, this`now
      ensures now > old(now)
      ensures r.Accepted? ==> r.count <= |bytes| && written == old(written) + bytes[..r.count]
      ensures !r.Accepted? ==> written == old(written)
    {
      var elapsed: nat :| elapsed > 0;
      now := now + elapsed;
      r := *;
      if r.Accepted? {
        var count: nat :| count <= |bytes|;
        r := Accepted(count);
        written := written + bytes[..r.count];
      }
    }

    method Read() returns (r: GotByte)
      modifies this`received, this`now
      ensures now > old(now)
      ensures received == old(received) + if r.Byte? then [r.b] else []
    {
      var elapsed: nat :| elapsed > 0;
      now := now + elapsed;
      r := *;
      if r.Byte? {
        received := received + [r.b];
      }
    }
  }

  // ----- The frames in a stretch of received bytes

  lemma {:induction false} FrameLeavesTheRest(mode: SerialMode, s: Scanner, bytes: seq<byte>, more: seq<byte>)
    requires Run(mode, s, bytes).Frame?
    ensures Run(mode, s, bytes + more) ==
            Frame(Run(mode, s, bytes).payload, Run(mode, s, bytes).rest + more)
    decreases |bytes|
  {
    assert (bytes + more)[1..] == bytes[1..] + more;
    if Feed(mode, s, bytes[0]).More? {
      FrameLeavesTheRest(mode, Feed(mode, s, bytes[0]).scanner, bytes[1..], more);
    }
  }

  /** The bytes are exactly these frames. */
  predicate Holds(mode: SerialMode, bytes: seq<byte>, frames: seq<seq<byte>>) {
    Receive(mode, bytes, |frames|) == Some((frames, []))
  }

  lemma {:induction false} ReceiveAll(mode: SerialMode, bytes: seq<byte>, more: seq<byte>, frames: seq<seq<byte>>,
                                      last: seq<seq<byte>>)
    requires Holds(mode, bytes, frames) && Holds(mode, more, last)
    ensures Holds(mode, bytes + more, frames + last)
    decreases |frames|
  {
    hide Run, Feed;
    if frames == [] {
      assert bytes + more == more && frames + last == last;
    } else {
      var r := Run(mode, IDLE, bytes);
      FrameLeavesTheRest(mode, IDLE, bytes, more);
      assert Receive(mode, r.rest, |frames| - 1).value.0 == frames[1..];
      ReceiveAll(mode, r.rest, more, frames[1..], last);
      assert [r.payload] + (frames[1..] + last) == frames + last;
    }
  }

  lemma OneFrame(mode: SerialMode, bytes: seq<byte>, payload: seq<byte>)
    requires Run(mode, IDLE, bytes) == Frame(payload, [])
    ensures Holds(mode, bytes, [payload])
  {
    assert Receive(mode, [], 0) == Some(([], []));
    assert [payload] + [] == [payload];
  }

  lemma RunOneMore(mode: SerialMode, bytes: seq<byte>, b: byte)
    requires Run(mode, IDLE, bytes).Waiting?
    ensures Run(mode, IDLE, bytes + [b]) ==
            match Feed(mode, Run(mode, IDLE, bytes).scanner, b)
            case More(s) => Waiting(s)
            case Complete(payload) => Frame(payload, [])
            case Malformed => Broken([])
  {
    RunOn(mode, IDLE, bytes, [b]);
  }

  // ----- The connection

  datatype Awaiting = Awaiting(wanted: Pending, deadline: nat)

  class SerialConnection {
    const mode: SerialMode
    const port: Port
    const timeout: nat
    var operationDeadline: Option<nat>
    var sequence: byte
    var pending: Option<Awaiting>
    var uncertain: bool

    /** Every request whose transmission was begun. */
    ghost var requests: seq<Request>

    ghost predicate Valid()
      reads this
    {
      && sequence == |requests| % 64
      && (uncertain ==> pending.None?)
      && (pending.Some? ==> requests != [] && pending.value.wanted == PendingOf(requests))
    }

    constructor (mode: SerialMode, port: Port, timeout: nat)
      ensures Valid() && this.mode == mode && this.port == port && requests == [] && !uncertain
    {
      this.mode, this.port, this.timeout := mode, port, timeout;
      operationDeadline, sequence, pending, uncertain := None, 0, None, false;
      requests := [];
    }

    method NextByte(deadline: nat) returns (r: Result<byte, RecvError>)
      modifies port`received, port`now
      ensures r.Ok? ==> port.received == old(port.received) + [r.value] && port.now > old(port.now)
      ensures r.Ok? ==> old(port.now) < deadline
      ensures r.Err? ==> port.received == old(port.received) && (r.error.Cancelled? || r.error.Timeout? || r.error.Io?)
    {
      while true
        invariant port.received == old(port.received) && port.now >= old(port.now)
        decreases deadline - port.now
      {
        var cancelled: bool := *;
        if cancelled { return Err(Cancelled); }
        if port.now >= deadline { return Err(Timeout); }
        var got := port.Read();
        match got
        case Byte(b) => return Ok(b);
        case EndOfInput => return Err(Io);
        case ReadAgain =>
        case ReadFailed => return Err(Io);
      }
    }

    /** The next frame: exactly what the decoder makes of the bytes received. */
    method ReadFrame(deadline: nat) returns (r: Result<seq<byte>, RecvError>, ghost bytes: seq<byte>)
      modifies port`received, port`now
      ensures port.received == old(port.received) + bytes
      ensures r.Ok? ==> Run(mode, IDLE, bytes) == Frame(r.value, []) && port.now > old(port.now)
      ensures r.Ok? ==> old(port.now) < deadline
      ensures r.Err? ==>
                if r.error.InvalidFrame? then Run(mode, IDLE, bytes) == Broken([])
                else Run(mode, IDLE, bytes).Waiting? && (r.error.Cancelled? || r.error.Timeout? || r.error.Io?)
    {
      hide WithoutSpace, ParseHex, Unescape, Run;
      var start, stop := Start(mode), Stop(mode);
      var frame: seq<byte> := [];
      var started, escaped := false, false;
      var noise := 0;
      bytes := [];
      RunNothing(mode);
      while true
        invariant port.received == old(port.received) + bytes && port.now >= old(port.now)
        invariant bytes != [] ==> old(port.now) < deadline && port.now > old(port.now)
        invariant Run(mode, IDLE, bytes) == Waiting(Scanner(started, escaped, frame, noise))
        invariant escaped ==> mode.Basic?
        decreases deadline - port.now
      {
        var next := NextByte(deadline);
        if next.Err? { return Err(next.error), bytes; }
        var b := next.value;
        RunOneMore(mode, bytes, b);
        bytes := bytes + [b];
        if !started {
          if b == start {
            started := true;
          } else {
            noise := noise + 1;
            if noise > MAX_NOISE { return Err(InvalidFrame), bytes; }
          }
          continue;
        }
        if b == start {
          frame, escaped := [], false;
          continue;
        }
        if mode.Basic? {
          if escaped {
            var value := Unescape(b);
            if value.None? { return Err(InvalidFrame), bytes; }
            frame, escaped := frame + [value.value], false;
          } else if b == STUFF {
            escaped := true;
            continue;
          } else if b == stop {
            return Ok(frame), bytes;
          } else if b == HANDSHAKE {
            continue;
          } else {
            frame := frame + [b];
          }
        } else if b == stop {
          var payload := Payload(mode, frame);
          if payload.None? { return Err(InvalidFrame), bytes; }
          return Ok(payload.value), bytes;
        } else {
          frame := frame + [b];
        }
        if |frame| > Room(mode) { return Err(InvalidFrame), bytes; }
      }
    }

    /** The first reply to `e` among the next frames; anything else is passed over, up to 32 frames. */
    method ReceiveMatching(e: Expected, deadline: nat) returns (r: Result<seq<byte>, RecvError>,
                                                                ghost frames: seq<seq<byte>>, ghost bytes: seq<byte>)
      requires e.sequence < 64
      modifies port`received, port`now
      ensures port.received == old(port.received) + bytes
      ensures r.Ok? ==> Holds(mode, bytes, frames) && frames != [] && FirstMatch(mode, e, frames, 0, |frames| - 1)
      ensures r.Ok? ==> Match(mode, e, frames[|frames| - 1]) == Some(r.value) && old(port.now) < deadline
      ensures r.Err? && r.error.TooManyUnrelated? ==>
                && Holds(mode, bytes, frames) && |frames| == MAX_UNRELATED
                && forall f | f in frames :: Match(mode, e, f).None?
    {
      hide Match, Receive, Run;
      var unrelated := 0;
      frames, bytes := [], [];
      NoFrames(mode);
      while true
        invariant port.received == old(port.received) + bytes && port.now >= old(port.now)
        invariant Holds(mode, bytes, frames) && |frames| == unrelated < MAX_UNRELATED
        invariant forall j | 0 <= j < |frames| :: Match(mode, e, frames[j]).None?
        decreases MAX_UNRELATED - unrelated
      {
        ghost var more;
        var frame;
        frame, more := ReadFrame(deadline);
        bytes := bytes + more;
        if frame.Err? { return Err(frame.error), frames, bytes; }
        OneFrame(mode, more, frame.value);
        ReceiveAll(mode, bytes[..|bytes| - |more|], more, frames, [frame.value]);
        assert bytes[..|bytes| - |more|] + more == bytes;
        frames := frames + [frame.value];
        var matched := Match(mode, e, frame.value);
        if matched.Some? { return Ok(matched.value), frames, bytes; }
        unrelated := unrelated + 1;
        if unrelated >= MAX_UNRELATED { return Err(TooManyUnrelated), frames, bytes; }
      }
    }

    /**
     The answer to the pending request. Whatever goes wrong makes the connection uncertain; the request is
     no longer pending either way.
     */
    method Recv() returns (r: Result<Answer, RecvError>, ghost frames: seq<seq<byte>>, ghost bytes: seq<byte>,
                           ghost first: nat, ghost route: Route)
      requires Valid()
      modifies this`pending, this`uncertain, port`received, port`now
      ensures Valid() && pending.None?
      ensures port.received == old(port.received) + bytes
      ensures old(pending).None? ==> r == Err(NoPendingRequest) && bytes == [] && uncertain == old(uncertain)
      ensures old(pending).Some? ==> uncertain == r.Err?
      ensures r.Ok? ==> Holds(mode, bytes, frames)
      ensures r.Ok? ==> frames != [] && Answered(mode, PendingOf(requests), frames, first, |frames| - 1, route, r.value)
      ensures r.Ok? ==> r.value.body != []
    {
      hide Match, Holds, ParseIpmb;
      frames, bytes, first, route := [], [], 0, Straight;
      if pending.None? { return Err(NoPendingRequest), frames, bytes, first, route; }
      var Awaiting(wanted, deadline) := pending.value;
      pending := None;
      var reply;
      reply, frames, bytes := ReceiveMatching(wanted.outer, deadline);
      if reply.Err? {
        uncertain := true;
        return Err(reply.error), frames, bytes, first, route;
      }
      first := |frames| - 1;
      var body := reply.value;
      if wanted.inner.None? {
        return Ok(Answer(wanted.outer, body)), frames, bytes, first, Straight;
      }
      var inner := wanted.inner.value;
      if body[0] != 0 {
        return Ok(Answer(inner, body)), frames, bytes, first, Refused;
      }
      if |body| == 1 {
        ghost var earlier, before := frames, bytes;
        reply, frames, bytes := ReceiveMatching(inner, deadline);
        bytes := before + bytes;
        if reply.Err? {
          uncertain := true;
          return Err(reply.error), frames, bytes, 0, route;
        }
        ReceiveAll(mode, before, bytes[|before|..], earlier, frames);
        assert before + bytes[|before|..] == bytes;
        assert forall j | first < j < |earlier + frames| :: (earlier + frames)[j] == frames[j - |earlier|];
        return Ok(Answer(inner, reply.value)), earlier + frames, bytes, first, Relayed;
      }
      if |body| >= 10 {
        var enclosed := ParseIpmb(body[2..], inner);
        if enclosed.Some? {
          return Ok(Answer(inner, enclosed.value)), frames, bytes, first, Enclosed;
        }
      }
      uncertain := true;
      r := Err(InvalidFrame);
    }

    method PoisonSend() returns (error: SendError)
      requires sequence == |requests| % 64
      modifies this`pending, this`uncertain
      ensures Valid() && uncertain && pending.None? && error == OutcomeUnknown
    {
      pending, uncertain := None, true;
      error := OutcomeUnknown;
    }

    /**
     Start a request. On success exactly its encoding was written. If that was interrupted, a part of the
     encoding was, and the connection is uncertain. Any other error leaves everything as it was; in
     particular nothing is written once the connection is uncertain.
     */
    method Send(call: Call) returns (r: Result<(), SendError>)
      requires Valid() && call.target.lun < 4
      modifies this`pending, this`uncertain, this`sequence, this`requests, port`written, port`now
      ensures Valid()
      ensures r.Ok? ==> !old(uncertain) && old(pending).None? && !uncertain && pending.Some?
      ensures old(uncertain) ==> r == Err(ConnectionUncertain)
      ensures !old(uncertain) && old(pending).Some? ==> r == Err(RequestPending)
      ensures r.Ok? || r.error.OutcomeUnknown? ==>
                && Plan(mode, call).Ok? && requests == old(requests) + [Plan(mode, call).value]
                && Transmitted(old(port.written), port.written,
                               Encode(mode, RequestPayload(mode, Plan(mode, call).value, sequence)), r.Ok?)
      ensures r.Err? && r.error.OutcomeUnknown? ==> uncertain && pending.None?
      ensures r.Err? && !r.error.OutcomeUnknown? ==>
                && port.written == old(port.written) && requests == old(requests) && sequence == old(sequence)
                && pending == old(pending) && uncertain == old(uncertain)
      ensures r.Err? && !r.error.OutcomeUnknown? && !old(uncertain) && old(pending).None? && !r.error.SendCancelled? ==>
                Plan(mode, call) == Err(r.error)
    {
      hide RequestPayload, Encode;
      if uncertain { return Err(ConnectionUncertain); }
      if pending.Some? { return Err(RequestPending); }
      var cancelled: bool := *;
      if cancelled { return Err(SendCancelled); }
      var plan := Plan(mode, call);
      if plan.Err? { return Err(plan.error); }
      PlannedRequestFits(mode, call, (sequence + 1) % 64);
      var deadline := port.now + timeout;
      if operationDeadline.Some? {
        deadline := Min(operationDeadline.value, deadline);
      }
      sequence := (sequence + 1) % 64;
      requests := requests + [plan.value];
      pending := Some(Awaiting(Pending(Outer(plan.value, sequence), Inner(plan.value, sequence)), deadline));
      var wire := EncodeWire(mode, RequestPayload(mode, plan.value, sequence));
      var failure := WriteAll(wire, deadline);
      if failure {
        var error := PoisonSend();
        return Err(error);
      }
      r := Ok(());
    }

    /** Write the bytes, in as many pieces as the port likes, until done, failed, too late or cancelled. */
    method WriteAll(wire: seq<byte>, deadline: nat) returns (failed: bool)
      modifies port`written, port`now
      ensures Transmitted(old(port.written), port.written, wire, !failed)
    {
      var offset := 0;
      while offset < |wire|
        invariant 0 <= offset <= |wire|
        invariant port.written == old(port.written) + wire[..offset]
        decreases deadline - port.now
      {
        var cancelled: bool := *;
        if cancelled || port.now >= deadline { return true; }
        var wrote := port.Write(wire[offset..]);
        match wrote
        case Accepted(count) =>
          if count == 0 { break; }
          assert wire[..offset] + wire[offset..][..count] == wire[..offset + count];
          offset := offset + count;
        case WriteAgain =>
        case WriteFailed => return true;
      }
      failed := offset != |wire|;
    }

    /** A whole transaction: the answer is reached through the frames received since the request was sent. */
    method SendRecv(call: Call) returns (r: Result<Answer, TransactionError>, ghost frames: seq<seq<byte>>,
                                         ghost first: nat, ghost route: Route)
      requires Valid() && call.target.lun < 4
      modifies this`pending, this`uncertain, this`sequence, this`requests, port
      ensures Valid()
      ensures old(uncertain) ==> r == Err(NotSent(ConnectionUncertain)) && port.written == old(port.written)
      ensures r.Ok? ==> !old(uncertain) && !uncertain && pending.None?
      ensures r.Ok? ==> requests != [] && frames != []
                        && Answered(mode, PendingOf(requests), frames, first, |frames| - 1, route, r.value)
      ensures r.Ok? ==> Plan(mode, call).Ok? && requests == old(requests) + [Plan(mode, call).value]
      ensures r.Err? && (r.error.Unknown? || r.error == NotSent(OutcomeUnknown)) ==> uncertain
    {
      hide RequestPayload, Encode, Plan, Holds, Answered;
      frames, first, route := [], 0, Straight;
      var sent := Send(call);
      if sent.Err? { return Err(NotSent(sent.error)), frames, first, route; }
      var reply;
      ghost var bytes;
      reply, frames, bytes, first, route := Recv();
      r := if reply.Ok? then Ok(reply.value) else Err(Unknown(reply.error));
    }

    /** The same within a deadline of the caller's, which is forgotten afterwards. */
    method SendRecvDeadline(call: Call, deadline: nat, cancelled: bool) returns (r: Result<Answer, TransactionError>)
      requires Valid() && call.target.lun < 4
      modifies this`pending, this`uncertain, this`sequence, this`requests, this`operationDeadline, port
      ensures Valid() && operationDeadline == old(operationDeadline)
      ensures cancelled || old(uncertain) ==> r.Err? && port.written == old(port.written)
      ensures r.Ok? ==> Plan(mode, call).Ok? && requests == old(requests) + [Plan(mode, call).value]
      ensures r.Err? && (r.error.Unknown? || r.error == NotSent(OutcomeUnknown)) ==> uncertain
    {
      if cancelled { return Err(NotSent(SendCancelled)); }
      if port.now >= deadline { return Err(TooLate); }
      var outer := operationDeadline;
      operationDeadline := Some(deadline);
      ghost var frames, first, route;
      r, frames, first, route := SendRecv(call);
      operationDeadline := outer;
    }
  }

  datatype TransactionError = NotSent(send: SendError) | Unknown(recv: RecvError) | TooLate

  /** All of the message was written, or a part from its beginning. */
  predicate Transmitted(before: seq<byte>, after: seq<byte>, wire: seq<byte>, complete: bool) {
    && before <= after && after[|before|..] <= wire
    && (complete ==> after[|before|..] == wire)
  }

  lemma NoFrames(mode: SerialMode)
    ensures Holds(mode, [], [])
  {
  }

  lemma RunNothing(mode: SerialMode)
    ensures Run(mode, IDLE, []) == Waiting(IDLE)
  {
  }
}
