/**
 Messages inside serial frames: IPMB packets with their two checksums, what reply the
 connection takes for the answer to its request, and how long a request can be.
 */
module SerialMessage {
  import opened Ipmi
  import opened Checksums
  import opened SerialFrame

  const BMC: byte := 0x20
  const REQUESTER: byte := 0x81
  const MAX_REQUEST: nat := 40

  // ----- IPMB packets

  /** The request a reply must answer. `netfn` holds the logical unit in its two low bits. */
  datatype Expected = Expected(netfn: byte, cmd: byte, sequence: byte, target: byte)

  /** A network function with the bit set that makes it a reply. */
  function Replying(netfn: byte): byte {
    if (netfn / 4) % 2 == 1 then netfn else netfn + 4
  }

  function Packet(target: byte, netfn: byte, source: byte, seqByte: byte, cmd: byte, data: seq<byte>): seq<byte> {
    var tail := [source, seqByte, cmd] + data;
    [target, netfn, Checksum([target, netfn])] + tail + [Checksum(tail)]
  }

  /** The reply packet to requester unit zero that answers `e` with `body`. */
  function ReplyPacket(e: Expected, body: seq<byte>): seq<byte>
    requires e.sequence < 64
  {
    Packet(REQUESTER, Replying(e.netfn) / 4 * 4, e.target, 4 * e.sequence + e.netfn % 4, e.cmd, body)
  }

  function ParseIpmb(frame: seq<byte>, e: Expected): (body: Option<seq<byte>>)
    requires e.sequence < 64
    ensures body.Some? ==> body.value != []
  {
    if |frame| < 8
       || Checksum(frame[..3]) != 0
       || Checksum(frame[3..]) != 0
       || frame[0] != REQUESTER
       || frame[1] != Replying(e.netfn) / 4 * 4
       || frame[3] != e.target
       || frame[4] != 4 * e.sequence + e.netfn % 4
       || frame[5] != e.cmd
    then None
    else Some(frame[6..|frame| - 1])
  }

  /** A packet is accepted, with its body, exactly if it is the reply packet for that body. */
  lemma AcceptedIffReply(frame: seq<byte>, e: Expected, body: seq<byte>)
    requires e.sequence < 64
    ensures ParseIpmb(frame, e) == Some(body) <==> body != [] && frame == ReplyPacket(e, body)
  {
    hide Sum, Checksum, Replying;
    var head := [REQUESTER, Replying(e.netfn) / 4 * 4];
    var tail := [e.target, 4 * e.sequence + e.netfn % 4, e.cmd];
    if body != [] && frame == ReplyPacket(e, body) {
      assert frame[..3] == head + [Checksum(head)];
      assert frame[3..] == (tail + body) + [Checksum(tail + body)];
      ChecksumIsUnique(head, Checksum(head));
      ChecksumIsUnique(tail + body, Checksum(tail + body));
      ChecksumVanishes(frame[..3]);
      ChecksumVanishes(frame[3..]);
      assert frame[6..|frame| - 1] == body;
    }
    if ParseIpmb(frame, e) == Some(body) {
      var last := frame[|frame| - 1];
      ChecksumVanishes(frame[..3]);
      ChecksumVanishes(frame[3..]);
      assert frame[..3] == head + [frame[2]];
      assert frame[3..] == (tail + body) + [last];
      ChecksumIsUnique(head, frame[2]);
      ChecksumIsUnique(tail + body, last);
      assert frame == frame[..3] + frame[3..];
      assert frame == ReplyPacket(e, body);
    }
  }

  /** No change of a single byte gets past the check. */
  lemma OneChangedByteIsRejected(frame: seq<byte>, other: seq<byte>, e: Expected, i: nat)
    requires e.sequence < 64 && ParseIpmb(frame, e).Some?
    requires |other| == |frame| && i < |frame| && other[i] != frame[i]
    requires forall k | 0 <= k < |frame| && k != i :: other[k] == frame[k]
    ensures ParseIpmb(other, e).None?
  {
    if i < 3 {
      OneByteShows(frame[..3], other[..3], i);
    } else {
      OneByteShows(frame[3..], other[3..], i - 3);
    }
  }

  // ----- Terminal Mode

  /** The reply that answers `e` with `body`; `unit` is the logical unit it names, which nobody checks. */
  function TerminalReply(e: Expected, unit: nat, body: seq<byte>): seq<byte>
    requires e.sequence < 64 && unit < 4
  {
    [Replying(e.netfn), 4 * e.sequence + unit, e.cmd] + body
  }

  /** What the connection takes for the reply to `e`. */
  function Match(mode: SerialMode, e: Expected, frame: seq<byte>): (body: Option<seq<byte>>)
    requires e.sequence < 64
    ensures body.Some? ==> body.value != []
  {
    if mode.Basic? then ParseIpmb(frame, e)
    else if |frame| >= 4 && frame[0] == Replying(e.netfn) && frame[1] / 4 == e.sequence && frame[2] == e.cmd
    then Some(frame[3..])
    else None
  }

  /** How a controller answers `e`. */
  function ReplyFrame(mode: SerialMode, e: Expected, body: seq<byte>): seq<byte>
    requires e.sequence < 64
  {
    if mode.Basic? then ReplyPacket(e, body) else TerminalReply(e, e.netfn % 4, body)
  }

  /** A reply to one request can be taken for the reply to another. */
  predicate Confusable(mode: SerialMode, e: Expected, other: Expected) {
    && Replying(e.netfn) == Replying(other.netfn) && e.cmd == other.cmd && e.sequence == other.sequence
    && (mode.Basic? ==> e.target == other.target)
  }

  /** A reply is matched exactly with the requests it can be confused with, and with its whole body. */
  lemma MatchedIffConfusable(mode: SerialMode, e: Expected, body: seq<byte>, expected: Expected)
    requires e.sequence < 64 && expected.sequence < 64 && body != []
    ensures Match(mode, expected, ReplyFrame(mode, e, body)) ==
            if Confusable(mode, e, expected) then Some(body) else None
  {
    if mode.Basic? {
      var frame := ReplyPacket(e, body);
      AcceptedIffReply(frame, e, body);
      assert frame[1] == Replying(e.netfn) / 4 * 4 && frame[3] == e.target;
      assert frame[4] == 4 * e.sequence + e.netfn % 4 && frame[5] == e.cmd;
      if Confusable(mode, e, expected) {
        AcceptedIffReply(frame, expected, body);
      }
    } else {
      assert TerminalReply(e, e.netfn % 4, body)[3..] == body;
    }
  }

  // ----- Requests

  datatype Bridge = Bridge(target: byte, channel: nat)

  /** A request that `send` accepts: `netfn` holds the logical unit in its two low bits. */
  datatype Request = Request(netfn: byte, cmd: byte, bridge: Option<Bridge>, data: seq<byte>)

  const SEND_MESSAGE: Expected := Expected(0x18, 0x34, 0, BMC)

  function MaxData(mode: SerialMode, bridged: bool): nat {
    if bridged then (if mode.Basic? then 25 else 29) else (if mode.Basic? then 33 else 37)
  }

  function Inner(r: Request, sequence: byte): Option<Expected> {
    if r.bridge.Some? then Some(Expected(r.netfn, r.cmd, sequence, r.bridge.value.target)) else None
  }

  function Outer(r: Request, sequence: byte): Expected {
    if r.bridge.Some? then SEND_MESSAGE.(sequence := sequence) else Expected(r.netfn, r.cmd, sequence, BMC)
  }

  function RequestPayload(mode: SerialMode, r: Request, sequence: byte): seq<byte>
    requires sequence < 64 && (r.bridge.Some? ==> r.bridge.value.channel <= 0xB)
  {
    var outer := Outer(r, sequence);
    var body :=
      if r.bridge.Some? then
        [r.bridge.value.channel + 0x40]
        + Packet(r.bridge.value.target, r.netfn, REQUESTER, 4 * sequence, r.cmd, r.data)
      else r.data;
    if mode.Basic? then Packet(BMC, outer.netfn, REQUESTER, 4 * sequence, outer.cmd, body)
    else [outer.netfn, 4 * sequence, outer.cmd] + body
  }

  /** The four data limits are exactly what a 40-byte payload has room for. */
  lemma DataLimitIsExact(mode: SerialMode, r: Request, sequence: byte)
    requires sequence < 64 && (r.bridge.Some? ==> r.bridge.value.channel <= 0xB)
    ensures |RequestPayload(mode, r, sequence)| <= MAX_REQUEST <==> |r.data| <= MaxData(mode, r.bridge.Some?)
  {
  }
}
