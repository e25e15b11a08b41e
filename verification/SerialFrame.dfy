/**
 Framing on a serial line, IPMI v2.0 sections 14.4 and 14.7: Basic Mode escapes binary packets
 between start and stop bytes, Terminal Mode writes hexadecimal between brackets. The decoder is a
 state machine fed one byte at a time; whatever it was in the middle of, a complete encoding
 that follows decodes to its payload.
 */
module SerialFrame {
  import opened Ipmi

  datatype SerialMode = Basic | Terminal

  const MAX_FRAME: nat := 256
  const MAX_NOISE: nat := 512

  const STUFF: byte := 0xAA
  const HANDSHAKE: byte := 0xA6

  function Start(mode: SerialMode): byte { if mode.Basic? then 0xA0 else 0x5B }

  function Stop(mode: SerialMode): byte { if mode.Basic? then 0xA5 else 0x5D }

  /** Room for a frame as received: hexadecimal takes two characters a byte, and white space some more. */
  function Room(mode: SerialMode): nat { if mode.Basic? then MAX_FRAME else 3 * MAX_FRAME }

  // ----- Encoding

  /** The code that stands for a byte that may not be sent as it is. */
  function EscapeCode(b: byte): Option<byte> {
    if b == 0xA0 then Some(0xB0)
    else if b == 0xA5 then Some(0xB5)
    else if b == 0xA6 then Some(0xB6)
    else if b == 0xAA then Some(0xBA)
    else if b == 0x1B then Some(0x3B)
    else None
  }

  function Unescape(code: byte): Option<byte> {
    if code == 0xB0 then Some(0xA0)
    else if code == 0xB5 then Some(0xA5)
    else if code == 0xB6 then Some(0xA6)
    else if code == 0xBA then Some(0xAA)
    else if code == 0x3B then Some(0x1B)
    else None
  }

  function HexDigit(n: nat): byte
    requires n < 16
  {
    if n < 10 then 0x30 + n else 0x61 + n - 10
  }

  function HexValue(c: byte): (v: Option<nat>)
    ensures v.Some? ==> v.value < 16
  {
    if 0x30 <= c <= 0x39 then Some(c - 0x30)
    else if 0x41 <= c <= 0x46 then Some(c - 0x41 + 10)
    else if 0x61 <= c <= 0x66 then Some(c - 0x61 + 10)
    else None
  }

  function EncodeByte(mode: SerialMode, b: byte): seq<byte> {
    if mode.Terminal? then [HexDigit(b / 16), HexDigit(b % 16)]
    else if EscapeCode(b).Some? then [STUFF, EscapeCode(b).value]
    else [b]
  }

  function EncodeBytes(mode: SerialMode, payload: seq<byte>): seq<byte> {
    if payload == [] then [] else EncodeByte(mode, payload[0]) + EncodeBytes(mode, payload[1..])
  }

  /** Sent after the stop byte. */
  function Trailer(mode: SerialMode): seq<byte> { if mode.Basic? then [] else [0x0D, 0x0A] }

  function Encode(mode: SerialMode, payload: seq<byte>): seq<byte> {
    [Start(mode)] + EncodeBytes(mode, payload) + [Stop(mode)] + Trailer(mode)
  }

  lemma {:induction false} EncodeBytesExtended(mode: SerialMode, payload: seq<byte>, b: byte)
    ensures EncodeBytes(mode, payload + [b]) == EncodeBytes(mode, payload) + EncodeByte(mode, b)
  {
    if payload == [] {
      assert EncodeBytes(mode, [b]) == EncodeByte(mode, b) + EncodeBytes(mode, []);
    } else {
      EncodeBytesExtended(mode, payload[1..], b);
      assert (payload + [b])[1..] == payload[1..] + [b];
    }
  }

  method EncodeWire(mode: SerialMode, payload: seq<byte>) returns (wire: seq<byte>)
    ensures wire == Encode(mode, payload)
  {
    wire := [Start(mode)];
    var i := 0;
    while i < |payload|
      invariant 0 <= i <= |payload|
      invariant wire == [Start(mode)] + EncodeBytes(mode, payload[..i])
    {
      EncodeBytesExtended(mode, payload[..i], payload[i]);
      assert payload[..i + 1] == payload[..i] + [payload[i]];
      if mode.Basic? {
        var code := EscapeCode(payload[i]);
        if code.Some? {
          wire := wire + [STUFF, code.value];
        } else {
          wire := wire + [payload[i]];
        }
      } else {
        wire := wire + [HexDigit(payload[i] / 16), HexDigit(payload[i] % 16)];
      }
      i := i + 1;
    }
    assert payload[..i] == payload;
    wire := wire + [Stop(mode)] + Trailer(mode);
  }

  // ----- Decoding

  predicate IsSpace(c: byte) { c == 0x20 || c == 0x09 || c == 0x0A || c == 0x0C || c == 0x0D }

  function WithoutSpace(text: seq<byte>): seq<byte> {
    if text == [] then []
    else if IsSpace(text[0]) then WithoutSpace(text[1..])
    else [text[0]] + WithoutSpace(text[1..])
  }

  /** Pairs of hexadecimal digits as bytes. */
  function ParseHex(hex: seq<byte>): Option<seq<byte>>
    requires |hex| % 2 == 0
  {
    if hex == [] then Some([])
    else
      var high, low, rest := HexValue(hex[0]), HexValue(hex[1]), ParseHex(hex[2..]);
      if high.Some? && low.Some? && rest.Some? then Some([16 * high.value + low.value] + rest.value) else None
  }

  /** What a completed frame says, or nothing if it is malformed. */
  function Payload(mode: SerialMode, frame: seq<byte>): Option<seq<byte>> {
    if mode.Basic? then Some(frame)
    else
      var hex := WithoutSpace(frame);
      if |hex| % 2 != 0 || |hex| / 2 > MAX_FRAME then None else ParseHex(hex)
  }

  datatype Scanner = Scanner(started: bool, escaped: bool, frame: seq<byte>, noise: nat)

  const IDLE := Scanner(false, false, [], 0)

  datatype Fed = More(scanner: Scanner) | Complete(payload: seq<byte>) | Malformed

  function Grown(mode: SerialMode, s: Scanner, b: byte): Fed {
    if |s.frame| + 1 > Room(mode) then Malformed
    else More(s.(frame := s.frame + [b], escaped := false))
  }

  /** One byte received. */
  function Feed(mode: SerialMode, s: Scanner, b: byte): Fed {
    if !s.started then
      if b == Start(mode) then More(s.(started := true))
      else if s.noise + 1 > MAX_NOISE then Malformed
      else More(s.(noise := s.noise + 1))
    else if b == Start(mode) then More(s.(frame := [], escaped := false))
    else if mode.Basic? && s.escaped then
      if Unescape(b).Some? then Grown(mode, s, Unescape(b).value) else Malformed
    else if mode.Basic? && b == STUFF then More(s.(escaped := true))
    else if b == Stop(mode) then
      if Payload(mode, s.frame).Some? then Complete(Payload(mode, s.frame).value) else Malformed
    else if mode.Basic? && b == HANDSHAKE then More(s)
    else Grown(mode, s, b)
  }

  datatype Scan =
    | Waiting(scanner: Scanner)
    | Frame(payload: seq<byte>, rest: seq<byte>)
    | Broken(after: seq<byte>)

  /** What becomes of a stretch of the byte stream. */
  function Run(mode: SerialMode, s: Scanner, bytes: seq<byte>): Scan
    decreases |bytes|
  {
    if bytes == [] then Waiting(s)
    else
      match Feed(mode, s, bytes[0])
      case More(later) => Run(mode, later, bytes[1..])
      case Complete(payload) => Frame(payload, bytes[1..])
      case Malformed => Broken(bytes[1..])
  }

  lemma {:induction false} RunOn(mode: SerialMode, s: Scanner, bytes: seq<byte>, more: seq<byte>)
    requires Run(mode, s, bytes).Waiting?
    ensures Run(mode, s, bytes + more) == Run(mode, Run(mode, s, bytes).scanner, more)
    decreases |bytes|
  {
    if bytes == [] {
      assert bytes + more == more;
    } else {
      var later := Feed(mode, s, bytes[0]).scanner;
      RunOn(mode, later, bytes[1..], more);
      assert (bytes + more)[1..] == bytes[1..] + more;
    }
  }

  /** The characters of a payload as the decoder collects them. */
  function Collected(mode: SerialMode, payload: seq<byte>): seq<byte> {
    if mode.Basic? then payload else EncodeBytes(mode, payload)
  }

  /** In the middle of a frame, the encoding of some bytes adds exactly these bytes. */
  lemma {:induction false} BytesCollect(mode: SerialMode, s: Scanner, payload: seq<byte>)
    requires s.started && !s.escaped && |s.frame| + |Collected(mode, payload)| <= Room(mode)
    ensures Run(mode, s, EncodeBytes(mode, payload)) == Waiting(s.(frame := s.frame + Collected(mode, payload)))
    decreases |payload|
  {
    hide Feed, Run, EncodeByte, EncodeBytes, Collected;
    CollectedFirst(mode, s, payload);
    if payload != [] {
      var b, wire, rest := payload[0], EncodeByte(mode, payload[0]), EncodeBytes(mode, payload[1..]);
      var got := if mode.Basic? then [b] else wire;
      var later := s.(frame := s.frame + got);
      ByteCollects(mode, s, b);
      RunOn(mode, s, wire, rest);
      BytesCollect(mode, later, payload[1..]);
      assert s.frame + (got + Collected(mode, payload[1..])) == later.frame + Collected(mode, payload[1..]);
    }
  }

  lemma CollectedFirst(mode: SerialMode, s: Scanner, payload: seq<byte>)
    ensures payload == [] ==> Run(mode, s, EncodeBytes(mode, payload)) == Waiting(s)
    ensures payload == [] ==> s.(frame := s.frame + Collected(mode, payload)) == s
    ensures payload != [] ==>
              var wire := EncodeByte(mode, payload[0]);
              var got := if mode.Basic? then [payload[0]] else wire;
              && EncodeBytes(mode, payload) == wire + EncodeBytes(mode, payload[1..])
              && Collected(mode, payload) == got + Collected(mode, payload[1..])
              && |got| == if mode.Basic? then 1 else 2
  {
  }

  lemma ByteCollects(mode: SerialMode, s: Scanner, b: byte)
    requires s.started && !s.escaped
    requires |s.frame| + (if mode.Basic? then 1 else 2) <= Room(mode)
    ensures var wire := EncodeByte(mode, b);
            Run(mode, s, wire) == Waiting(s.(frame := s.frame + if mode.Basic? then [b] else wire))
  {
    var wire := EncodeByte(mode, b);
    var middle := Feed(mode, s, wire[0]).scanner;
    if |wire| == 2 {
      assert wire[1..] == [wire[1]];
      assert Run(mode, middle, [wire[1]]) == Waiting(Feed(mode, middle, wire[1]).scanner);
      assert mode.Terminal? ==> s.frame + [wire[0]] + [wire[1]] == s.frame + wire;
    }
  }

  lemma {:induction false} HexRoundTrip(payload: seq<byte>)
    ensures WithoutSpace(EncodeBytes(Terminal, payload)) == EncodeBytes(Terminal, payload)
    ensures |EncodeBytes(Terminal, payload)| == 2 * |payload|
    ensures ParseHex(EncodeBytes(Terminal, payload)) == Some(payload)
  {
    hide WithoutSpace, ParseHex, EncodeByte;
    HexOfNothing();
    if payload != [] {
      HexRoundTrip(payload[1..]);
      HexOfOneMore(payload[0], EncodeBytes(Terminal, payload[1..]));
      assert payload == [payload[0]] + payload[1..];
    }
  }

  lemma HexOfNothing()
    ensures WithoutSpace([]) == [] && ParseHex([]) == Some([])
  {
  }

  lemma HexOfOneMore(b: byte, rest: seq<byte>)
    requires |rest| % 2 == 0
    ensures var hex := EncodeByte(Terminal, b) + rest;
            && |hex| == |rest| + 2
            && WithoutSpace(hex) == EncodeByte(Terminal, b) + WithoutSpace(rest)
            && (ParseHex(rest).Some? ==> ParseHex(hex) == Some([b] + ParseHex(rest).value))
  {
    var hex := EncodeByte(Terminal, b) + rest;
    assert hex[1..] == [hex[1]] + rest && hex[1..][1..] == rest && hex[2..] == rest;
  }

  lemma PayloadIsRead(mode: SerialMode, payload: seq<byte>)
    requires |payload| <= MAX_FRAME
    ensures |Collected(mode, payload)| <= Room(mode)
    ensures Payload(mode, Collected(mode, payload)) == Some(payload)
  {
    HexRoundTrip(payload);
  }

  /** Whatever the decoder was in the middle of, it decodes the frame that comes next. */
  lemma FrameIsRead(mode: SerialMode, s: Scanner, payload: seq<byte>, rest: seq<byte>)
    requires |payload| <= MAX_FRAME && (s.escaped ==> s.started) && (!s.started ==> s.frame == [])
    ensures Run(mode, s, Encode(mode, payload) + rest) == Frame(payload, Trailer(mode) + rest)
  {
    hide EncodeBytes, Payload, Run, Collected;
    var wire := EncodeBytes(mode, payload);
    var all := Encode(mode, payload) + rest;
    var begun := s.(started := true, frame := [], escaped := false);
    var after := [Stop(mode)] + (Trailer(mode) + rest);
    PayloadIsRead(mode, payload);
    BytesCollect(mode, begun, payload);
    assert [] + Collected(mode, payload) == Collected(mode, payload);
    RunOn(mode, begun, wire, after);
    assert all == [Start(mode)] + (wire + after);
    RunStarts(mode, s, wire + after);
    RunStops(mode, begun.(frame := Collected(mode, payload)), Trailer(mode) + rest);
  }

  lemma RunStarts(mode: SerialMode, s: Scanner, bytes: seq<byte>)
    requires (s.escaped ==> s.started) && (!s.started ==> s.frame == [])
    ensures Run(mode, s, [Start(mode)] + bytes) ==
            Run(mode, s.(started := true, frame := [], escaped := false), bytes)
  {
    assert ([Start(mode)] + bytes)[1..] == bytes;
  }

  lemma RunStops(mode: SerialMode, s: Scanner, bytes: seq<byte>)
    requires s.started && !s.escaped && Payload(mode, s.frame).Some?
    ensures Run(mode, s, [Stop(mode)] + bytes) == Frame(Payload(mode, s.frame).value, bytes)
  {
    assert ([Stop(mode)] + bytes)[1..] == bytes;
  }

  /** The decoder never holds anything that a start byte does not clear. */
  lemma {:induction false} ScannerStaysClean(mode: SerialMode, s: Scanner, bytes: seq<byte>)
    requires (s.escaped ==> s.started) && (!s.started ==> s.frame == [])
    requires Run(mode, s, bytes).Waiting?
    ensures var t := Run(mode, s, bytes).scanner; (t.escaped ==> t.started) && (!t.started ==> t.frame == [])
    decreases |bytes|
  {
    if bytes != [] {
      ScannerStaysClean(mode, Feed(mode, s, bytes[0]).scanner, bytes[1..]);
    }
  }

  /** Junk after which the decoder still waits does not spoil the frame that follows. */
  lemma JunkDoesNotMatter(mode: SerialMode, junk: seq<byte>, payload: seq<byte>, rest: seq<byte>)
    requires |payload| <= MAX_FRAME && Run(mode, IDLE, junk).Waiting?
    ensures Run(mode, IDLE, junk + Encode(mode, payload) + rest) == Frame(payload, Trailer(mode) + rest)
  {
    ScannerStaysClean(mode, IDLE, junk);
    RunOn(mode, IDLE, junk, Encode(mode, payload) + rest);
    FrameIsRead(mode, Run(mode, IDLE, junk).scanner, payload, rest);
    assert junk + Encode(mode, payload) + rest == junk + (Encode(mode, payload) + rest);
  }

  // ----- Which junk the decoder survives

  /** Noise without a start byte is survived exactly up to 512 bytes. */
  lemma {:induction false} NoiseIsSurvivedIff(mode: SerialMode, s: Scanner, noise: seq<byte>)
    requires !s.started && s.noise <= MAX_NOISE && Start(mode) !in noise
    ensures Run(mode, s, noise).Waiting? <==> s.noise + |noise| <= MAX_NOISE
    ensures Run(mode, s, noise).Waiting? ==> Run(mode, s, noise).scanner == s.(noise := s.noise + |noise|)
    decreases |noise|
  {
    if noise != [] {
      if s.noise + 1 <= MAX_NOISE {
        NoiseIsSurvivedIff(mode, s.(noise := s.noise + 1), noise[1..]);
      }
    }
  }

  /** What remains of an interrupted frame is survived wherever it was cut off. */
  lemma {:induction false} CutOffFrameIsSurvived(mode: SerialMode, payload: seq<byte>, cut: nat)
    requires |payload| <= MAX_FRAME && cut <= |Encode(mode, payload)| - 1 - |Trailer(mode)|
    ensures Run(mode, IDLE, Encode(mode, payload)[..cut]).Waiting?
  {
    var wire := Encode(mode, payload);
    var head, tail := wire[..cut], wire[cut..];
    FrameIsRead(mode, IDLE, payload, []);
    assert head + tail == wire + [];
    assert Run(mode, IDLE, head + tail).rest == Trailer(mode);
    if !Run(mode, IDLE, head).Waiting? {
      RunEndsEarly(mode, IDLE, head, tail);
    }
  }

  /** A run that ends does not look at what comes after. */
  lemma {:induction false} RunEndsEarly(mode: SerialMode, s: Scanner, bytes: seq<byte>, more: seq<byte>)
    requires !Run(mode, s, bytes).Waiting?
    ensures var r := Run(mode, s, bytes + more);
            && (r.Frame? ==> |r.rest| >= |more|)
            && (r.Broken? ==> |r.after| >= |more|)
            && !r.Waiting?
    decreases |bytes|
  {
    assert (bytes + more)[1..] == bytes[1..] + more;
    if Feed(mode, s, bytes[0]).More? {
      RunEndsEarly(mode, Feed(mode, s, bytes[0]).scanner, bytes[1..], more);
    }
  }

  // ----- A stream of frames

  /** Frames on the wire, each after some junk. */
  function Stream(mode: SerialMode, junk: seq<seq<byte>>, payloads: seq<seq<byte>>): seq<byte>
    requires |junk| == |payloads|
  {
    if payloads == [] then []
    else junk[0] + Encode(mode, payloads[0]) + Stream(mode, junk[1..], payloads[1..])
  }

  /** What `count` calls of the decoder make of a byte stream, each starting afresh, and what they leave. */
  function Receive(mode: SerialMode, bytes: seq<byte>, count: nat): Option<(seq<seq<byte>>, seq<byte>)>
    decreases count
  {
    if count == 0 then Some(([], bytes))
    else
      match Run(mode, IDLE, bytes)
      case Waiting(_) => None
      case Broken(_) => None
      case Frame(payload, rest) =>
        var later := Receive(mode, rest, count - 1);
        if later.None? then None else Some(([payload] + later.value.0, later.value.1))
  }

  /** The junk before each frame, together with what the frame before left over, is survived. */
  predicate Survivable(mode: SerialMode, left: seq<byte>, junk: seq<seq<byte>>)
    decreases |junk|
  {
    junk != [] ==> Run(mode, IDLE, left + junk[0]).Waiting? && Survivable(mode, Trailer(mode), junk[1..])
  }

  /** Any list of payloads is received as it was sent, in order, whatever survivable junk comes between. */
  lemma {:induction false} StreamRoundTrip(mode: SerialMode, left: seq<byte>, junk: seq<seq<byte>>, payloads: seq<seq<byte>>)
    requires |junk| == |payloads| && Survivable(mode, left, junk)
    requires forall p | p in payloads :: |p| <= MAX_FRAME
    ensures Receive(mode, left + Stream(mode, junk, payloads), |payloads|) ==
            Some((payloads, if payloads == [] then left else Trailer(mode)))
    decreases |payloads|
  {
    hide Run, Encode, Receive;
    ReceiveNone(mode, left);
    if payloads == [] {
      assert left + [] == left;
    } else {
      var rest := Stream(mode, junk[1..], payloads[1..]);
      JunkDoesNotMatter(mode, left + junk[0], payloads[0], rest);
      StreamRoundTrip(mode, Trailer(mode), junk[1..], payloads[1..]);
      var all := left + Stream(mode, junk, payloads);
      assert all == left + junk[0] + Encode(mode, payloads[0]) + rest;
      ReceiveNext(mode, all, payloads[0], Trailer(mode) + rest, payloads[1..], Trailer(mode));
      assert [payloads[0]] + payloads[1..] == payloads;
      assert |payloads[1..]| == 0 ==> Trailer(mode) + rest == Trailer(mode);
    }
  }

  lemma ReceiveNone(mode: SerialMode, bytes: seq<byte>)
    ensures Receive(mode, bytes, 0) == Some(([], bytes))
  {
  }

  lemma ReceiveNext(mode: SerialMode, bytes: seq<byte>, payload: seq<byte>, rest: seq<byte>, later: seq<seq<byte>>,
                    left: seq<byte>)
    requires Run(mode, IDLE, bytes) == Frame(payload, rest)
    requires Receive(mode, rest, |later|) == Some((later, left))
    ensures Receive(mode, bytes, |later| + 1) == Some(([payload] + later, left))
  {
  }

  /** Frames that follow each other without junk are survivable: the line ends of Terminal Mode are no burden. */
  lemma {:induction false} CleanStreamIsSurvivable(mode: SerialMode, left: seq<byte>, junk: seq<seq<byte>>)
    requires left == [] || left == Trailer(mode)
    requires forall j | j in junk :: j == []
    ensures Survivable(mode, left, junk)
    decreases |junk|
  {
    if junk != [] {
      assert junk[0] in junk && left + junk[0] == left;
      NoiseIsSurvivedIff(mode, IDLE, left);
      assert forall j | j in junk[1..] :: j in junk;
      CleanStreamIsSurvivable(mode, Trailer(mode), junk[1..]);
    }
  }
}
