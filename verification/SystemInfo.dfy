/**
 System Info strings, IPMI v2.0 sections 22.14a and 22.14b: a string of up to 255 bytes is carried in
 numbered sets, 14 bytes in the first, which also tells encoding and length, and 16 in each later one.
 */
module SystemInfo {
  import opened Ipmi

  datatype Selector =
    | SetInProgress
    | FirmwareVersion
    | SystemName
    | PrimaryOsName
    | OsName
    | OsVersion
    | BmcUrl
    | ManagementUrl

  datatype Encoding = AsciiLatin1 | Utf8 | Unicode {
    function Value(): byte { match this case AsciiLatin1 => 0 case Utf8 => 1 case Unicode => 2 }
  }

  datatype InfoError =
    | InvalidSelector
    | Revision(revision: byte)
    | InvalidField(raw: byte)
    | InvalidEncoding
    | Length(expected: nat, actual: nat)
    | TooLong(size: nat)
    | UnexpectedSet(expectedSet: nat, actualSet: nat)
    | MissingSet
    | WrongSetCount(expectedCount: nat, actualCount: nat)

  const REVISION: byte := 0x11
  const FIRST_ROOM: nat := 14
  const ROOM: nat := 16
  const MAX_SET: nat := 16
  const SET_SIZE: nat := 17

  /** A string in its wire encoding. */
  datatype InfoString = InfoString(selector: Selector, encoding: Encoding, bytes: seq<byte>)

  /** One set of a string, as read; padding may follow the string's own bytes. */
  datatype StringBlock = StringBlock(
    selector: Selector, number: nat, encoding: Option<Encoding>, totalLength: Option<byte>, bytes: seq<byte>)

  datatype Value = Progress(state: byte) | Block(block: StringBlock)

  /** A Get System Info Parameters reply. */
  datatype Response = Response(revision: byte, data: seq<byte>)

  /** A Set System Info Parameters request. */
  datatype Write = Write(selector: Selector, bytes: seq<byte>)

  // ----- Constructors

  function NewString(selector: Selector, encoding: Encoding, bytes: seq<byte>, utf8: seq<byte> -> bool)
    : Result<InfoString, InfoError>
  {
    if selector.SetInProgress? then Err(InvalidSelector)
    else if |bytes| > 255 then Err(TooLong(|bytes|))
    else if encoding.Utf8? && !utf8(bytes) then Err(InvalidEncoding)
    else if encoding.Unicode? && |bytes| % 2 != 0 then Err(InvalidEncoding)
    else Ok(InfoString(selector, encoding, bytes))
  }

  predicate Valid(s: InfoString, utf8: seq<byte> -> bool) {
    NewString(s.selector, s.encoding, s.bytes, utf8) == Ok(s)
  }

  function Zeros(n: nat): (z: seq<byte>)
    ensures |z| == n
  {
    seq(n, k => 0)
  }

  function Padded(bytes: seq<byte>): (padded: seq<byte>)
    requires |bytes| <= SET_SIZE
    ensures |padded| == SET_SIZE && bytes <= padded
  {
    bytes + Zeros(SET_SIZE - |bytes|)
  }

  /** The write of the first set. */
  function FirstWrite(selector: Selector, encoding: Encoding, totalLength: byte, data: seq<byte>)
    : Result<Write, InfoError>
  {
    if selector.SetInProgress? then Err(InvalidSelector)
    else if |data| != Min(totalLength, FIRST_ROOM) then Err(Length(Min(totalLength, FIRST_ROOM), |data|))
    else Ok(Write(selector, Padded([0, encoding.Value(), totalLength] + data)))
  }

  /** The write of a later set. */
  function NextWrite(selector: Selector, number: byte, data: seq<byte>): Result<Write, InfoError> {
    if selector.SetInProgress? || !(1 <= number <= MAX_SET) then Err(InvalidSelector)
    else if data == [] || |data| > ROOM then Err(Length(ROOM, |data|))
    else Ok(Write(selector, Padded([number] + data)))
  }

  // ----- Splitting

  /** How many sets carry a string of `total` bytes. */
  function SetCount(total: nat): (n: nat)
    ensures n >= 1
  {
    1 + DivCeil(Max(total - FIRST_ROOM, 0), ROOM)
  }

  lemma {:induction false} PiecesOf(n: nat, k: nat)
    ensures k < DivCeil(n, ROOM) <==> k * ROOM < n
  {
    if n > 0 && k > 0 {
      PiecesOf(n - Min(n, ROOM), k - 1);
    }
  }

  /** A string of a valid length has at most 17 sets. */
  lemma SetSelectorsFit(total: nat)
    requires total <= 255
    ensures SetCount(total) <= MAX_SET + 1
  {
    PiecesOf(Max(total - FIRST_ROOM, 0), MAX_SET);
  }

  /** Where the bytes of set `index` begin in the string. */
  function Begin(index: nat): nat {
    if index == 0 then 0 else FIRST_ROOM + (index - 1) * ROOM
  }

  /** How many bytes of the string set `index` carries. */
  function Share(total: nat, index: nat): (n: nat)
    requires index < SetCount(total)
    ensures Begin(index) + n <= total && n <= (if index == 0 then FIRST_ROOM else ROOM)
    ensures index > 0 ==> n > 0
    ensures Begin(index) + n == if index + 1 < SetCount(total) then Begin(index + 1) else total
  {
    PiecesOf(Max(total - FIRST_ROOM, 0), Max(index - 1, 0));
    PiecesOf(Max(total - FIRST_ROOM, 0), index);
    if index == 0 then Min(total, FIRST_ROOM) else Min(total - FIRST_ROOM - (index - 1) * ROOM, ROOM)
  }

  function Piece(bytes: seq<byte>, index: nat): (piece: seq<byte>)
    requires index < SetCount(|bytes|)
    ensures |piece| == Share(|bytes|, index)
  {
    var share := Share(|bytes|, index);
    bytes[Begin(index)..Begin(index) + share]
  }

  /** Set `index` of a string as it goes over the wire. */
  function WriteOf(s: InfoString, index: nat): (w: Write)
    requires index < SetCount(|s.bytes|) && |s.bytes| <= 255 && !s.selector.SetInProgress?
    ensures w.selector == s.selector && |w.bytes| == SET_SIZE
  {
    SetSelectorsFit(|s.bytes|);
    if index == 0 then FirstWrite(s.selector, s.encoding, |s.bytes|, Piece(s.bytes, 0)).value
    else NextWrite(s.selector, index, Piece(s.bytes, index)).value
  }

  function WritesOf(s: InfoString): (ws: seq<Write>)
    requires |s.bytes| <= 255 && !s.selector.SetInProgress?
    ensures |ws| == SetCount(|s.bytes|) && forall k | 0 <= k < |ws| :: ws[k] == WriteOf(s, k)
  {
    seq(SetCount(|s.bytes|), k requires 0 <= k < SetCount(|s.bytes|) => WriteOf(s, k))
  }

  /** The sets of a string; none of the constructors can refuse. */
  method ToWrites(s: InfoString) returns (writes: seq<Write>)
    requires |s.bytes| <= 255 && !s.selector.SetInProgress?
    ensures writes == WritesOf(s)
  {
    SetSelectorsFit(|s.bytes|);
    var first := FirstWrite(s.selector, s.encoding, |s.bytes|, s.bytes[..Min(|s.bytes|, FIRST_ROOM)]);
    assert Piece(s.bytes, 0) == s.bytes[..Min(|s.bytes|, FIRST_ROOM)];
    writes := [first.value];
    var offset := Min(|s.bytes|, FIRST_ROOM);
    while offset < |s.bytes|
      invariant 1 <= |writes| <= SetCount(|s.bytes|)
      invariant offset == if |writes| < SetCount(|s.bytes|) then Begin(|writes|) else |s.bytes|
      invariant forall k | 0 <= k < |writes| :: writes[k] == WriteOf(s, k)
    {
      var index := |writes|;
      var share := Share(|s.bytes|, index);
      var chunk := s.bytes[offset..Min(offset + ROOM, |s.bytes|)];
      assert chunk == Piece(s.bytes, index);
      writes := writes + [NextWrite(s.selector, index, chunk).value];
      offset := offset + |chunk|;
    }
    EverySetHasItsShare(|s.bytes|, |writes|);
  }

  lemma EverySetHasItsShare(total: nat, index: nat)
    requires index >= 1
    ensures index < SetCount(total) ==> Begin(index) < total
  {
    if index < SetCount(total) {
      assert Share(total, index) > 0;
    }
  }

  // ----- Reading

  function DecodeFirst(selector: Selector, data: seq<byte>): Result<Value, InfoError> {
    if |data| < 2 || |data| > 16 then Err(Length(16, |data|))
    else if data[0] / 16 != 0 then Err(InvalidField(data[0]))
    else if data[0] > 2 then Err(InvalidField(data[0]))
    else if |data| - 2 < Min(data[1], FIRST_ROOM) then Err(Length(Min(data[1], FIRST_ROOM) + 2, |data|))
    else
      var encoding := if data[0] == 0 then AsciiLatin1 else if data[0] == 1 then Utf8 else Unicode;
      Ok(Block(StringBlock(selector, 0, Some(encoding), Some(data[1]), data[2..])))
  }

  /** Check a reply against what was asked. */
  function Decode(response: Response, selector: Selector, number: nat): Result<Value, InfoError> {
    if response.revision != REVISION then Err(Revision(response.revision))
    else if selector.SetInProgress? then
      if number != 0 then Err(InvalidSelector)
      else if |response.data| != 1 then Err(Length(1, |response.data|))
      else if response.data[0] > 2 then Err(InvalidField(response.data[0]))
      else Ok(Progress(response.data[0]))
    else if number > MAX_SET then Err(InvalidSelector)
    else if response.data == [] then Err(Length(1, 0))
    else if response.data[0] != number then Err(UnexpectedSet(number, response.data[0]))
    else
      var data := response.data[1..];
      if number == 0 then DecodeFirst(selector, data)
      else if data == [] || |data| > ROOM then Err(Length(ROOM, |data|))
      else Ok(Block(StringBlock(selector, number, None, None, data)))
  }

  /** What is wrong with block `index` of a string of `total` bytes. */
  function Fault(block: StringBlock, selector: Selector, total: nat, index: nat): Option<InfoError>
    requires index < SetCount(total)
  {
    var needed := Share(total, index);
    if block.selector != selector || block.number != index then Some(UnexpectedSet(index, block.number))
    else if |block.bytes| < needed || |block.bytes| > (if index == 0 then FIRST_ROOM else ROOM)
            || (index > 0 && (block.encoding.Some? || block.totalLength.Some?))
    then Some(Length(needed, |block.bytes|))
    else None
  }

  /** The first fault among the blocks from `index` on. */
  function FirstFault(blocks: seq<StringBlock>, selector: Selector, total: nat, index: nat): Option<InfoError>
    requires |blocks| == SetCount(total)
    decreases |blocks| - index
  {
    if index >= |blocks| then None
    else if Fault(blocks[index], selector, total, index).Some? then Fault(blocks[index], selector, total, index)
    else FirstFault(blocks, selector, total, index + 1)
  }

  /** The string's own bytes of the first `count` blocks. */
  function Joined(blocks: seq<StringBlock>, total: nat, count: nat): seq<byte>
    requires count <= |blocks| == SetCount(total)
    requires forall k | 0 <= k < count :: |blocks[k].bytes| >= Share(total, k)
  {
    if count == 0 then []
    else Joined(blocks, total, count - 1) + blocks[count - 1].bytes[..Share(total, count - 1)]
  }

  lemma {:induction false} FaultlessIsLongEnough(blocks: seq<StringBlock>, selector: Selector, total: nat, index: nat)
    requires |blocks| == SetCount(total)
    ensures FirstFault(blocks, selector, total, index).None? <==>
            forall k | index <= k < |blocks| :: Fault(blocks[k], selector, total, k).None?
    decreases |blocks| - index
  {
    if index < |blocks| {
      FaultlessIsLongEnough(blocks, selector, total, index + 1);
    }
  }

  /** The string that consecutive blocks make up. */
  function Assembled(blocks: seq<StringBlock>, utf8: seq<byte> -> bool): Result<InfoString, InfoError> {
    if blocks == [] || blocks[0].number != 0 || blocks[0].encoding.None? || blocks[0].totalLength.None?
    then Err(MissingSet)
    else
      var total := blocks[0].totalLength.value;
      if |blocks| != SetCount(total) then Err(WrongSetCount(SetCount(total), |blocks|))
      else
        FaultlessIsLongEnough(blocks, blocks[0].selector, total, 0);
        var fault := FirstFault(blocks, blocks[0].selector, total, 0);
        if fault.Some? then Err(fault.value)
        else NewString(blocks[0].selector, blocks[0].encoding.value, Joined(blocks, total, |blocks|), utf8)
  }

  method Assemble(blocks: seq<StringBlock>, utf8: seq<byte> -> bool) returns (r: Result<InfoString, InfoError>)
    ensures r == Assembled(blocks, utf8)
  {
    if blocks == [] { return Err(MissingSet); }
    var first := blocks[0];
    if first.number != 0 || first.encoding.None? || first.totalLength.None? { return Err(MissingSet); }
    var total := first.totalLength.value;
    var required := SetCount(total);
    if |blocks| != required { return Err(WrongSetCount(required, |blocks|)); }
    var bytes := [];
    var index := 0;
    while index < |blocks|
      invariant 0 <= index <= |blocks|
      invariant forall k | 0 <= k < index :: Fault(blocks[k], first.selector, total, k).None?
      invariant FirstFault(blocks, first.selector, total, 0) == FirstFault(blocks, first.selector, total, index)
      invariant bytes == Joined(blocks, total, index)
    {
      var block, needed := blocks[index], Share(total, index);
      if block.selector != first.selector || block.number != index {
        return Err(UnexpectedSet(index, block.number));
      }
      if |block.bytes| < needed || |block.bytes| > (if index == 0 then FIRST_ROOM else ROOM)
         || (index > 0 && (block.encoding.Some? || block.totalLength.Some?)) {
        return Err(Length(needed, |block.bytes|));
      }
      bytes := bytes + block.bytes[..needed];
      index := index + 1;
    }
    r := NewString(first.selector, first.encoding.value, bytes, utf8);
  }

  // ----- Round trip

  /** The reply of a controller that stored the set as it was written. */
  function Echo(w: Write): Response { Response(REVISION, w.bytes) }

  /** A set read back as it was written decodes, and begins with its piece of the string. */
  lemma EchoedSetDecodes(s: InfoString, index: nat)
    requires index < SetCount(|s.bytes|) && |s.bytes| <= 255 && !s.selector.SetInProgress?
    ensures var v := Decode(Echo(WriteOf(s, index)), s.selector, index);
            && v.Ok? && v.value.Block?
            && Fault(v.value.block, s.selector, |s.bytes|, index).None?
            && v.value.block.bytes[..Share(|s.bytes|, index)] == Piece(s.bytes, index)
            && (index == 0 ==> v.value.block.encoding == Some(s.encoding) && v.value.block.totalLength == Some(|s.bytes|))
  {
    SetSelectorsFit(|s.bytes|);
    var w, piece := WriteOf(s, index), Piece(s.bytes, index);
    if index == 0 {
      assert w.bytes[1..][2..] == piece + Zeros(SET_SIZE - 3 - |piece|);
    } else {
      assert w.bytes[1..] == piece + Zeros(SET_SIZE - 1 - |piece|);
    }
  }

  /** The sets of the string as they are read back. */
  function ReadBack(s: InfoString): (blocks: seq<StringBlock>)
    requires |s.bytes| <= 255 && !s.selector.SetInProgress?
    ensures |blocks| == SetCount(|s.bytes|)
    ensures forall k | 0 <= k < |blocks| :: Ok(Block(blocks[k])) == Decode(Echo(WriteOf(s, k)), s.selector, k)
  {
    EchoedSets(s);
    seq(SetCount(|s.bytes|), k requires 0 <= k < SetCount(|s.bytes|)
        => Decode(Echo(WriteOf(s, k)), s.selector, k).value.block)
  }

  lemma EchoedSets(s: InfoString)
    requires |s.bytes| <= 255 && !s.selector.SetInProgress?
    ensures forall k | 0 <= k < SetCount(|s.bytes|) ::
              var v := Decode(Echo(WriteOf(s, k)), s.selector, k); v.Ok? && v.value.Block?
  {
    forall k | 0 <= k < SetCount(|s.bytes|)
      ensures var v := Decode(Echo(WriteOf(s, k)), s.selector, k); v.Ok? && v.value.Block?
    {
      EchoedSetDecodes(s, k);
    }
  }

  lemma {:induction false} JoinedIsPrefix(s: InfoString, blocks: seq<StringBlock>, count: nat)
    requires |s.bytes| <= 255 && count <= |blocks| == SetCount(|s.bytes|)
    requires forall k | 0 <= k < |blocks| :: |blocks[k].bytes| >= Share(|s.bytes|, k)
    requires forall k | 0 <= k < |blocks| :: blocks[k].bytes[..Share(|s.bytes|, k)] == Piece(s.bytes, k)
    ensures Begin(count) <= |s.bytes| || count == |blocks|
    ensures Joined(blocks, |s.bytes|, count) == s.bytes[..if count == |blocks| then |s.bytes| else Begin(count)]
  {
    if count > 0 {
      JoinedIsPrefix(s, blocks, count - 1);
      var share := Share(|s.bytes|, count - 1);
      assert Begin(count - 1) + share == if count < |blocks| then Begin(count) else |s.bytes|;
    }
  }

  /** Every valid string, split, echoed set by set, decoded and put together again, is itself. */
  lemma RoundTrip(s: InfoString, utf8: seq<byte> -> bool)
    requires Valid(s, utf8)
    ensures Assembled(ReadBack(s), utf8) == Ok(s)
  {
    var blocks, total := ReadBack(s), |s.bytes|;
    forall k | 0 <= k < |blocks|
      ensures Fault(blocks[k], s.selector, total, k).None?
      ensures |blocks[k].bytes| >= Share(total, k) && blocks[k].bytes[..Share(total, k)] == Piece(s.bytes, k)
    {
      EchoedSetDecodes(s, k);
    }
    EchoedSetDecodes(s, 0);
    FaultlessIsLongEnough(blocks, s.selector, total, 0);
    JoinedIsPrefix(s, blocks, |blocks|);
    assert s.bytes[..total] == s.bytes;
  }
}
