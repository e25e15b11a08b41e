/**
 A FRU inventory device behind a management controller, with the transport to it: bridged requests
 cost two sequence numbers and direct ones one, a session may have only a limited number of them, and a
 reservation keeps some for an operation.
 */
module FruDevice {
  import opened Ipmi

  const CHUNK: nat := 16

  datatype FruAccess = ByByte | ByWord

  /** The inventory size in bytes and how it is addressed. */
  datatype FruInfo = FruInfo(size: u16, access: FruAccess) {
    function Unit(): nat { if access.ByByte? then 1 else 2 }

    /** A multiple of the access unit. */
    predicate Aligned(n: nat) { access.ByWord? ==> n % 2 == 0 }
  }

  datatype TransferError = EmptyInventory | InvalidLength | OutOfBounds | Unaligned | UnexpectedCount | MalformedResponse

  /** The offset on the wire of a transfer, or what is wrong with it. */
  function Validate(info: FruInfo, offset: nat, length: nat): (r: Result<nat, TransferError>) {
    if length == 0 || length > 0xFF then Err(InvalidLength)
    else if offset + length > info.size then Err(OutOfBounds)
    else if !info.Aligned(offset) || !info.Aligned(length) then Err(Unaligned)
    else Ok(offset / info.Unit())
  }

  /** The transfer lies within the image and, in word mode, starts and ends on words. */
  predicate InBounds(info: FruInfo, offset: nat, length: nat) {
    && 1 <= length <= 0xFF && offset + length <= info.size
    && info.Aligned(offset) && info.Aligned(length)
  }

  lemma ValidIffInBounds(info: FruInfo, offset: nat, length: nat)
    ensures Validate(info, offset, length).Ok? <==> InBounds(info, offset, length)
  {
  }

  datatype Reply<+T> = Success(value: T) | Failure(error: IpmiError)

  /** A read reply: the count in access units, and the bytes. */
  datatype ReadReply = ReadReply(count: nat, data: seq<byte>)

  /** The failures after which a smaller transfer may succeed. */
  predicate Shrinkable(error: IpmiError) {
    var code := match error
                case Failed(c) => Some(c)
                case Command(c) => c
                case Connection => None;
    && code.Some?
    && (code.value.RequestDataLenInvalid? || code.value.RequestDataLengthLimitExceeded?
        || code.value.CannotReturnNumOfRequestedBytes?)
  }

  /** `image` with the first `count` bytes of `data` written at `offset`. */
  function Overwritten(image: seq<byte>, offset: nat, data: seq<byte>, count: nat): (after: seq<byte>)
    requires count <= |data| && offset + count <= |image|
    ensures |after| == |image|
    ensures forall i | 0 <= i < |image| :: after[i] == if offset <= i < offset + count then data[i - offset] else image[i]
  {
    image[..offset] + data[..count] + image[offset + count..]
  }

  // ----- The session

  /**
   The sequence numbers of a session: how many are left, how many of them are reserved, whether a request
   could not be sent for lack of them, and how many requests were made.
   */
  datatype Session = Session(remaining: nat, reserved: Option<nat>, starved: bool, commands: nat) {
    predicate Sound() { reserved.Some? ==> reserved.value <= remaining }
  }

  /** Bridged requests cost two sequence numbers each, direct ones one. */
  function Price(bridged: bool, requests: nat): nat { if bridged then 2 * requests else requests }

  predicate CanSend(s: Session, bridged: bool) {
    s.remaining >= Price(bridged, 1) && (s.reserved.Some? ==> s.reserved.value >= Price(bridged, 1))
  }

  /** One request was made, and polling may have used up sequence numbers that nobody reserved. */
  predicate Charged(limited: bool, bridged: bool, before: Session, after: Session) {
    && after.commands == before.commands + 1
    && (if !limited || CanSend(before, bridged) then after.starved == before.starved else after.starved)
    && after.reserved.Some? == before.reserved.Some?
    && (limited ==> after.Sound())
    && (limited && CanSend(before, bridged) ==>
          && after.remaining <= before.remaining - Price(bridged, 1)
          && (before.reserved.Some? ==> after.reserved.value == before.reserved.value - Price(bridged, 1)))
  }

  /**
   Some requests were made. Either every one was sent, and the session is charged for all of them, or the
   reservation, if there was one, did not cover them.
   */
  predicate Spent(limited: bool, bridged: bool, before: Session, after: Session) {
    && before.commands <= after.commands && (before.starved ==> after.starved)
    && (!limited ==> after.starved == before.starved)
    && after.reserved.Some? == before.reserved.Some?
    && (limited ==> after.Sound())
    && var price := Price(bridged, after.commands - before.commands);
       && (limited && !after.starved ==>
             && after.remaining + price <= before.remaining
             && (before.reserved.Some? ==> after.reserved.value + price == before.reserved.value))
       && (after.starved && !before.starved && before.reserved.Some? ==> before.reserved.value < price)
  }

  lemma SpentNothing(limited: bool, bridged: bool, s: Session)
    requires limited ==> s.Sound()
    ensures Spent(limited, bridged, s, s)
  {
  }

  lemma SpentOneMore(limited: bool, bridged: bool, s: Session, t: Session, u: Session)
    requires Spent(limited, bridged, s, t) && Charged(limited, bridged, t, u) && (limited ==> s.Sound())
    ensures Spent(limited, bridged, s, u)
  {
  }

  lemma SpentMore(limited: bool, bridged: bool, s: Session, t: Session, u: Session)
    requires Spent(limited, bridged, s, t) && Spent(limited, bridged, t, u)
    ensures Spent(limited, bridged, s, u)
  {
  }

  // ----- The device

  /**
   The device. Any request may fail at any time. An `honest` device says what it stores, reports its
   true size, and refuses a read as too long exactly above `limit`; a `faultless` one also answers
   everything else.
   */
  class FruTarget {
    const honest: bool
    const faultless: bool
    const info: FruInfo
    const limit: nat
    const bridged: bool
    /** The session counts its sequence numbers. */
    const limited: bool
    /** A session that does not count them is known to be good for long mutations. */
    const longMutations: bool
    var image: seq<byte>
    var session: Session

    ghost predicate Valid()
      reads this`image, this`session
    {
      && (faultless ==> honest)
      && (honest ==> |image| == info.size && info.size > 0 && limit >= info.Unit())
      && (if limited then session.Sound() else session.reserved.None?)
    }

    constructor (honest: bool, faultless: bool, info: FruInfo, limit: nat, bridged: bool, limited: bool,
                 longMutations: bool, image: seq<byte>, remaining: nat)
      requires (faultless ==> honest)
      requires honest ==> |image| == info.size && info.size > 0 && limit >= info.Unit()
      ensures Valid() && session == Session(remaining, None, false, 0) && this.image == image && this.honest == honest
    {
      this.honest, this.faultless, this.info, this.limit := honest, faultless, info, limit;
      this.bridged, this.limited, this.longMutations := bridged, limited, longMutations;
      this.image, session := image, Session(remaining, None, false, 0);
    }

    /** Take the sequence numbers for a request, if they are to be had. */
    method Dispatch() returns (sent: bool)
      requires Valid()
      modifies this`session
      ensures Valid() && Charged(limited, bridged, old(session), session)
      ensures sent == (!limited || CanSend(old(session), bridged))
    {
      sent := !limited || CanSend(session, bridged);
      session := session.(commands := session.commands + 1, starved := session.starved || !sent);
      if limited && sent {
        var price := Price(bridged, 1);
        var held := if session.reserved.Some? then Some(session.reserved.value - price) else None;
        var left: nat :| (if held.Some? then held.value else 0) <= left <= session.remaining - price;
        session := session.(remaining := left, reserved := held);
      }
    }

    method Reserve(minimum: nat) returns (done: bool)
      requires Valid() && limited
      modifies this`session
      ensures Valid() && done == (old(session).reserved.None? && old(session).remaining >= minimum)
      ensures session == old(session).(reserved := if done then Some(minimum) else old(session).reserved)
    {
      done := session.reserved.None? && session.remaining >= minimum;
      if done { session := session.(reserved := Some(minimum)); }
    }

    method Release()
      requires Valid()
      modifies this`session
      ensures Valid() && session == old(session).(reserved := None)
    {
      session := session.(reserved := None);
    }

    /** Get Device ID at the target: whether it is still the device it was. */
    method Identify() returns (reply: Reply<bool>)
      requires Valid()
      modifies this`session
      ensures Valid() && Charged(limited, bridged, old(session), session)
      ensures session.starved == old(session).starved || reply == Failure(Connection)
    {
      var sent := Dispatch();
      reply := *;
      if !sent { reply := Failure(Connection); }
    }

    method GetInfo() returns (reply: Reply<FruInfo>)
      requires Valid()
      modifies this`session
      ensures Valid() && Charged(limited, bridged, old(session), session)
      ensures session.starved == old(session).starved || reply == Failure(Connection)
      ensures reply.Success? ==> reply.value.size > 0 && (honest ==> reply.value == info)
      ensures faultless && !session.starved ==> reply.Success?
    {
      var sent := Dispatch();
      reply := *;
      if (honest && reply.Success?) || (faultless && sent) {
        reply := Success(info);
      }
      if !sent || (reply.Success? && !(reply.value.size > 0)) { reply := Failure(Connection); }
    }

    method ReadData(given: FruInfo, offset: nat, count: nat) returns (reply: Reply<ReadReply>)
      requires Valid() && InBounds(given, offset, count)
      modifies this`session
      ensures Valid() && Charged(limited, bridged, old(session), session)
      ensures session.starved == old(session).starved || reply == Failure(Connection)
      ensures honest && given == info && reply.Success? ==>
                && count <= limit && reply.value == ReadReply(count / info.Unit(), image[offset..offset + count])
      ensures honest && given == info && reply.Failure? && Shrinkable(reply.error) ==> count > limit
      ensures faultless && given == info && !session.starved ==>
                if count <= limit then reply.Success? else reply.Failure? && Shrinkable(reply.error)
    {
      var sent := Dispatch();
      reply := *;
      if honest && given == info {
        if count > limit && (reply.Success? || (faultless && (reply.Failure? ==> !Shrinkable(reply.error)))) {
          reply := Failure(Failed(CannotReturnNumOfRequestedBytes));
        } else if count <= limit && (reply.Success? || faultless) {
          reply := Success(ReadReply(count / info.Unit(), image[offset..offset + count]));
        } else if count <= limit && reply.Failure? && Shrinkable(reply.error) {
          reply := Failure(Connection);
        }
      }
      if !sent { reply := Failure(Connection); }
    }

    /** A write that fails may have been carried out in part, from the beginning; one that succeeds, wholly. */
    method WriteData(given: FruInfo, offset: nat, data: seq<byte>) returns (reply: Reply<nat>, ghost done: nat)
      requires Valid() && InBounds(given, offset, |data|) && (honest ==> given == info)
      modifies this`session, this`image
      ensures Valid() && Charged(limited, bridged, old(session), session)
      ensures done <= |data|
      ensures honest ==> image == Overwritten(old(image), offset, data, done)
      ensures honest && reply.Success? && reply.value * info.Unit() == |data| ==> done == |data|
      ensures session.starved == old(session).starved || reply == Failure(Connection)
      ensures faultless && !session.starved ==> reply.Success? && reply.value * info.Unit() == |data|
    {
      var sent := Dispatch();
      reply := *;
      var count: nat :| count <= |data|;
      if !sent { reply, count := Failure(Connection), 0; }
      if faultless && sent { reply := Success(|data| / info.Unit()); }
      if reply.Success? && reply.value * info.Unit() == |data| { count := |data|; }
      done := count;
      if honest { image := Overwritten(image, offset, data, count); }
    }
  }
}
