/**
 Bounded transfers of a whole FRU image: reads in chunks that shrink when the device asks for less,
 writes in chunks that are never repeated.
 */
module Fru {
  import opened Ipmi
  import opened FruDevice

  datatype ReadError = ReadCommand(error: IpmiError) | Transfer(reason: TransferError) | BadInventory

  datatype WriteError =
    | InvalidImage
    | SizeMismatch
    | InvalidTransfer(reason: TransferError)
    | OutcomeUnknown(offset: nat, bytesConfirmed: nat, source: IpmiError)
    | OutcomeUnconfirmed(offset: nat, bytesConfirmed: nat, error: TransferError)

  /** Chunk sizes a read goes through. */
  predicate ChunkSize(chunk: nat) { chunk in {1, 2, 4, 8, 16} }

  /**
   How many read commands it takes from `offset` on, with chunks of `chunk` bytes to begin with, if the
   device takes at most `limit` bytes at once.
   */
  function ReadSteps(size: nat, unit: nat, limit: nat, offset: nat, chunk: nat): nat
    requires 1 <= unit <= limit && unit <= chunk
    decreases if offset < size then size - offset else 0, chunk
  {
    if offset >= size then 0
    else
      var count := Min(chunk, size - offset);
      if count <= limit then 1 + ReadSteps(size, unit, limit, offset + count, chunk)
      else 1 + ReadSteps(size, unit, limit, offset, Max(chunk / 2, unit))
  }

  /** All the commands of one read of the image: the info and the chunks. */
  function ReadCommands(info: FruInfo, limit: nat): nat
    requires limit >= info.Unit()
  {
    1 + ReadSteps(info.size, info.Unit(), limit, 0, CHUNK)
  }

  /** Unless the device asks for smaller chunks, there are as few commands as there can be. */
  lemma {:induction false} UnshrunkSteps(size: nat, unit: nat, limit: nat, offset: nat, chunk: nat)
    requires 1 <= unit <= limit && unit <= chunk && offset <= size
    ensures ReadSteps(size, unit, limit, offset, chunk) >= DivCeil(size - offset, chunk)
    ensures ReadSteps(size, unit, limit, offset, chunk) == DivCeil(size - offset, chunk) <==>
            Min(chunk, size - offset) <= limit
    decreases size - offset, chunk
  {
    if offset < size {
      var count := Min(chunk, size - offset);
      if count <= limit {
        UnshrunkSteps(size, unit, limit, offset + count, chunk);
      } else {
        UnshrunkSteps(size, unit, limit, offset, Max(chunk / 2, unit));
        DivCeilMonotone(size - offset, size - offset, chunk, Max(chunk / 2, unit));
      }
    }
  }

  /** The true size is told, or the device is not to be trusted. */
  predicate Told(honest: bool, stored: FruInfo, told: FruInfo) { honest ==> told == stored }

  /**
   The whole image. Against an honest device only exactly the stored bytes are returned, however the
   chunks shrink; every transfer, against any device, is within the size it told and starts and ends on
   its access units. A device that answers whatever it can is read successfully.
   */
  method ReadImage(fru: FruTarget) returns (r: Result<seq<byte>, ReadError>)
    requires fru.Valid()
    modifies fru`session
    ensures fru.Valid() && Spent(fru.limited, fru.bridged, old(fru.session), fru.session)
    ensures r.Ok? ==> |r.value| > 0 && fru.session.starved == old(fru.session).starved
    ensures r.Ok? && fru.honest ==> r.value == fru.image
    ensures fru.honest ==> Counted(fru.info, fru.limit, old(fru.session), fru.session, r.Ok?)
    ensures fru.faultless && !fru.session.starved && fru.info.Aligned(fru.info.size) ==> r.Ok?
  {
    hide Spent, Charged, ReadSteps;
    SpentNothing(fru.limited, fru.bridged, fru.session);
    var reply := fru.GetInfo();
    ghost var opening := fru.session;
    SpentOneMore(fru.limited, fru.bridged, old(fru.session), old(fru.session), fru.session);
    if reply.Failure? { return Err(ReadCommand(reply.error)); }
    if reply.value.access.ByWord? && reply.value.size % 2 != 0 { return Err(Transfer(Unaligned)); }
    r := ReadChunks(fru, reply.value);
    SpentMore(fru.limited, fru.bridged, old(fru.session), opening, fru.session);
  }

  /** The chunks of the image, one after the other. */
  method ReadChunks(fru: FruTarget, info: FruInfo) returns (r: Result<seq<byte>, ReadError>)
    requires fru.Valid() && Told(fru.honest, fru.info, info) && info.size > 0 && info.Aligned(info.size)
    modifies fru`session
    ensures fru.Valid() && Spent(fru.limited, fru.bridged, old(fru.session), fru.session)
    ensures r.Ok? ==> |r.value| > 0 && fru.session.starved == old(fru.session).starved
    ensures r.Ok? && fru.honest ==> r.value == fru.image
    ensures fru.honest ==> Within(info, fru.limit, old(fru.session), fru.session, r.Ok?)
    ensures fru.faultless && !fru.session.starved ==> r.Ok?
  {
    hide Spent, Charged, ReadSteps;
    var bytes: seq<byte> := [];
    var chunk := CHUNK;
    SpentNothing(fru.limited, fru.bridged, fru.session);
    while |bytes| < info.size
      invariant fru.Valid() && Spent(fru.limited, fru.bridged, old(fru.session), fru.session)
      invariant fru.session.starved == old(fru.session).starved
      invariant |bytes| <= info.size && info.Aligned(|bytes|)
      invariant ChunkSize(chunk) && info.Unit() <= chunk
      invariant fru.honest ==> bytes == fru.image[..|bytes|]
      invariant fru.honest ==>
                  fru.session.commands + ReadSteps(info.size, info.Unit(), fru.limit, |bytes|, chunk)
                  == old(fru.session).commands + ReadSteps(info.size, info.Unit(), fru.limit, 0, CHUNK)
      decreases info.size - |bytes|, chunk
    {
      ghost var before := fru.session;
      if fru.honest {
        OneStep(info, fru.limit, |bytes|, chunk);
      }
      var step := ReadNext(fru, info, |bytes|, chunk);
      SpentOneMore(fru.limited, fru.bridged, old(fru.session), before, fru.session);
      match step
      case Got(data) => bytes := bytes + data;
      case Shrink => chunk := Max(chunk / 2, info.Unit());
      case Refused(error) => return Err(error);
    }
    if fru.honest {
      NoStepLeft(info, fru.limit, chunk);
    }
    r := Ok(bytes);
  }

  /** Either the chunks took just so many commands, or the read ended early. */
  predicate Within(info: FruInfo, limit: nat, before: Session, after: Session, whole: bool)
    requires limit >= info.Unit()
  {
    var steps := ReadSteps(info.size, info.Unit(), limit, 0, CHUNK);
    && after.commands <= before.commands + steps
    && (whole ==> after.commands == before.commands + steps)
  }

  /** Either the whole read took just so many commands, or it ended early. */
  predicate Counted(info: FruInfo, limit: nat, before: Session, after: Session, whole: bool)
    requires limit >= info.Unit()
  {
    && after.commands <= before.commands + ReadCommands(info, limit)
    && (whole ==> after.commands == before.commands + ReadCommands(info, limit))
  }

  datatype Step = Got(data: seq<byte>) | Shrink | Refused(error: ReadError)

  lemma NoStepLeft(info: FruInfo, limit: nat, chunk: nat)
    requires info.Unit() <= limit && info.Unit() <= chunk
    ensures ReadSteps(info.size, info.Unit(), limit, info.size, chunk) == 0
  {
  }

  lemma OneStep(info: FruInfo, limit: nat, offset: nat, chunk: nat)
    requires info.Unit() <= limit && info.Unit() <= chunk && offset < info.size
    ensures var count := Min(chunk, info.size - offset);
            ReadSteps(info.size, info.Unit(), limit, offset, chunk) ==
            1 + if count <= limit then ReadSteps(info.size, info.Unit(), limit, offset + count, chunk)
                else ReadSteps(info.size, info.Unit(), limit, offset, Max(chunk / 2, info.Unit()))
  {
  }

  /** One chunk of the image. */
  method ReadNext(fru: FruTarget, info: FruInfo, offset: nat, chunk: nat) returns (step: Step)
    requires fru.Valid() && offset < info.size && Told(fru.honest, fru.info, info)
    requires info.Aligned(info.size) && info.Aligned(offset) && ChunkSize(chunk) && info.Unit() <= chunk
    modifies fru`session
    ensures fru.Valid() && Charged(fru.limited, fru.bridged, old(fru.session), fru.session)
    ensures !step.Refused? ==> fru.session.starved == old(fru.session).starved
    ensures step.Got? ==> |step.data| == Min(chunk, info.size - offset) && info.Aligned(|step.data|)
    ensures step.Got? && fru.honest ==> |step.data| <= fru.limit && step.data == fru.image[offset..offset + |step.data|]
    ensures step.Shrink? ==> chunk > info.Unit() && (fru.honest ==> Min(chunk, info.size - offset) > fru.limit)
    ensures fru.faultless && !fru.session.starved ==> !step.Refused?
  {
    var count := Min(chunk, info.size - offset);
    var transfer := fru.ReadData(info, offset, count);
    if transfer.Success? {
      if transfer.value.count * info.Unit() != count { return Refused(Transfer(UnexpectedCount)); }
      if |transfer.value.data| != count { return Refused(Transfer(MalformedResponse)); }
      return Got(transfer.value.data);
    }
    if Shrinkable(transfer.error) && chunk > info.Unit() { return Shrink; }
    step := Refused(ReadCommand(transfer.error));
  }

  /**
   From `start` up to `confirmed` the bytes are new; from there up to `touched` each may be new or old; all
   others are old.
   */
  predicate Written(before: seq<byte>, desired: seq<byte>, after: seq<byte>, start: nat, confirmed: nat, touched: nat) {
    && start <= confirmed <= touched <= |desired| == |before| == |after|
    && (forall i | start <= i < confirmed :: after[i] == desired[i])
    && (forall i | confirmed <= i < touched :: after[i] == desired[i] || after[i] == before[i])
    && (forall i | 0 <= i < |after| && !(start <= i < touched) :: after[i] == before[i])
  }

  lemma ChunkWritten(before: seq<byte>, desired: seq<byte>, was: seq<byte>, start: nat, offset: nat, part: seq<byte>,
                     done: nat)
    requires Written(before, desired, was, start, offset, offset) && done <= |part|
    requires offset + |part| <= |desired| && part == desired[offset..offset + |part|]
    ensures var now := Overwritten(was, offset, part, done);
            && Written(before, desired, now, start, offset, offset + |part|)
            && (done == |part| ==> Written(before, desired, now, start, offset + |part|, offset + |part|))
  {
  }

  lemma NothingWritten(before: seq<byte>, desired: seq<byte>, start: nat)
    requires start <= |before| == |desired|
    ensures Written(before, desired, before, start, start, start)
  {
  }

  lemma AllWritten(before: seq<byte>, desired: seq<byte>, after: seq<byte>)
    requires Written(before, desired, after, 0, |desired|, |desired|)
    ensures after == desired
  {
  }

  datatype ChunkFailure = NoReply(error: IpmiError) | BadCount(reason: TransferError)

  /** Send one chunk and check that just so much of it was acknowledged; `done` is how much was written. */
  method WriteChunk(fru: FruTarget, info: FruInfo, offset: nat, part: seq<byte>)
    returns (failure: Option<ChunkFailure>, ghost done: nat)
    requires fru.Valid() && InBounds(info, offset, |part|) && Told(fru.honest, fru.info, info)
    modifies fru`session, fru`image
    ensures fru.Valid() && Charged(fru.limited, fru.bridged, old(fru.session), fru.session) && done <= |part|
    ensures fru.honest ==> fru.image == Overwritten(old(fru.image), offset, part, done)
    ensures fru.honest && failure.None? ==> done == |part|
    ensures failure.None? ==> fru.session.starved == old(fru.session).starved
    ensures fru.faultless && !fru.session.starved ==> failure.None?
  {
    var reply;
    reply, done := fru.WriteData(info, offset, part);
    if reply.Failure? { return Some(NoReply(reply.error)), done; }
    if reply.value * info.Unit() != |part| { return Some(BadCount(UnexpectedCount)), done; }
    failure := None;
  }

  /**
   Replace the whole image. An invalid image is never sent, and no chunk is sent twice. When a chunk fails,
   the chunks before it were written and those after it were not.
   */
  method WriteImage(fru: FruTarget, info: FruInfo, image: seq<byte>, valid: seq<byte> -> bool)
    returns (r: Result<(), WriteError>)
    requires fru.Valid() && Told(fru.honest, fru.info, info)
    modifies fru`session, fru`image
    ensures fru.Valid() && Spent(fru.limited, fru.bridged, old(fru.session), fru.session)
    ensures r.Ok? ==> valid(image) && |image| == info.size && (fru.honest ==> fru.image == image)
    ensures r.Err? && !r.error.OutcomeUnknown? && !r.error.OutcomeUnconfirmed? ==>
              fru.image == old(fru.image) && fru.session == old(fru.session)
    ensures r.Err? && (r.error.OutcomeUnknown? || r.error.OutcomeUnconfirmed?) ==>
              && r.error.bytesConfirmed == r.error.offset < |image|
              && (fru.honest ==> Written(old(fru.image), image, fru.image, 0, r.error.offset,
                                         Min(r.error.offset + CHUNK, |image|)))
    ensures fru.faultless && !fru.session.starved && valid(image) && |image| == info.size && info.Aligned(|image|) ==>
              r.Ok?
    ensures fru.session.commands <= old(fru.session).commands + DivCeil(|image|, CHUNK)
  {
    SpentNothing(fru.limited, fru.bridged, fru.session);
    if |image| != info.size { return Err(SizeMismatch); }
    if !valid(image) { return Err(InvalidImage); }
    if info.access.ByWord? && |image| % 2 != 0 { return Err(InvalidTransfer(Unaligned)); }
    hide Spent, Charged, Written, Overwritten;
    if fru.honest {
      NothingWritten(fru.image, image, 0);
    }
    var offset := 0;
    while offset < |image|
      invariant fru.Valid() && Spent(fru.limited, fru.bridged, old(fru.session), fru.session)
      invariant offset <= |image| && info.Aligned(offset)
      invariant fru.honest ==> Written(old(fru.image), image, fru.image, 0, offset, offset)
      invariant fru.session.commands + DivCeil(|image| - offset, CHUNK) == old(fru.session).commands + DivCeil(|image|, CHUNK)
    {
      ghost var before, was := fru.session, fru.image;
      var part := image[offset..Min(offset + CHUNK, |image|)];
      ghost var done;
      var failure;
      failure, done := WriteChunk(fru, info, offset, part);
      OneRequest(fru.limited, fru.bridged, before, fru.session);
      SpentOneMore(fru.limited, fru.bridged, old(fru.session), before, fru.session);
      if fru.honest {
        ChunkWritten(old(fru.image), image, was, 0, offset, part, done);
      }
      if failure.Some? {
        return Err(match failure.value
                   case NoReply(error) => OutcomeUnknown(offset, offset, error)
                   case BadCount(error) => OutcomeUnconfirmed(offset, offset, error));
      }
      offset := offset + |part|;
    }
    if fru.honest {
      AllWritten(old(fru.image), image, fru.image);
    }
    r := Ok(());
  }

  lemma OneRequest(limited: bool, bridged: bool, before: Session, after: Session)
    requires Charged(limited, bridged, before, after)
    ensures after.commands == before.commands + 1
  {
  }
}
