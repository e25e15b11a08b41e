/**
 Applying a prepared change to a Kontron FRU, and restoring the backup: everything is checked before the
 first write, only the two areas are ever written, and the sequence numbers that the rest of the operation
 can need are reserved before it starts.
 */
module Kontron {
  import opened Ipmi
  import opened FruDevice
  import opened Fru
  import opened FruImage
  import opened KontronChange

  /** A prepared change: the device's size and access, the image as it was, its areas, and the proposal. */
  datatype Change = Change(info: FruInfo, backup: seq<byte>, areas: Areas, proposed: seq<byte>)

  datatype KontronError =
    | IdentityFailed(error: IpmiError)
    | TargetChanged
    | Info(error: IpmiError)
    | ReadFailed(read: ReadError)
    | InventoryChanged
    | UnverifiedSequenceBudget
    | SequenceBudget(needed: nat, available: nat)
    | WriteFailed(area: Area, offset: nat, bytesConfirmed: nat, reason: ChunkFailure,
                  observed: Result<seq<byte>, ReadError>)
    | Readback(read: ReadError)
    | ReadbackMismatch(found: seq<byte>)
    | BadReadback

  /** Two images of the size of the device that differ at most inside the two areas. */
  predicate SameOutside(areas: Areas, before: seq<byte>, desired: seq<byte>) {
    && |before| == |desired|
    && forall i | 0 <= i < |before| && !areas.board.Has(i) && !areas.product.Has(i) :: before[i] == desired[i]
  }

  predicate ChangeOk(change: Change) {
    && change.info.size > 0 && |change.backup| == change.info.size && change.info.Aligned(change.info.size)
    && RangeOk(change.areas.board, |change.backup|) && RangeOk(change.areas.product, |change.backup|)
    && Apart(change.areas) && SameOutside(change.areas, change.backup, change.proposed)
  }

  /** What preparation yields is fit to be applied: it differs from the backup inside the two areas only. */
  lemma SerialChangeIsOk(info: FruInfo, image: seq<byte>, areas: Areas, after: seq<byte>, serial: seq<byte>, b: nat,
                         p: nat, rest: seq<byte> -> bool)
    requires |image| == info.size && info.size > 0 && info.Aligned(info.size)
    requires FindAreas(image, rest) == Ok(Some(areas))
    requires RangeOk(areas.board, |image|) && RangeOk(areas.product, |image|)
    requires IsSerialChange(image, after, areas, serial, b, p)
    ensures ChangeOk(Change(info, image, areas, after))
  {
    AreasAreSound(image, rest);
    TextIsInside(image, areas.board, 2, |serial|);
    TextIsInside(image, areas.product, 4, |serial|);
    hide TextAt, KeepsLayout;
    assert SameOutside(areas, image, after) by {
      KeptLayoutParsesSize(image, after, areas);
    }
  }

  lemma KeptLayoutParsesSize(image: seq<byte>, after: seq<byte>, areas: Areas)
    requires RangeOk(areas.board, |image|) && RangeOk(areas.product, |image|) && KeepsLayout(image, after, areas)
    ensures |after| == |image|
  {
  }

  // ----- The budget

  /** The writes that an area takes. */
  function AreaWrites(before: seq<byte>, desired: seq<byte>, area: Range): nat
    requires area.start <= area.end <= |before| == |desired|
  {
    if Slice(before, area) == Slice(desired, area) then 0 else DivCeil(area.end - area.start, CHUNK)
  }

  function Writes(before: seq<byte>, desired: seq<byte>, areas: Areas): nat
    requires areas.board.start <= areas.board.end <= |before| == |desired|
    requires areas.product.start <= areas.product.end <= |before|
  {
    AreaWrites(before, desired, areas.board) + AreaWrites(before, desired, areas.product)
  }

  /** One read of the image in full chunks, with its info. */
  function PlainRead(size: nat): nat { 1 + DivCeil(size, CHUNK) }

  /** The sequence numbers of a whole operation: writes, the final read, and the checks before it. */
  function SequenceCost(bridged: bool, size: nat, writes: nat, readback: nat, preflight: bool): nat {
    Price(bridged, writes + readback + if preflight then 4 + DivCeil(size, CHUNK) else 0)
  }

  /** The commands of the final read, judged by what the same read has cost before. */
  function ReadbackCost(bridged: bool, size: nat, before: nat, after: nat): nat {
    Max(PlainRead(size), DivCeil(Max(before - after, 0), Price(bridged, 1)))
  }

  /** What one read of the image has cost is enough for another, and never less than a plain read. */
  lemma ReadbackIsCovered(limited: bool, bridged: bool, info: FruInfo, limit: nat, s: Session, t: Session)
    requires limit >= info.Unit() && limited && Spent(limited, bridged, s, t) && !t.starved
    requires Counted(info, limit, s, t, true)
    ensures ReadbackCost(bridged, info.size, s.remaining, t.remaining) >= ReadCommands(info, limit)
  {
    DivCeilMeaning(s.remaining - t.remaining, Price(bridged, 1));
  }

  lemma EnoughReserved(limited: bool, bridged: bool, s: Session, t: Session, commands: nat)
    requires Spent(limited, bridged, s, t) && !s.starved && t.commands <= s.commands + commands
    requires limited ==> s.reserved.Some? && s.reserved.value >= Price(bridged, commands)
    ensures !t.starved
  {
  }

  /** A plain read is all a device needs exactly if it takes a full chunk at once. */
  lemma PlainReadIff(info: FruInfo, limit: nat)
    requires limit >= info.Unit()
    ensures ReadCommands(info, limit) >= PlainRead(info.size)
    ensures ReadCommands(info, limit) == PlainRead(info.size) <==> Min(CHUNK, info.size) <= limit
  {
    UnshrunkSteps(info.size, info.Unit(), limit, 0, CHUNK);
  }

  method ReserveBudget(fru: FruTarget, needed: nat) returns (r: Result<bool, KontronError>)
    requires fru.Valid()
    modifies fru`session
    ensures fru.Valid() && (r.Err? ==> fru.session == old(fru.session))
    ensures r.Ok? ==> r.value == fru.limited
    ensures r.Ok? && fru.limited ==>
              old(fru.session).reserved.None? && fru.session == old(fru.session).(reserved := Some(needed))
    ensures r.Ok? && !fru.limited ==> fru.session == old(fru.session)
    ensures r.Err? ==> r.error.SequenceBudget? || r.error.UnverifiedSequenceBudget?
  {
    if !fru.limited {
      return if fru.longMutations then Ok(false) else Err(UnverifiedSequenceBudget);
    }
    var available := fru.session.remaining;
    if available < needed { return Err(SequenceBudget(needed, available)); }
    var done := fru.Reserve(needed);
    if !done { return Err(SequenceBudget(needed, available)); }
    r := Ok(true);
  }

  method CheckIdentity(fru: FruTarget) returns (failure: Option<KontronError>)
    requires fru.Valid()
    modifies fru`session
    ensures fru.Valid() && Charged(fru.limited, fru.bridged, old(fru.session), fru.session)
    ensures failure.None? ==> fru.session.starved == old(fru.session).starved
    ensures failure.Some? ==> failure.value.IdentityFailed? || failure.value.TargetChanged?
  {
    var reply := fru.Identify();
    failure := if reply.Failure? then Some(IdentityFailed(reply.error))
               else if !reply.value then Some(TargetChanged) else None;
  }

  /** At most so many commands, and exactly so many if all went well. */
  predicate NoMoreThan(commands: nat, before: Session, after: Session, whole: bool) {
    && after.commands <= before.commands + commands
    && (whole ==> after.commands == before.commands + commands)
  }

  // ----- Writing the areas

  /** The image with one area as desired. */
  function Applied(before: seq<byte>, desired: seq<byte>, area: Range): (after: seq<byte>)
    requires area.start <= area.end <= |before| == |desired|
    ensures |after| == |before|
    ensures forall i | 0 <= i < |before| :: after[i] == if area.Has(i) then desired[i] else before[i]
  {
    Spliced(before, area.start, Slice(desired, area))
  }

  lemma AllOfAreaWritten(before: seq<byte>, desired: seq<byte>, after: seq<byte>, area: Range)
    requires area.start <= area.end <= |before| == |desired|
    requires Written(before, desired, after, area.start, area.end, area.end)
    ensures after == Applied(before, desired, area)
  {
  }

  lemma NothingToWrite(before: seq<byte>, desired: seq<byte>, area: Range)
    requires area.start <= area.end <= |before| == |desired| && Slice(before, area) == Slice(desired, area)
    ensures Applied(before, desired, area) == before
  {
    assert forall i | area.start <= i < area.end :: before[i] == Slice(before, area)[i - area.start];
    assert forall i | area.start <= i < area.end :: desired[i] == Slice(desired, area)[i - area.start];
  }

  /**
   Write one area chunk by chunk, unless it is as desired already; on failure, the offset of the chunk whose
   fate is unknown.
   */
  method WriteArea(fru: FruTarget, info: FruInfo, area: Range, before: seq<byte>, desired: seq<byte>)
    returns (failure: Option<(nat, ChunkFailure)>)
    requires fru.Valid() && Told(fru.honest, fru.info, info)
    requires |before| == |desired| == info.size && RangeOk(area, |desired|)
    requires fru.honest ==> Slice(fru.image, area) == Slice(before, area)
    modifies fru`session, fru`image
    ensures fru.Valid() && Spent(fru.limited, fru.bridged, old(fru.session), fru.session)
    ensures NoMoreThan(AreaWrites(before, desired, area), old(fru.session), fru.session, failure.None?)
    ensures failure.None? && fru.honest ==> fru.image == Applied(old(fru.image), desired, area)
    ensures failure.None? ==> fru.session.starved == old(fru.session).starved
    ensures failure.Some? ==>
              && area.Has(failure.value.0)
              && (fru.honest ==> Written(old(fru.image), desired, fru.image, area.start, failure.value.0,
                                         Min(failure.value.0 + CHUNK, area.end)))
  {
    hide Spent, Written, Applied;
    SpentNothing(fru.limited, fru.bridged, fru.session);
    if Slice(before, area) == Slice(desired, area) {
      if fru.honest {
        NothingToWrite(fru.image, desired, area);
      }
      return None;
    }
    failure := WriteChunks(fru, info, area, desired);
    if fru.honest && failure.None? {
      AllOfAreaWritten(old(fru.image), desired, fru.image, area);
    }
  }

  lemma RangeIsEven(area: Range, size: nat)
    requires RangeOk(area, size)
    ensures area.start <= area.end <= size && area.start % 2 == 0 && area.end % 2 == 0
  {
  }

  method WriteChunks(fru: FruTarget, info: FruInfo, area: Range, desired: seq<byte>)
    returns (failure: Option<(nat, ChunkFailure)>)
    requires fru.Valid() && Told(fru.honest, fru.info, info) && |desired| == info.size && RangeOk(area, |desired|)
    modifies fru`session, fru`image
    ensures fru.Valid() && Spent(fru.limited, fru.bridged, old(fru.session), fru.session)
    ensures NoMoreThan(DivCeil(area.end - area.start, CHUNK), old(fru.session), fru.session, failure.None?)
    ensures failure.None? ==> fru.session.starved == old(fru.session).starved
    ensures failure.None? && fru.honest ==> Written(old(fru.image), desired, fru.image, area.start, area.end, area.end)
    ensures failure.Some? ==>
              && area.Has(failure.value.0)
              && (fru.honest ==> Written(old(fru.image), desired, fru.image, area.start, failure.value.0,
                                         Min(failure.value.0 + CHUNK, area.end)))
  {
    RangeIsEven(area, |desired|);
    hide Spent, Charged, Written, Overwritten, RangeOk, CanSend;
    var offset := area.start;
    SpentNothing(fru.limited, fru.bridged, fru.session);
    if fru.honest {
      NothingWritten(fru.image, desired, offset);
    }
    while offset < area.end
      invariant fru.Valid() && Spent(fru.limited, fru.bridged, old(fru.session), fru.session)
      invariant area.start <= offset <= area.end && offset % 2 == 0
      invariant fru.session.starved == old(fru.session).starved
      invariant fru.honest ==> Written(old(fru.image), desired, fru.image, area.start, offset, offset)
      invariant fru.session.commands + DivCeil(area.end - offset, CHUNK)
                == old(fru.session).commands + DivCeil(area.end - area.start, CHUNK)
    {
      ghost var earlier, was := fru.session, fru.image;
      var part := desired[offset..Min(offset + CHUNK, area.end)];
      ghost var done;
      var reason;
      reason, done := WriteChunk(fru, info, offset, part);
      OneRequest(fru.limited, fru.bridged, earlier, fru.session);
      SpentOneMore(fru.limited, fru.bridged, old(fru.session), earlier, fru.session);
      if fru.honest {
        ChunkWritten(old(fru.image), desired, was, area.start, offset, part, done);
      }
      if reason.Some? { return Some((offset, reason.value)); }
      offset := offset + |part|;
    }
    failure := None;
  }

  /**
   What a failed write leaves: in the area it hit, the confirmed chunks, then a chunk of which any byte may
   be new or old, then old bytes; the board area is written before the product area.
   */
  predicate LeftAt(before: seq<byte>, desired: seq<byte>, areas: Areas, after: seq<byte>, area: Area, offset: nat)
    requires |before| == |desired| && RangeOk(areas.board, |before|) && RangeOk(areas.product, |before|)
  {
    if area.Board? then
      && areas.board.Has(offset)
      && Written(before, desired, after, areas.board.start, offset, Min(offset + CHUNK, areas.board.end))
    else
      && areas.product.Has(offset)
      && Written(Applied(before, desired, areas.board), desired, after, areas.product.start, offset,
                 Min(offset + CHUNK, areas.product.end))
  }

  /** Whatever happens, no byte outside the two areas is touched, and every byte is old or as desired. */
  lemma NothingElseIsTouched(before: seq<byte>, desired: seq<byte>, areas: Areas, after: seq<byte>, area: Area, offset: nat)
    requires |before| == |desired| && RangeOk(areas.board, |before|) && RangeOk(areas.product, |before|)
    requires LeftAt(before, desired, areas, after, area, offset)
    ensures |after| == |before|
    ensures forall i | 0 <= i < |after| :: after[i] == before[i] || after[i] == desired[i]
    ensures forall i | 0 <= i < |after| && !areas.board.Has(i) && !areas.product.Has(i) :: after[i] == before[i]
  {
  }

  lemma BothAreasApplied(areas: Areas, before: seq<byte>, desired: seq<byte>)
    requires |before| == |desired| && RangeOk(areas.board, |before|) && RangeOk(areas.product, |before|)
    requires SameOutside(areas, before, desired) && Apart(areas)
    ensures Applied(Applied(before, desired, areas.board), desired, areas.product) == desired
    ensures Slice(Applied(before, desired, areas.board), areas.product) == Slice(before, areas.product)
  {
  }

  /** The state of the image that goes with the outcome. */
  predicate Accounted(before: seq<byte>, desired: seq<byte>, areas: Areas, after: seq<byte>, failure: Option<KontronError>)
    requires |before| == |desired| && RangeOk(areas.board, |before|) && RangeOk(areas.product, |before|)
  {
    if failure.Some? && failure.value.WriteFailed? then
      && LeftAt(before, desired, areas, after, failure.value.area, failure.value.offset)
      && failure.value.offset == failure.value.bytesConfirmed
                                 + (if failure.value.area.Board? then areas.board.start else areas.product.start)
      && (failure.value.observed.Ok? ==> failure.value.observed.value == after)
    else
      after == desired && (failure.Some? ==> failure.value.Readback? || failure.value.BadReadback?)
  }

  /** Write the areas that differ and read everything back. */
  method WriteAreas(fru: FruTarget, info: FruInfo, areas: Areas, before: seq<byte>, desired: seq<byte>,
                    parses: seq<byte> -> bool)
    returns (failure: Option<KontronError>)
    requires fru.Valid() && Told(fru.honest, fru.info, info)
    requires |before| == |desired| == info.size && RangeOk(areas.board, |before|) && RangeOk(areas.product, |before|)
    requires Apart(areas) && SameOutside(areas, before, desired) && (fru.honest ==> fru.image == before)
    modifies fru`session, fru`image
    ensures fru.Valid() && Spent(fru.limited, fru.bridged, old(fru.session), fru.session)
    ensures fru.honest ==> NoMoreThan(Writes(before, desired, areas) + ReadCommands(fru.info, fru.limit),
                                      old(fru.session), fru.session, failure.None?)
    ensures fru.honest ==> Accounted(before, desired, areas, fru.image, failure)
    ensures failure.None? ==> parses(desired) && fru.session.starved == old(fru.session).starved
    ensures failure.Some? ==> !failure.value.IdentityFailed? && !failure.value.TargetChanged?
  {
    hide Spent, Written, ReadCommands, Applied, Slice, AreaWrites, SameOutside;
    BothAreasApplied(areas, before, desired);
    var stuck := WriteArea(fru, info, areas.board, before, desired);
    ghost var s := fru.session;
    if stuck.Some? {
      var observed := ReadImage(fru);
      SpentMore(fru.limited, fru.bridged, old(fru.session), s, fru.session);
      var (offset, reason) := stuck.value;
      return Some(WriteFailed(Board, offset, offset - areas.board.start, reason, observed));
    }
    stuck := WriteArea(fru, info, areas.product, before, desired);
    ghost var t := fru.session;
    SpentMore(fru.limited, fru.bridged, old(fru.session), s, t);
    var readback := ReadImage(fru);
    SpentMore(fru.limited, fru.bridged, old(fru.session), t, fru.session);
    if stuck.Some? {
      var (offset, reason) := stuck.value;
      return Some(WriteFailed(Product, offset, offset - areas.product.start, reason, readback));
    }
    if readback.Err? { return Some(Readback(readback.error)); }
    if readback.value != desired { return Some(ReadbackMismatch(readback.value)); }
    if !parses(readback.value) { return Some(BadReadback); }
    failure := None;
  }

  // ----- Applying a change

  /** Everything that is checked before the first write; and the commands to allow for the final read. */
  method Preflight(fru: FruTarget, change: Change) returns (r: Result<nat, KontronError>)
    requires fru.Valid() && ChangeOk(change)
    modifies fru`session
    ensures fru.Valid() && fru.session.reserved.Some? == old(fru.session).reserved.Some?
    ensures r.Ok? ==> fru.session.starved == old(fru.session).starved && r.value >= PlainRead(|change.backup|)
    ensures r.Ok? && fru.honest ==> fru.image == change.backup && fru.info == change.info
    ensures r.Ok? && fru.honest && fru.limited && !fru.session.starved ==> r.value >= ReadCommands(fru.info, fru.limit)
    ensures r.Err? ==> !r.error.WriteFailed?
    ensures Spent(fru.limited, fru.bridged, old(fru.session), fru.session)
    ensures fru.honest && Min(CHUNK, |change.backup|) <= fru.limit ==>
              fru.session.commands <= old(fru.session).commands + 2 + PlainRead(|change.backup|)
  {
    hide ReadCommands;
    SpentNothing(fru.limited, fru.bridged, fru.session);
    var failure := CheckIdentity(fru);
    ghost var one := fru.session;
    SpentOneMore(fru.limited, fru.bridged, old(fru.session), old(fru.session), one);
    if failure.Some? { return Err(failure.value); }
    var info := fru.GetInfo();
    SpentOneMore(fru.limited, fru.bridged, old(fru.session), one, fru.session);
    if info.Failure? { return Err(Info(info.error)); }
    if info.value != change.info { return Err(TargetChanged); }
    ghost var opening := fru.session;
    var before := fru.session.remaining;
    var current := ReadImage(fru);
    SpentMore(fru.limited, fru.bridged, old(fru.session), opening, fru.session);
    if fru.honest { PlainReadIff(fru.info, fru.limit); }
    if current.Err? { return Err(ReadFailed(current.error)); }
    if current.value != change.backup { return Err(InventoryChanged); }
    if !fru.limited { return Ok(PlainRead(|change.backup|)); }
    if fru.honest && !fru.session.starved {
      ReadbackIsCovered(fru.limited, fru.bridged, fru.info, fru.limit, opening, fru.session);
    }
    r := Ok(ReadbackCost(fru.bridged, |change.backup|, before, fru.session.remaining));
  }

  /** The image that goes with the outcome, once the operation was under way. */
  predicate Outcome(before: seq<byte>, desired: seq<byte>, areas: Areas, after: seq<byte>, failure: Option<KontronError>)
    requires |before| == |desired| && RangeOk(areas.board, |before|) && RangeOk(areas.product, |before|)
  {
    if failure.Some? && (failure.value.IdentityFailed? || failure.value.TargetChanged?) then after == before
    else Accounted(before, desired, areas, after, failure)
  }

  /** With everything checked and reserved: one more look at the identity, then write. */
  method Commit(fru: FruTarget, change: Change, before: seq<byte>, desired: seq<byte>,
                parses: seq<byte> -> bool)
    returns (failure: Option<KontronError>)
    requires fru.Valid() && ChangeOk(change) && |before| == |desired| == |change.backup|
    requires SameOutside(change.areas, before, desired)
    requires fru.honest ==> fru.image == before && fru.info == change.info
    modifies fru`session, fru`image
    ensures fru.Valid() && Spent(fru.limited, fru.bridged, old(fru.session), fru.session)
    ensures fru.honest ==> NoMoreThan(1 + Writes(before, desired, change.areas) + ReadCommands(fru.info, fru.limit),
                                      old(fru.session), fru.session, failure.None?)
    ensures fru.honest ==> Outcome(before, desired, change.areas, fru.image, failure)
    ensures failure.None? ==> parses(desired) && fru.session.starved == old(fru.session).starved
  {
    hide Spent, Charged, ReadCommands, Accounted, Writes, SameOutside;
    SpentNothing(fru.limited, fru.bridged, fru.session);
    failure := CheckIdentity(fru);
    ghost var s := fru.session;
    OneRequest(fru.limited, fru.bridged, old(fru.session), s);
    SpentOneMore(fru.limited, fru.bridged, old(fru.session), old(fru.session), s);
    if failure.Some? { return; }
    failure := WriteAreas(fru, change.info, change.areas, before, desired, parses);
    SpentMore(fru.limited, fru.bridged, old(fru.session), s, fru.session);
  }

  /**
   Apply a prepared change once. Nothing is written unless the device is the one prepared for and still holds
   the backed-up image. Once the sequence numbers for the rest are reserved (`committed`), none of its requests
   goes unsent for lack of them, whichever write fails. On a device that takes full chunks none goes unsent
   before that either. The reservation is given back on every path.
   */
  method Apply(fru: FruTarget, change: Change, parses: seq<byte> -> bool)
    returns (failure: Option<KontronError>, ghost committed: bool)
    requires fru.Valid() && ChangeOk(change)
    modifies fru`session, fru`image
    ensures fru.Valid()
    ensures old(fru.session).reserved.None? ==> fru.session.reserved.None?
    ensures fru.limited && old(fru.session).reserved.Some? ==> failure.Some? && fru.session == old(fru.session)
    ensures !committed ==> failure.Some? && !failure.value.WriteFailed? && fru.image == old(fru.image)
    ensures committed && fru.honest ==>
              old(fru.image) == change.backup && Outcome(change.backup, change.proposed, change.areas, fru.image, failure)
    ensures committed && fru.honest && !old(fru.session).starved ==> !fru.session.starved
    ensures fru.honest && Min(CHUNK, |change.backup|) <= fru.limit && !old(fru.session).starved ==> !fru.session.starved
    ensures failure.None? ==> committed && parses(change.proposed)
  {
    hide ReadCommands, Outcome, Spent;
    var size := |change.backup|;
    var writes := Writes(change.backup, change.proposed, change.areas);
    var needed := SequenceCost(fru.bridged, size, writes, PlainRead(size), true);
    committed := false;
    var reserved := ReserveBudget(fru, needed);
    if reserved.Err? { return Some(reserved.error), false; }
    failure, committed := ApplyReserved(fru, change, parses);
    if reserved.value { fru.Release(); }
  }

  method ApplyReserved(fru: FruTarget, change: Change, parses: seq<byte> -> bool)
    returns (failure: Option<KontronError>, ghost committed: bool)
    requires fru.Valid() && ChangeOk(change) && fru.session.reserved.Some? == fru.limited
    requires fru.limited ==> fru.session.reserved.value >= Price(fru.bridged, 2 + PlainRead(|change.backup|))
    modifies fru`session, fru`image
    ensures fru.Valid()
    ensures !committed ==> failure.Some? && !failure.value.WriteFailed? && fru.image == old(fru.image)
    ensures committed && fru.honest ==>
              old(fru.image) == change.backup && Outcome(change.backup, change.proposed, change.areas, fru.image, failure)
    ensures committed && fru.honest && !old(fru.session).starved ==> !fru.session.starved
    ensures fru.honest && Min(CHUNK, |change.backup|) <= fru.limit && !old(fru.session).starved ==> !fru.session.starved
    ensures failure.None? ==> committed && parses(change.proposed)
  {
    hide ReadCommands, Outcome, Spent, Writes;
    var size, writes := |change.backup|, Writes(change.backup, change.proposed, change.areas);
    committed := false;
    var readback := Preflight(fru, change);
    if fru.honest && Min(CHUNK, size) <= fru.limit && !old(fru.session).starved {
      EnoughReserved(fru.limited, fru.bridged, old(fru.session), fru.session, 2 + PlainRead(size));
    }
    if readback.Err? { return Some(readback.error), committed; }
    var stillNeeded := SequenceCost(fru.bridged, size, writes, readback.value, false) + Price(fru.bridged, 1);
    if fru.limited {
      fru.Release();
      var again := ReserveBudget(fru, stillNeeded);
      if again.Err? { return Some(again.error), committed; }
    }
    committed := true;
    ghost var s := fru.session;
    failure := Commit(fru, change, change.backup, change.proposed, parses);
    if fru.honest && !s.starved {
      EnoughReserved(fru.limited, fru.bridged, s, fru.session, 1 + writes + ReadCommands(fru.info, fru.limit));
    }
  }

  // ----- Restoring the backup

  /**
   Put the backed-up areas back. It fails before any write unless the device is the same and differs from the
   backup in the two areas only. The reservation allows for a plain read at the end: on a session that counts,
   no request goes unsent if the device takes full chunks, and if it does not, success is never reported.
   */
  method Restore(fru: FruTarget, change: Change, parses: seq<byte> -> bool)
    returns (failure: Option<KontronError>, ghost committed: bool)
    requires fru.Valid() && ChangeOk(change)
    modifies fru`session, fru`image
    ensures fru.Valid()
    ensures old(fru.session).reserved.None? ==> fru.session.reserved.None?
    ensures !committed ==> failure.Some? && !failure.value.WriteFailed? && fru.image == old(fru.image)
    ensures committed && fru.honest ==>
              && SameOutside(change.areas, old(fru.image), change.backup)
              && Outcome(old(fru.image), change.backup, change.areas, fru.image, failure)
    ensures failure.None? ==> committed && parses(change.backup)
    ensures fru.honest && committed && !old(fru.session).starved ==>
              if !fru.limited || Min(CHUNK, |change.backup|) <= fru.limit then !fru.session.starved else failure.Some?
  {
    hide ReadCommands, Outcome, Writes;
    committed := false;
    failure := CheckIdentity(fru);
    if failure.Some? { return; }
    var info := fru.GetInfo();
    if info.Failure? { return Some(Info(info.error)), committed; }
    if info.value != change.info { return Some(TargetChanged), committed; }
    var read := ReadImage(fru);
    if read.Err? { return Some(ReadFailed(read.error)), committed; }
    var current := read.value;
    if !SameOutside(change.areas, current, change.backup) { return Some(InventoryChanged), committed; }
    var size, writes := |change.backup|, Writes(current, change.backup, change.areas);
    var needed := SequenceCost(fru.bridged, size, writes, PlainRead(size), false) + Price(fru.bridged, 1);
    var reserved := ReserveBudget(fru, needed);
    if reserved.Err? { return Some(reserved.error), committed; }
    committed := true;
    ghost var s := fru.session;
    failure := Commit(fru, change, current, change.backup, parses);
    if fru.honest && !s.starved {
      PlainReadIff(fru.info, fru.limit);
      var commands := 1 + writes + ReadCommands(fru.info, fru.limit);
      if !fru.limited || Min(CHUNK, size) <= fru.limit {
        EnoughReserved(fru.limited, fru.bridged, s, fru.session, commands);
      }
    }
    if reserved.value { fru.Release(); }
  }
}
