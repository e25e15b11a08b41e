/**
 The fallible traversal of a Sensor Data Record store: reads each record in chunks that shrink
 when the controller asks for less, and starts the record over when its reservation is lost.
 */
module Sdr {
  import opened Ipmi
  import opened SdrStore

  datatype SdrError =
    | DeviceIdFailed(error: IpmiError)
    | RepositoryInfoFailed(error: IpmiError)
    | DeviceInfoFailed(error: IpmiError)
    | NoSupportedSource
    | ReservationFailed(error: IpmiError)
    | ReservationLost(id: RecordId)
    | ReadFailed(error: IpmiError)
    | IncorrectChunkLength(offset: nat, expected: nat, actual: nat)
    | NextIdChanged(expectedId: RecordId, actualId: RecordId)
    | InvalidFirstRecordId
    | RepeatedRecordId(id: RecordId)
    | OffsetOutOfRange(offset: nat)
    | ParseFailed(id: RecordId)

  const HEADER_LENGTH: nat := 5
  const MAX_RENEWALS: nat := 3
  const INITIAL_READ_LIMIT: nat := 32

  /** How often a read limit can still be halved. */
  function Halvings(limit: nat): nat {
    if limit <= 1 then 0 else 1 + Halvings(limit / 2)
  }

  lemma {:induction false} HalvingsGrow(small: nat, large: nat)
    requires small <= large
    ensures Halvings(small) <= Halvings(large)
  {
    if small > 1 {
      HalvingsGrow(small / 2, large / 2);
    }
  }

  function LittleEndian(id: RecordId): (r: seq<byte>)
    ensures |r| == 2
  {
    [id % 0x100, id / 0x100]
  }

  function FromLittleEndian(low: byte, high: byte): RecordId {
    low + 0x100 * high
  }

  /** A record as it is handed out: under its own identifier, except that the first keeps the bytes it has. */
  function Patched(id: RecordId, raw: seq<byte>): seq<byte>
    requires |raw| >= HEADER_LENGTH
  {
    if id == FIRST then raw else LittleEndian(id) + raw[2..]
  }

  /** `raw` is the whole record a request for `id` leads to, and `next` is its pointer. */
  predicate IsRecordOf(store: Store, id: RecordId, raw: seq<byte>, next: RecordId) {
    && store.Index(id).Some?
    && var i := store.Index(id).value;
       var bytes := store.records[i].bytes;
       && |bytes| >= HEADER_LENGTH && HEADER_LENGTH + bytes[4] <= |bytes|
       && raw == Patched(id, bytes[..HEADER_LENGTH + bytes[4]])
       && next == store.Next(i)
  }

  lemma ReadsOn(store: Store, id: RecordId, start: nat, data: seq<byte>, more: seq<byte>, next: RecordId)
    requires Reads(store, id, start, data, next) && Reads(store, id, start + |data|, more, next)
    ensures Reads(store, id, start, data + more, next)
  {
    var bytes := store.records[store.Index(id).value].bytes;
    assert bytes[start..] == data + bytes[start + |data|..];
  }

  lemma HeaderRead(store: Store, id: RecordId, header: seq<byte>, next: RecordId)
    requires |header| == HEADER_LENGTH && Reads(store, id, 0, header, next)
    ensures store.Index(id).Some?
    ensures var i := store.Index(id).value;
            |store.records[i].bytes| >= HEADER_LENGTH && header == store.records[i].bytes[..HEADER_LENGTH]
            && next == store.Next(i)
  {
    var bytes := store.records[store.Index(id).value].bytes;
    assert bytes[0..] == bytes;
  }

  /** Header and body of the same stored record make the record. */
  lemma HeaderAndBody(store: Store, id: RecordId, bodyId: RecordId, header: seq<byte>, body: seq<byte>, next: RecordId)
    requires store.Valid()
    requires |header| == HEADER_LENGTH && |body| == header[4]
    requires Reads(store, id, 0, header, next)
    requires body != [] ==> Reads(store, bodyId, HEADER_LENGTH, body, next)
    ensures IsRecordOf(store, id, Patched(id, header + body), next)
  {
    var i := store.Index(id).value;
    var bytes := store.records[i].bytes;
    assert bytes[0..] == bytes;
    if body != [] {
      PointersDiffer(store, i, store.Index(bodyId).value);
    }
    assert bytes[4] == header[4];
    assert header + body == bytes[..HEADER_LENGTH + bytes[4]];
  }

  // ----- A store that stands still

  /** The record at `i` is complete, short enough for eight-bit offsets, and names itself. */
  predicate WellFormedRecord(store: Store, i: nat, parses: seq<byte> -> bool)
    requires i < |store.records|
  {
    var bytes := store.records[i].bytes;
    && |bytes| >= HEADER_LENGTH && |bytes| == HEADER_LENGTH + bytes[4] && bytes[4] <= 251
    && FromLittleEndian(bytes[0], bytes[1]) == store.records[i].id
    && parses(bytes)
  }

  predicate WellFormed(store: Store, parses: seq<byte> -> bool) {
    forall i | 0 <= i < |store.records| :: WellFormedRecord(store, i, parses)
  }

  lemma BytesOfAnId(low: byte, high: byte)
    ensures LittleEndian(FromLittleEndian(low, high)) == [low, high]
  {
  }

  /** A record that names itself is handed out as it is stored. */
  lemma PatchedNamesItself(store: Store, i: nat, parses: seq<byte> -> bool, id: RecordId)
    requires store.Valid() && i < |store.records| && WellFormedRecord(store, i, parses)
    requires store.Index(id) == Some(i)
    ensures Patched(id, store.records[i].bytes) == store.records[i].bytes
  {
    var bytes := store.records[i].bytes;
    BytesOfAnId(bytes[0], bytes[1]);
    assert bytes == bytes[..2] + bytes[2..];
    assert bytes[..2] == [bytes[0], bytes[1]];
  }

  function Bytes(records: seq<Stored>): (all: seq<seq<byte>>)
    ensures |all| == |records| && forall k | 0 <= k < |records| :: all[k] == records[k].bytes
  {
    seq(|records|, k requires 0 <= k < |records| => records[k].bytes)
  }

  /** The identifier to ask for after the first `k` records. */
  function Pointer(store: Store, k: nat): RecordId {
    if k == 0 then FIRST else store.Next(k - 1)
  }

  /** The first `|emitted|` records were handed out, and only what led to them was asked for. */
  ghost predicate InStep(store: Store, emitted: seq<seq<byte>>, seen: set<RecordId>, nextId: Option<RecordId>) {
    && emitted <= Bytes(store.records)
    && (nextId.None? ==> |emitted| == |store.records|)
    && (nextId.Some? ==> nextId.value == Pointer(store, |emitted|))
    && (forall x | x in seen :: |emitted| > 0
          && (x == FIRST || exists k :: 0 < k < |emitted| && store.records[k].id == x))
  }

  /** The next record of a store that stands still is where the pointer leads, and is new. */
  lemma StepLeadsOn(store: Store, emitted: seq<seq<byte>>, seen: set<RecordId>, id: RecordId)
    requires store.Valid() && InStep(store, emitted, seen, Some(id)) && store.records != []
    ensures |emitted| < |store.records| <==> id != LAST
    ensures id != LAST ==> store.Index(id) == Some(|emitted|) && id !in seen
    ensures id != LAST ==> Readable(store, id, seen) && Readable(store, id, seen + {id})
  {
  }

  lemma StepTaken(store: Store, emitted: seq<seq<byte>>, seen: set<RecordId>, id: RecordId)
    requires store.Valid() && InStep(store, emitted, seen, Some(id)) && id != LAST && store.records != []
    ensures |emitted| < |store.records|
    ensures InStep(store, emitted + [store.records[|emitted|].bytes], seen + {id},
                   Some(Pointer(store, |emitted| + 1)))
  {
  }

  lemma {:induction false} AtMostSoMany(ids: set<RecordId>, bound: nat)
    requires forall id | id in ids :: id < bound
    ensures |ids| <= bound
  {
    if ids != {} {
      AtMostSoMany(ids - {bound - 1}, bound - 1);
    }
  }

  // ----- Reservations are what prevents torn records

  /** What an honest controller may answer at a moment when `intact` is the good reservation. */
  predicate MayAnswer(store: Store, intact: Option<Token>, reservation: Option<Token>, id: RecordId, offset: nat,
                      chunk: Chunk)
  {
    && Reads(store, id, offset, chunk.data, chunk.next)
    && (offset > 0 && reservation.Some? ==> intact == reservation)
  }

  /**
   Without a reservation nothing stops a change between the header and the body of a record: the
   bytes put together pass every check and belong to neither the old record nor the new one.
   */
  lemma WithoutReservationRecordsTear() returns (before: Store, after: Store, header: Chunk, body: Chunk)
    ensures before.Valid() && after.Valid()
    ensures MayAnswer(before, None, None, 7, 0, header) && MayAnswer(after, None, None, 7, HEADER_LENGTH, body)
    ensures |header.data| == HEADER_LENGTH && |body.data| == header.data[4] && body.next == header.next
    ensures !IsRecordOf(before, 7, Patched(7, header.data + body.data), header.next)
    ensures !IsRecordOf(after, 7, Patched(7, header.data + body.data), header.next)
  {
    before := Store([Stored(7, [7, 0, 0x51, 1, 1, 10])], map[7 := 0]);
    after := Store([Stored(7, [7, 0, 0x51, 2, 1, 20])], map[7 := 0]);
    header, body := Chunk(LAST, [7, 0, 0x51, 1, 1]), Chunk(LAST, [20]);
    assert before.records[0].bytes[0..] == header.data + [10];
    assert after.records[0].bytes[5..] == [20];
    var torn := Patched(7, header.data + body.data);
    assert torn[3] == 1 && torn[5] == 20;
    assert Patched(7, before.records[0].bytes[..6])[5] == 10;
    assert Patched(7, after.records[0].bytes[..6])[3] == 2;
  }

  // ----- The iterator

  lemma StepDone(store: Store, emitted: seq<seq<byte>>, seen: set<RecordId>, id: RecordId, parses: seq<byte> -> bool,
                 raw: seq<byte>, next: RecordId)
    requires store.Valid() && WellFormed(store, parses) && store.records != []
    requires InStep(store, emitted, seen, Some(id)) && id != LAST && IsRecordOf(store, id, raw, next)
    ensures InStep(store, emitted + [raw], seen + {id}, Some(next))
  {
    StepLeadsOn(store, emitted, seen, id);
    StepTaken(store, emitted, seen, id);
    assert WellFormedRecord(store, |emitted|, parses);
    WholeRecordRead(store, id, |emitted|, parses, raw, next);
  }

  /** At most five halvings lead from the initial read limit to one byte. */
  ghost predicate WithinLimit(readLimit: nat, shrinks: nat) {
    1 <= readLimit <= INITIAL_READ_LIMIT && shrinks + Halvings(readLimit) <= 5
  }

  /** The controller's store is the one being read, and partial reads of it cannot be mixed up. */
  predicate Tracked(honest: bool, quiet: bool, subject: SdrSource, source: Option<SdrSource>, reservation: Option<Token>) {
    honest && source == Some(subject) && (quiet || reservation.Some?)
  }

  /** The store being read stands still and holds proper records only. */
  predicate Settled(quiet: bool, subject: SdrSource, source: Option<SdrSource>, store: Store, parses: seq<byte> -> bool) {
    quiet && source == Some(subject) && WellFormed(store, parses)
  }

  /** No reservation is needed, or the one held is good. */
  predicate InForce(store: Store, reservation: Option<Token>, intact: Option<Token>) {
    store.records != [] && (reservation == None || reservation == intact)
  }

  /** All the bytes asked for are there and can be addressed. */
  predicate Whole(store: Store, id: RecordId, start: nat, length: nat, expected: Option<RecordId>) {
    && store.Index(id).Some?
    && var i := store.Index(id).value;
       && start + length <= |store.records[i].bytes| <= 256
       && (expected.Some? ==> expected.value == store.Next(i))
  }

  lemma WholeAtFirst(store: Store, id: RecordId, start: nat, length: nat, expected: Option<RecordId>, count: nat)
    requires count <= length
    ensures Whole(store, id, start, length, expected) ==> Whole(store, id, start, count, expected)
    ensures Whole(store, id, start, length, expected) ==> start + length <= 256
  {
  }

  lemma WholeRecordRead(store: Store, id: RecordId, i: nat, parses: seq<byte> -> bool, raw: seq<byte>, next: RecordId)
    requires store.Valid() && store.Index(id) == Some(i) && WellFormedRecord(store, i, parses)
    requires IsRecordOf(store, id, raw, next)
    ensures raw == store.records[i].bytes && parses(raw)
  {
    var bytes := store.records[i].bytes;
    assert bytes[..HEADER_LENGTH + bytes[4]] == bytes;
    PatchedNamesItself(store, i, parses, id);
  }

  /** What was read so far leaves the rest to be read. */
  lemma WholeFromHere(store: Store, id: RecordId, start: nat, length: nat, expected: Option<RecordId>, data: seq<byte>,
                      next: Option<RecordId>, count: nat)
    requires |data| + count <= length && next.Some? && Reads(store, id, start, data, next.value)
    ensures Whole(store, id, start, length, expected) ==> Whole(store, id, start + |data|, count, next)
    ensures Whole(store, id, start, length, expected) ==> start + length <= 256
  {
  }

  /** Everything a proper record is checked for holds. */
  lemma ProperRecordIsWhole(store: Store, id: RecordId, parses: seq<byte> -> bool) returns (i: nat)
    requires store.Valid() && WellFormed(store, parses) && store.Index(id).Some?
    ensures store.Index(id) == Some(i) && WellFormedRecord(store, i, parses)
    ensures Whole(store, id, 0, HEADER_LENGTH, None)
    ensures var bytes := store.records[i].bytes;
            var bodyId := if id == FIRST then FromLittleEndian(bytes[0], bytes[1]) else id;
            && bodyId != FIRST && bodyId != LAST
            && Whole(store, bodyId, HEADER_LENGTH, bytes[4], Some(store.Next(i)))
            && parses(Patched(id, bytes))
  {
    i := store.Index(id).value;
    assert WellFormedRecord(store, i, parses);
    PatchedNamesItself(store, i, parses, id);
  }

  /** How one chunk read ends. */
  datatype Step = Got(chunk: Chunk) | Shrunk | Refused(error: SdrError)

  /** The request leads to a record whose pointer is new. */
  predicate Readable(store: Store, id: RecordId, seen: set<RecordId>) {
    && store.Index(id).Some?
    && var next := store.Next(store.Index(id).value); next != FIRST && next != id && next !in seen
  }

  class FallibleSdrIter {
    const bmc: SdrController
    /** Whether the record parser accepts the bytes. */
    const parses: seq<byte> -> bool

    var source: Option<SdrSource>
    var initialized: bool
    var reservation: Option<Token>
    var reservationSupported: bool
    var nextId: Option<RecordId>
    var seen: set<RecordId>
    var readLimit: nat

    /** How often the read limit was lowered, and the records handed out. */
    ghost var shrinks: nat
    ghost var emitted: seq<seq<byte>>

    ghost predicate Valid()
      reads this, bmc`store, bmc`intact
    {
      && bmc.Valid() && WithinLimit(readLimit, shrinks)
      && LAST !in seen && |emitted| <= |seen|
      && (nextId.Some? ==> |emitted| == |seen|)
      && (!initialized ==> seen == {} && nextId in {None, Some(FIRST)})
      && (initialized && nextId.Some? ==> source.Some? && (reservationSupported <==> reservation.Some?))
      && (Settled(bmc.quiet, bmc.subject, source, bmc.store, parses) && initialized ==>
            InStep(bmc.store, emitted, seen, nextId) && (nextId.Some? ==> InForce(bmc.store, reservation, bmc.intact)))
    }

    constructor (bmc: SdrController, source: Option<SdrSource>, parses: seq<byte> -> bool)
      requires bmc.Valid()
      ensures Valid() && fresh(this) && this.bmc == bmc && this.source == source && this.parses == parses
      ensures nextId == Some(FIRST) && !initialized && seen == {} && emitted == [] && shrinks == 0
    {
      this.bmc, this.source, this.parses := bmc, source, parses;
      initialized, reservation, reservationSupported := false, None, false;
      nextId, seen, readLimit := Some(FIRST), {}, INITIAL_READ_LIMIT;
      shrinks, emitted := 0, [];
      assert Halvings(32) == 1 + Halvings(16) && Halvings(16) == 1 + Halvings(8) && Halvings(8) == 1 + Halvings(4);
    }

    method Reserve() returns (failure: Option<SdrError>)
      requires bmc.Valid() && source.Some?
      modifies this`reservation, bmc`store, bmc`intact, bmc`requests
      ensures bmc.Valid() && (bmc.quiet ==> bmc.store == old(bmc.store))
      ensures failure.None? ==> reservation.Some? && (source == Some(bmc.subject) ==> bmc.intact == reservation)
      ensures failure.Some? ==> failure.value.ReservationFailed? && reservation == old(reservation)
      ensures bmc.quiet && source == Some(bmc.subject) ==> failure.None?
    {
      var reply := bmc.Reserve(source.value);
      match reply
      case Failure(error) => failure := Some(ReservationFailed(error));
      case Success(token) =>
        reservation := Some(token);
        failure := None;
    }

    /** Choose the store if the caller did not, and see what it holds. */
    method Initialize() returns (failure: Option<SdrError>)
      requires bmc.Valid() && !initialized && nextId == Some(FIRST)
      modifies this`source, this`reservation, this`reservationSupported, this`nextId, this`initialized
      modifies bmc`store, bmc`intact, bmc`requests
      ensures bmc.Valid() && (bmc.quiet ==> bmc.store == old(bmc.store))
      ensures old(source).Some? ==> source == old(source)
      ensures failure.None? ==> source.Some? && initialized && (nextId.None? || nextId == Some(FIRST))
      ensures failure.None? && nextId.Some? ==> (reservationSupported <==> reservation.Some?)
      ensures failure.None? && bmc.quiet && source == Some(bmc.subject) ==>
                && (nextId.None? <==> bmc.store.records == [])
                && (nextId.Some? ==> InForce(bmc.store, reservation, bmc.intact))
      ensures failure.Some? ==> !initialized && nextId == Some(FIRST)
      ensures failure.Some? && bmc.quiet ==> source != Some(bmc.subject)
    {
      reservation := None;
      if source.None? {
        var reply := bmc.GetDeviceId();
        if reply.Failure? { return Some(DeviceIdFailed(reply.error)); }
        if reply.value.repositorySupport {
          source := Some(Repository);
        } else if reply.value.providesDeviceSdrs {
          source := Some(Device);
        } else {
          return Some(NoSupportedSource);
        }
      }
      var info := bmc.GetInfo(source.value);
      if info.Failure? {
        return Some(if source == Some(Repository) then RepositoryInfoFailed(info.error) else DeviceInfoFailed(info.error));
      }
      reservationSupported := info.value.reserve;
      if info.value.count == 0 {
        nextId := None;
      } else if reservationSupported {
        failure := Reserve();
        if failure.Some? { return; }
      }
      initialized := true;
      failure := None;
    }

    /** One chunk of exactly `requested` bytes, or a lower read limit, or an error. */
    method ReadChunk(id: RecordId, offset: nat, requested: nat, next: Option<RecordId>) returns (step: Step)
      requires bmc.Valid() && source.Some? && WithinLimit(readLimit, shrinks)
      requires offset <= 255 && 1 <= requested <= readLimit
      modifies this`readLimit, this`shrinks, bmc`store, bmc`intact, bmc`requests
      ensures bmc.Valid() && bmc.Drifted() && WithinLimit(readLimit, shrinks)
      ensures !step.Shrunk? ==> readLimit == old(readLimit)
      ensures step.Shrunk? ==> readLimit < old(readLimit)
      ensures step.Got? ==> |step.chunk.data| == requested && (next.Some? ==> step.chunk.next == next.value)
      ensures step.Got? && bmc.honest && source == Some(bmc.subject) ==>
                && Reads(bmc.store, id, offset, step.chunk.data, step.chunk.next)
                && (offset > 0 && reservation.Some? ==> bmc.intact == reservation)
      ensures bmc.quiet && source == Some(bmc.subject) && InForce(bmc.store, reservation, bmc.intact)
                && Whole(bmc.store, id, offset, requested, next) ==>
                !step.Refused?
    {
      var reply := bmc.Read(source.value, reservation, id, offset, requested);
      if reply.Failure? {
        if AsksForLess(reply.error) && requested > 1 {
          HalvingsGrow(requested / 2, readLimit / 2);
          readLimit, shrinks := Max(requested / 2, 1), shrinks + 1;
          return Shrunk;
        }
        return Refused(ReadFailed(reply.error));
      }
      var chunk := reply.value;
      if |chunk.data| != requested {
        return Refused(IncorrectChunkLength(offset, requested, |chunk.data|));
      }
      if next.Some? && chunk.next != next.value {
        return Refused(NextIdChanged(next.value, chunk.next));
      }
      step := Got(chunk);
    }

    /**
     The bytes `start` to `start + length` of record `id`, in chunks no longer than the read limit.
     With a reservation they all come from the record as it is when the last of them is sent.
     */
    method ReadBytes(id: RecordId, start: nat, length: nat, expected: Option<RecordId>)
      returns (r: Result<(seq<byte>, RecordId), SdrError>)
      requires bmc.Valid() && source.Some? && WithinLimit(readLimit, shrinks) && 0 < length <= 255
      requires start == 0 || start == HEADER_LENGTH
      modifies this`readLimit, this`shrinks, bmc`store, bmc`intact, bmc`requests
      ensures bmc.Valid() && bmc.Drifted() && WithinLimit(readLimit, shrinks)
      ensures r.Ok? ==> |r.value.0| == length && (expected.Some? ==> r.value.1 == expected.value)
      ensures r.Ok? && Tracked(bmc.honest, bmc.quiet, bmc.subject, source, reservation) ==>
                && Reads(bmc.store, id, start, r.value.0, r.value.1)
                && (start > 0 && reservation.Some? ==> bmc.intact == reservation)
      ensures bmc.quiet && source == Some(bmc.subject) && InForce(bmc.store, reservation, bmc.intact)
                && Whole(bmc.store, id, start, length, expected) ==>
                r.Ok?
    {
      hide Reads, Whole, InForce, WellFormed;
      var data: seq<byte> := [];
      var next := expected;
      ghost var tracked := Tracked(bmc.honest, bmc.quiet, bmc.subject, source, reservation);
      while |data| < length
        invariant |data| <= length && WithinLimit(readLimit, shrinks)
        invariant bmc.Valid() && bmc.Drifted()
        invariant expected.Some? ==> next == expected
        invariant if data == [] then next == expected else next.Some?
        invariant tracked && data != [] && (bmc.quiet || |data| == length || bmc.intact == reservation) ==>
                    Reads(bmc.store, id, start, data, next.value)
        invariant tracked && |data| == length && start > 0 && reservation.Some? ==> bmc.intact == reservation
        decreases length - |data|, readLimit
      {
        var offset := start + |data|;
        var requested := Min(length - |data|, readLimit);
        if bmc.quiet && tracked {
          if data == [] {
            WholeAtFirst(bmc.store, id, start, length, expected, requested);
          } else {
            WholeFromHere(bmc.store, id, start, length, expected, data, next, requested);
          }
        }
        if offset > 255 { return Err(OffsetOutOfRange(offset)); }
        var step := ReadChunk(id, offset, requested, next);
        match step
        case Refused(error) => return Err(error);
        case Shrunk =>
        case Got(chunk) =>
          if data != [] && tracked {
            ReadsOn(bmc.store, id, start, data, chunk.data, chunk.next);
          }
          assert [] + chunk.data == chunk.data;
          next := Some(chunk.next);
          data := data + chunk.data;
      }
      r := Ok((data, next.value));
    }

    /** One attempt at a whole record. */
    method ReadRecordOnce(id: RecordId) returns (r: Result<(seq<byte>, RecordId), SdrError>)
      requires bmc.Valid() && source.Some? && WithinLimit(readLimit, shrinks) && id != LAST
      modifies this`readLimit, this`shrinks, bmc`store, bmc`intact, bmc`requests
      ensures bmc.Valid() && bmc.Drifted() && WithinLimit(readLimit, shrinks)
      ensures r.Ok? ==> parses(r.value.0) && r.value.1 != FIRST && r.value.1 != id && r.value.1 !in seen
      ensures r.Ok? && Tracked(bmc.honest, bmc.quiet, bmc.subject, source, reservation) ==>
                IsRecordOf(bmc.store, id, r.value.0, r.value.1)
      ensures Settled(bmc.quiet, bmc.subject, source, bmc.store, parses) && InForce(bmc.store, reservation, bmc.intact)
                && Readable(bmc.store, id, seen) ==>
                r.Ok?
    {
      hide Whole, WellFormed, WellFormedRecord, Reads;
      ghost var settled := Settled(bmc.quiet, bmc.subject, source, bmc.store, parses)
                           && InForce(bmc.store, reservation, bmc.intact) && Readable(bmc.store, id, seen);
      ghost var i := 0;
      if settled {
        i := ProperRecordIsWhole(bmc.store, id, parses);
      }
      var first := ReadBytes(id, 0, HEADER_LENGTH, None);
      if first.Err? { return Err(first.error); }
      var (header, next) := first.value;
      if settled {
        HeaderRead(bmc.store, id, header, next);
        assert header[0] == bmc.store.records[i].bytes[0] && header[1] == bmc.store.records[i].bytes[1];
        assert header[4] == bmc.store.records[i].bytes[4];
      }
      var headerId := FromLittleEndian(header[0], header[1]);
      if id == FIRST && (headerId == FIRST || headerId == LAST) {
        return Err(InvalidFirstRecordId);
      }
      if next == FIRST || next == id || next in seen {
        return Err(RepeatedRecordId(next));
      }
      var bodyId := if id == FIRST then headerId else id;
      var body: seq<byte> := [];
      if header[4] != 0 {
        var rest := ReadBytes(bodyId, HEADER_LENGTH, header[4], Some(next));
        if rest.Err? { return Err(rest.error); }
        body := rest.value.0;
      }
      if Tracked(bmc.honest, bmc.quiet, bmc.subject, source, reservation) {
        HeaderAndBody(bmc.store, id, bodyId, header, body, next);
      }
      var raw := Patched(id, header + body);
      if settled {
        WholeRecordRead(bmc.store, id, i, parses, raw, next);
      }
      if !parses(raw) { return Err(ParseFailed(id)); }
      r := Ok((raw, next));
    }

    /** A record, started over at most three times when the reservation is lost. */
    method ReadRecord(id: RecordId) returns (r: Result<(seq<byte>, RecordId), SdrError>)
      requires bmc.Valid() && source.Some? && WithinLimit(readLimit, shrinks) && id != LAST
      requires reservationSupported <==> reservation.Some?
      modifies this`readLimit, this`shrinks, this`reservation, bmc`store, bmc`intact, bmc`requests
      ensures bmc.Valid() && WithinLimit(readLimit, shrinks) && (reservationSupported <==> reservation.Some?)
      ensures bmc.quiet ==> bmc.store == old(bmc.store)
      ensures r.Ok? ==> parses(r.value.0) && r.value.1 != FIRST && r.value.1 != id && r.value.1 !in seen
      ensures r.Ok? && Tracked(bmc.honest, bmc.quiet, bmc.subject, source, reservation) ==>
                IsRecordOf(bmc.store, id, r.value.0, r.value.1)
      ensures Settled(bmc.quiet, bmc.subject, source, bmc.store, parses)
                && old(InForce(bmc.store, reservation, bmc.intact)) && Readable(bmc.store, id, seen) ==>
                r.Ok? && InForce(bmc.store, reservation, bmc.intact)
    {
      hide IsRecordOf, WellFormed, Readable, WithinLimit;
      var attempt := 0;
      while true
        invariant 0 <= attempt <= MAX_RENEWALS
        invariant bmc.Valid() && WithinLimit(readLimit, shrinks) && (reservationSupported <==> reservation.Some?)
        invariant bmc.quiet ==> bmc.store == old(bmc.store)
        invariant bmc.quiet && source == Some(bmc.subject) && old(InForce(bmc.store, reservation, bmc.intact)) ==>
                    InForce(bmc.store, reservation, bmc.intact)
        decreases MAX_RENEWALS - attempt
      {
        r := ReadRecordOnce(id);
        if r != Err(ReadFailed(Failed(ReservationCancelledOrInvalidId))) || !reservationSupported {
          return;
        }
        if attempt == MAX_RENEWALS {
          return Err(ReservationLost(id));
        }
        var failure := Reserve();
        if failure.Some? {
          return Err(failure.value);
        }
        attempt := attempt + 1;
      }
    }

    /** What a step promises: see `Next`. */
    twostate predicate Stepped(new r: Option<Result<seq<byte>, SdrError>>)
      reads this, bmc`store, bmc`intact
    {
      && (r.None? || r.value.Err? ==> nextId.None? && emitted == old(emitted))
      && (r.Some? && r.value.Ok? ==>
            && nextId.Some? && emitted == old(emitted) + [r.value.value]
            && old(nextId).Some? && old(nextId).value !in old(seen)
            && seen == old(seen) + {old(nextId).value}
            && parses(r.value.value) && (reservationSupported <==> reservation.Some?)
            && (Tracked(bmc.honest, bmc.quiet, bmc.subject, source, reservation) ==>
                  IsRecordOf(bmc.store, old(nextId).value, r.value.value, nextId.value)))
      && (bmc.quiet ==> bmc.store == old(bmc.store))
      && (Settled(bmc.quiet, bmc.subject, source, bmc.store, parses) && old(nextId).Some? ==>
            && (r.Some? ==> r.value.Ok?)
            && (r.None? ==> emitted == Bytes(bmc.store.records)))
    }

    /** The record asked for next, unless it is the end or was asked for before. */
    method Advance() returns (r: Option<Result<seq<byte>, SdrError>>)
      requires Valid() && initialized && nextId.Some?
      modifies this`nextId, this`seen, this`emitted, this`readLimit, this`shrinks, this`reservation
      modifies bmc`store, bmc`intact, bmc`requests
      ensures Valid() && Stepped(r)
    {
      hide WellFormed, WithinLimit, IsRecordOf, Readable;
      var id := nextId.value;
      ghost var settled := Settled(bmc.quiet, bmc.subject, source, bmc.store, parses);
      if settled {
        StepLeadsOn(bmc.store, emitted, seen, id);
      }
      nextId := None;
      if id == LAST { return None; }
      if id in seen { return Some(Err(RepeatedRecordId(id))); }
      seen := seen + {id};
      var record := ReadRecord(id);
      if settled {
        StepDone(bmc.store, emitted, old(seen), id, parses, record.value.0, record.value.1);
      }
      hide InStep, InForce;
      if record.Err? { return Some(Err(record.error)); }
      nextId, emitted := Some(record.value.1), emitted + [record.value.0];
      r := Some(Ok(record.value.0));
    }

    /**
     The next record, an error, or the end. Against any controller: no identifier is asked for twice
     at this level, and after an error or the end only `None` follows and nothing is sent. Against an
     honest one that grants reservations, the record is the one stored at the moment the last request
     was answered. If the records stand still, the next of them comes, and the end after the last.
     */
    method Next() returns (r: Option<Result<seq<byte>, SdrError>>)
      requires Valid()
      modifies this, bmc`store, bmc`intact, bmc`requests
      ensures Valid() && Stepped(r) && (old(source).Some? ==> source == old(source))
      ensures old(nextId).None? ==> r.None? && bmc.requests == old(bmc.requests)
    {
      hide WellFormed, WithinLimit, IsRecordOf, Readable;
      if nextId.None? { return None; }
      if !initialized {
        var failure := Initialize();
        if failure.Some? {
          nextId := None;
          return Some(Err(failure.value));
        }
        if nextId.None? { return None; }
      }
      r := Advance();
    }
  }

  /**
   A whole traversal. Any controller brings it to an end after at most 65,535 records, and any error
   comes last. A store that stands still is handed out whole and in chain order.
   */
  method Traverse(bmc: SdrController, source: Option<SdrSource>, parses: seq<byte> -> bool)
    returns (records: seq<seq<byte>>, failure: Option<SdrError>, iter: FallibleSdrIter)
    requires bmc.Valid()
    modifies bmc`store, bmc`intact, bmc`requests
    ensures |records| <= 65_535 && iter.shrinks <= 5
    ensures forall k | 0 <= k < |records| :: parses(records[k])
    ensures Settled(bmc.quiet, bmc.subject, source, bmc.store, parses) ==>
              failure.None? && records == Bytes(bmc.store.records)
  {
    hide WellFormed, InStep, IsRecordOf, Bytes;
    records, failure := [], None;
    iter := new FallibleSdrIter(bmc, source, parses);
    while true
      invariant fresh(iter) && iter.Valid() && iter.bmc == bmc && iter.parses == parses
      invariant iter.nextId.Some? && records == iter.emitted && (source.Some? ==> iter.source == source)
      invariant forall k | 0 <= k < |records| :: parses(records[k])
      decreases 0x1_0000 - |iter.seen|
    {
      AtMostSoMany(iter.seen, LAST);
      var next := iter.Next();
      if next.None? { break; }
      match next.value
      case Err(error) =>
        failure := Some(error);
        break;
      case Ok(record) =>
        AtMostSoMany(iter.seen, LAST);
        records := records + [record];
    }
    AtMostSoMany(iter.seen, LAST);
  }
}
