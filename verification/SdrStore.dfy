/**
 A store of Sensor Data Records as a controller keeps it, and the controller itself: an
 environment that may answer anything at all, or, when it is `honest`, may change the records
 at any time but then refuses to continue a partial read under an old reservation.
 */
module SdrStore {
  import opened Ipmi

  datatype SdrSource = Repository | Device

  /** A reservation that was granted; zero on the wire stands for none. */
  type Token = x: int | 1 <= x < 0x1_0000 witness 1

  datatype Stored = Stored(id: RecordId, bytes: seq<byte>)

  /** The records in chain order; no two share an identifier, so `position` tells where each one is. */
  datatype Store = Store(records: seq<Stored>, position: map<RecordId, nat>) {
    predicate Valid() {
      forall i | 0 <= i < |records| ::
        && records[i].id != FIRST && records[i].id != LAST
        && records[i].id in position && position[records[i].id] == i
    }

    /** Where a request for `id` leads. */
    function Index(id: RecordId): (i: Option<nat>)
      ensures i.Some? ==> i.value < |records|
    {
      if id == FIRST then if records == [] then None else Some(0)
      else if id in position && position[id] < |records| && records[position[id]].id == id then Some(position[id])
      else None
    }

    /** The next-record pointer that goes with the record at `i`. */
    function Next(i: nat): RecordId {
      if i + 1 < |records| then records[i + 1].id else LAST
    }
  }

  /** The bytes of record `id` from offset `start` on begin with `data`, and its pointer is `next`. */
  predicate Reads(store: Store, id: RecordId, start: nat, data: seq<byte>, next: RecordId) {
    && store.Index(id).Some?
    && var i := store.Index(id).value;
       && start <= |store.records[i].bytes|
       && data <= store.records[i].bytes[start..]
       && next == store.Next(i)
  }

  /** No two records have the same pointer. */
  lemma PointersDiffer(store: Store, i: nat, j: nat)
    requires store.Valid() && i < |store.records| && j < |store.records| && store.Next(i) == store.Next(j)
    ensures i == j
  {
  }

  datatype Reply<+T> = Success(value: T) | Failure(error: IpmiError)

  datatype Chunk = Chunk(next: RecordId, data: seq<byte>)

  datatype StoreInfo = StoreInfo(count: nat, reserve: bool)

  datatype DeviceId = DeviceId(repositorySupport: bool, providesDeviceSdrs: bool)

  /** The completion codes that mean "ask for fewer bytes". */
  predicate AsksForLess(error: IpmiError) {
    && error.Failed?
    && (error.code.CannotReturnNumOfRequestedBytes? || error.code.RequestDataLenInvalid?
        || error.code.RequestDataLengthLimitExceeded?)
  }

  /**
   The management controller. `store` is its record store of kind `subject`; `intact` is the
   reservation under which nothing has changed since it was granted, if there is one. What it says
   about the other kind of store is never restricted. `quiet` also says that the records stand
   still and that a read is refused only for asking for more than `limit` bytes.
   */
  class SdrController {
    const subject: SdrSource
    const honest: bool
    const quiet: bool
    const limit: nat
    var store: Store
    var intact: Option<Token>
    ghost var requests: nat

    ghost predicate Valid()
      reads this`store
    {
      (quiet ==> honest) && (honest ==> store.Valid()) && limit >= 1
    }

    constructor (subject: SdrSource, honest: bool, quiet: bool, limit: nat, store: Store)
      requires (quiet ==> honest) && (honest ==> store.Valid()) && limit >= 1
      ensures Valid() && this.subject == subject && this.honest == honest && this.quiet == quiet
      ensures this.limit == limit && this.store == store && intact == None
    {
      this.subject, this.honest, this.quiet, this.limit := subject, honest, quiet, limit;
      this.store, intact, requests := store, None, 0;
    }

    /** A change of the records, like a reservation made by somebody else, breaks the reservation. */
    twostate predicate Drifted()
      reads this`store, this`intact
    {
      && (honest ==> intact == None || (intact == old(intact) && store == old(store)))
      && (quiet ==> store == old(store) && intact == old(intact))
    }

    method Drift()
      requires Valid()
      modifies this`store, this`intact
      ensures Valid() && Drifted()
    {
      var broken: bool := *;
      var later: Store := *;
      if broken && !quiet {
        intact := None;
        if honest ==> later.Valid() {
          store := later;
        }
      }
    }

    method GetDeviceId() returns (reply: Reply<DeviceId>)
      requires Valid()
      modifies this`store, this`intact, this`requests
      ensures Valid() && Drifted() && requests == old(requests) + 1
      ensures quiet ==> reply.Success?
    {
      Drift();
      requests := requests + 1;
      reply := *;
      if quiet && !reply.Success? {
        reply := Success(DeviceId(false, false));
      }
    }

    method GetInfo(source: SdrSource) returns (reply: Reply<StoreInfo>)
      requires Valid()
      modifies this`store, this`intact, this`requests
      ensures Valid() && Drifted() && requests == old(requests) + 1
      ensures quiet && source == subject ==> reply.Success? && (reply.value.count == 0 <==> store.records == [])
    {
      Drift();
      requests := requests + 1;
      reply := *;
      if quiet && source == subject {
        var reserve: bool := *;
        reply := Success(StoreInfo(|store.records|, reserve));
      }
    }

    method Reserve(source: SdrSource) returns (reply: Reply<Token>)
      requires Valid()
      modifies this`store, this`intact, this`requests
      ensures Valid() && requests == old(requests) + 1 && (quiet ==> store == old(store))
      ensures source == subject && reply.Success? ==> intact == Some(reply.value)
      ensures quiet && source == subject ==> reply.Success?
    {
      Drift();
      requests := requests + 1;
      reply := *;
      if quiet && source == subject && !reply.Success? {
        reply := Success(1);
      }
      if source == subject && reply.Success? {
        intact := Some(reply.value);
      }
    }

    /** A read can be served: the record is there, long enough, and the reservation, if any, is good. */
    predicate Servable(reservation: Option<Token>, id: RecordId, offset: nat, count: nat)
      reads this`store, this`intact
    {
      && store.Index(id).Some?
      && offset + count <= |store.records[store.Index(id).value].bytes|
      && (offset == 0 || reservation == None || reservation == intact)
    }

    method Read(source: SdrSource, reservation: Option<Token>, id: RecordId, offset: nat, count: nat)
      returns (reply: Reply<Chunk>)
      requires Valid() && offset <= 255 && 1 <= count <= 254
      modifies this`store, this`intact, this`requests
      ensures Valid() && Drifted() && requests == old(requests) + 1
      ensures honest && source == subject && reply.Success? ==>
                && Reads(store, id, offset, reply.value.data, reply.value.next)
                && (offset > 0 && reservation.Some? ==> intact == reservation)
      ensures quiet && source == subject && old(Servable(reservation, id, offset, count)) ==>
                if count <= limit then reply.Success? && |reply.value.data| == count
                else !reply.Success? && AsksForLess(reply.error)
    {
      Drift();
      requests := requests + 1;
      reply := *;
      if honest && source == subject && reply.Success? {
        if !Reads(store, id, offset, reply.value.data, reply.value.next)
           || (offset > 0 && reservation.Some? && intact != reservation) {
          reply := Failure(Failed(ReservationCancelledOrInvalidId));
        }
      }
      if quiet && source == subject && Servable(reservation, id, offset, count) {
        if count <= limit {
          var i := store.Index(id).value;
          reply := Success(Chunk(store.Next(i), store.records[i].bytes[offset..offset + count]));
        } else {
          var code: CompletionCode := *;
          reply := Failure(Failed(code));
          if !AsksForLess(reply.error) {
            reply := Failure(Failed(CannotReturnNumOfRequestedBytes));
          }
        }
      }
    }
  }
}
