/**
 The System Event Log as a controller keeps it while somebody reads it, and the
 controller itself: an environment that may answer anything at all, or, when it is
 `honest`, may delete, append and refuse at will but never invents an entry.
 */
module SelLog {
  import opened Ipmi

  datatype Record = Record(id: RecordId, raw: seq<byte>)

  /** A successful Get SEL Entry reply. */
  datatype Entry = Entry(next: RecordId, id: RecordId, raw: seq<byte>)

  datatype Info = Info(entries: nat, reserve: bool, overflow: bool, lastAdd: nat, lastDel: nat)

  /**
   Every record ever added, oldest first, and the positions of those deleted since. Deleting a
   record adds its position to `gone`; adding one extends `history`. No identifier is used twice,
   so `position` can tell where each one stands.
   */
  datatype Log = Log(history: seq<Record>, gone: set<nat>, position: map<RecordId, nat>) {
    predicate Valid() {
      forall i | 0 <= i < |history| ::
        && history[i].id != FIRST && history[i].id != LAST
        && history[i].id in position && position[history[i].id] == i
    }

    /** The positions of the records in the log, the log itself. */
    function Alive(): set<nat> {
      set i | 0 <= i < |history| && i !in gone
    }
  }

  /** Between two requests: some records deleted, some appended, none brought back or altered. */
  predicate Evolves(before: Log, after: Log) {
    before.history <= after.history && before.gone <= after.gone
  }

  /** `next` names the oldest record that is younger than position `i`, or is LAST if there is none. */
  predicate IsSuccessor(log: Log, i: int, next: RecordId)
    requires log.Valid()
  {
    || (next == LAST && forall k | k in log.Alive() :: k <= i)
    || (exists j | j in log.Alive() ::
          && j > i && log.history[j].id == next
          && forall k | k in log.Alive() && k > i :: k >= j)
  }

  /** The entry at position `i` is what a request for `requested` must return. */
  predicate IsEntryAt(log: Log, requested: RecordId, e: Entry, i: nat)
    requires log.Valid()
  {
    && i in log.Alive()
    && log.history[i] == Record(e.id, e.raw)
    && (if requested == FIRST then forall k | k in log.Alive() :: i <= k else e.id == requested)
    && IsSuccessor(log, i, e.next)
  }

  /** A successful reply to a request for `requested` that says only what the log holds. */
  predicate Truthful(log: Log, requested: RecordId, e: Entry)
    requires log.Valid()
  {
    exists i | i in log.Alive() :: IsEntryAt(log, requested, e, i)
  }

  /** The log has something to answer a request for `requested` with. */
  predicate Present(log: Log, requested: RecordId)
    requires log.Valid()
  {
    if requested == FIRST then log.Alive() != {}
    else exists i | i in log.Alive() :: log.history[i].id == requested
  }

  lemma {:induction false} LeastExists(s: set<nat>) returns (least: nat)
    requires s != {}
    ensures least in s && forall k | k in s :: least <= k
  {
    var x :| x in s;
    if s == {x} {
      least := x;
    } else {
      var rest := LeastExists(s - {x});
      least := if rest < x then rest else x;
      assert forall k | k in s :: k == x || k in s - {x};
    }
  }

  /** Whatever is present can be answered truthfully. */
  lemma TruthfulEntryExists(log: Log, requested: RecordId) returns (e: Entry)
    requires log.Valid() && Present(log, requested)
    ensures Truthful(log, requested, e)
  {
    var i: nat;
    if requested == FIRST {
      i := LeastExists(log.Alive());
    } else {
      i :| i in log.Alive() && log.history[i].id == requested;
    }
    var younger := set k | k in log.Alive() && k > i;
    var next := LAST;
    if younger != {} {
      var j := LeastExists(younger);
      next := log.history[j].id;
      assert forall k | k in log.Alive() && k > i :: k in younger;
    } else {
      assert forall k | k in log.Alive() :: k !in younger;
    }
    assert IsSuccessor(log, i, next);
    e := Entry(next, log.history[i].id, log.history[i].raw);
    assert IsEntryAt(log, requested, e, i);
  }

  datatype Reply<+T> = Success(value: T) | Failure(error: IpmiError)

  /** One request and its reply, as seen on the connection. */
  datatype Exchange =
    | GotInfo(info: Reply<Info>)
    | Reserved(token: Reply<u16>)
    | GotEntry(reservation: Option<u16>, requested: RecordId, entry: Reply<Entry>)

  /** An answered Get SEL Entry request. */
  datatype Read = Read(requested: RecordId, entry: Entry)

  /**
   What a sequence of exchanges amounts to: the number of entry reads, the reservation held (the
   last one granted, unless a later Get SEL Info said that the log takes none), whether every read
   carried the reservation held at that time, and the successful reads since the last Get SEL Info.
   */
  datatype Ledger = Ledger(count: nat, held: Option<u16>, proper: bool, pass: seq<Read>) {
    function Then(x: Exchange): Ledger {
      match x
      case GotInfo(info) =>
        Ledger(count, if info.Success? && info.value.entries > 0 && !info.value.reserve then None else held,
               proper, [])
      case Reserved(token) =>
        this.(held := if token.Success? then Some(token.value) else held)
      case GotEntry(reservation, requested, entry) =>
        Ledger(count + 1, held, proper && reservation == held,
               if entry.Success? then pass + [Read(requested, entry.value)] else pass)
    }
  }

  const NO_EXCHANGES: Ledger := Ledger(0, None, true, [])

  ghost function Account(trace: seq<Exchange>): Ledger {
    if trace == [] then NO_EXCHANGES
    else Account(trace[..|trace| - 1]).Then(trace[|trace| - 1])
  }

  lemma AccountExtended(trace: seq<Exchange>, x: Exchange)
    ensures Account(trace + [x]) == Account(trace).Then(x)
  {
    assert (trace + [x])[..|trace|] == trace;
  }

  /** What `proper` means: every Get SEL Entry carries the reservation its sender held at that time. */
  lemma {:induction false} ProperMeansHeld(trace: seq<Exchange>)
    ensures Account(trace).proper <==>
            forall k | 0 <= k < |trace| && trace[k].GotEntry? :: trace[k].reservation == Account(trace[..k]).held
  {
    if trace != [] {
      var shorter := trace[..|trace| - 1];
      ProperMeansHeld(shorter);
      forall k | 0 <= k < |shorter| ensures shorter[..k] == trace[..k] && shorter[k] == trace[k] {}
      assert trace[..|trace| - 1] == shorter;
    }
  }

  /**
   The management controller behind the connection. `honest` limits what a success may say;
   `quiet` also says that the log stands still and that only absent records are refused.
   */
  class Controller {
    const honest: bool
    const quiet: bool
    var log: Log
    ghost var trace: seq<Exchange>

    ghost predicate Valid()
      reads this`log
    {
      (quiet ==> honest) && (honest ==> log.Valid())
    }

    constructor (honest: bool, quiet: bool, log: Log)
      requires quiet ==> honest
      requires honest ==> log.Valid()
      ensures Valid() && this.honest == honest && this.quiet == quiet && this.log == log && trace == []
    {
      this.honest, this.quiet, this.log, this.trace := honest, quiet, log, [];
    }

    /** Whatever other parties do to the log before the next request is served. */
    method Drift()
      requires Valid()
      modifies this`log
      ensures Valid()
      ensures honest ==> Evolves(old(log), log)
      ensures quiet ==> log == old(log)
    {
      var later: Log := *;
      if !quiet && (honest ==> later.Valid() && Evolves(log, later)) {
        log := later;
      }
    }

    method GetInfo() returns (reply: Reply<Info>)
      requires Valid()
      modifies this`log, this`trace
      ensures Valid() && trace == old(trace) + [GotInfo(reply)]
      ensures honest ==> Evolves(old(log), log)
      ensures honest && reply.Success? ==> reply.value.entries == |log.Alive()|
      ensures quiet ==> log == old(log) && reply.Success?
    {
      Drift();
      reply := *;
      if quiet && !reply.Success? {
        reply := Success(Info(0, true, false, 0, 0));
      }
      if honest && reply.Success? {
        reply := Success(reply.value.(entries := |log.Alive()|));
      }
      trace := trace + [GotInfo(reply)];
    }

    method Reserve() returns (reply: Reply<u16>)
      requires Valid()
      modifies this`log, this`trace
      ensures Valid() && trace == old(trace) + [Reserved(reply)]
      ensures honest ==> Evolves(old(log), log)
      ensures quiet ==> log == old(log) && reply.Success?
    {
      Drift();
      reply := *;
      if quiet && !reply.Success? {
        reply := Success(1);
      }
      trace := trace + [Reserved(reply)];
    }

    method GetEntry(reservation: Option<u16>, requested: RecordId) returns (reply: Reply<Entry>)
      requires Valid()
      modifies this`log, this`trace
      ensures Valid() && trace == old(trace) + [GotEntry(reservation, requested, reply)]
      ensures honest ==> Evolves(old(log), log)
      ensures honest && reply.Success? ==> Truthful(log, requested, reply.value)
      ensures quiet ==> log == old(log) && (Present(log, requested) ==> reply.Success?)
    {
      Drift();
      reply := *;
      if honest && reply.Success? && !Truthful(log, requested, reply.value) {
        reply := Failure(Connection);
      }
      if quiet && Present(log, requested) {
        ghost var witnessed := TruthfulEntryExists(log, requested);
        var e :| Truthful(log, requested, e);
        reply := Success(e);
      }
      trace := trace + [GotEntry(reservation, requested, reply)];
    }
  }
}
