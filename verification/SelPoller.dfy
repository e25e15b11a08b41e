/**
 Polling the System Event Log: compare successive complete scans and report the difference as
 a batch. A batch is an exact patch from the previous scan to the new one.
 */
module SelPoller {
  import opened Ipmi
  import opened SelLog
  import opened Sel

  datatype PollError =
    | InvalidLimit
    | InvalidInterval
    | PollCancelled
    | PollDeadlineExpired
    | Traverse(error: SelError)
    | InfoAfterScan(failure: IpmiError)
    | UnstableScan(expected: nat, observed: nat)

  datatype Batch = Batch(
    entries: seq<Entry>, missingIds: seq<RecordId>, wrapped: bool, overflow: bool, continuityLost: bool)

  type Contents = map<RecordId, seq<byte>>

  // ----- The difference of two scans

  /** A scan as a map from identifier to raw bytes; a repeated identifier keeps its last bytes. */
  function ContentsOf(scan: seq<Entry>): Contents {
    if scan == [] then map[] else ContentsOf(AllButLast(scan))[Last(scan).id := Last(scan).raw]
  }

  /** `e` was not in the old scan, or not with these bytes. */
  predicate IsChange(prior: Contents, e: Entry) {
    !(e.id in prior && prior[e.id] == e.raw)
  }

  /** The entries of the scan that are new or replaced, in scan order. */
  function Changes(prior: Contents, scan: seq<Entry>): seq<Entry> {
    if scan == [] then []
    else Changes(prior, AllButLast(scan)) + if IsChange(prior, Last(scan)) then [Last(scan)] else []
  }

  /** The identifiers of the scan that are absent now, in scan order. */
  function Missing(scan: seq<Entry>, now: Contents): seq<RecordId> {
    if scan == [] then []
    else Missing(AllButLast(scan), now) + if Last(scan).id in now then [] else [Last(scan).id]
  }

  /** The position after the first entry with identifier `id`, or zero if there is none. */
  function PositionAfter(scan: seq<Entry>, id: RecordId): (after: nat)
    ensures after <= |scan|
    ensures after > 0 ==> scan[after - 1].id == id && forall k | 0 <= k < after - 1 :: scan[k].id != id
    ensures after == 0 ==> forall k | 0 <= k < |scan| :: scan[k].id != id
  {
    if scan == [] then 0
    else if scan[0].id == id then 1
    else
      var rest := PositionAfter(scan[1..], id);
      assert forall k | 0 < k < |scan| :: scan[k] == scan[1..][k - 1];
      if rest == 0 then 0 else rest + 1
  }

  /** An identifier decreased after the last record of the old scan. */
  predicate Wrapped(prior: seq<Entry>, scan: seq<Entry>) {
    && prior != []
    && exists k | PositionAfter(scan, Last(prior).id) <= k < |scan| ::
         IsChange(ContentsOf(prior), scan[k]) && scan[k].id < Last(prior).id
  }

  function Diff(prior: seq<Entry>, priorInfo: Info, scan: seq<Entry>, info: Info): Batch {
    var entries := Changes(ContentsOf(prior), scan);
    var missingIds := Missing(prior, ContentsOf(scan));
    Batch(entries, missingIds, Wrapped(prior, scan), info.overflow,
          missingIds != [] || priorInfo.lastDel != info.lastDel || info.overflow
          || (entries == [] && priorInfo.lastAdd != info.lastAdd))
  }

  /** What a consumer does with a batch: drop what is missing, overlay what is new. */
  function Patch(base: Contents, batch: Batch): Contents {
    (base - set id | id in batch.missingIds) + ContentsOf(batch.entries)
  }

  function PatchAll(base: Contents, batches: seq<Batch>): Contents {
    if batches == [] then base else Patch(PatchAll(base, AllButLast(batches)), Last(batches))
  }

  lemma {:induction false} ContentsHasExactlyTheEntries(scan: seq<Entry>, k: nat)
    requires DistinctIds(scan)
    ensures ContentsOf(scan).Keys == Ids(scan)
    ensures k < |scan| ==> scan[k].id in ContentsOf(scan) && ContentsOf(scan)[scan[k].id] == scan[k].raw
  {
    if scan != [] {
      ContentsHasExactlyTheEntries(AllButLast(scan), k);
      if k < |scan| - 1 {
        IdsMeaning(AllButLast(scan));
        assert AllButLast(scan)[k] == scan[k];
      }
    }
  }

  /** An identifier is among the reported entries exactly if its bytes are new, and with its new bytes. */
  lemma {:induction false} ChangesAt(prior: Contents, scan: seq<Entry>, id: RecordId)
    requires DistinctIds(scan)
    ensures var now, reported := ContentsOf(scan), ContentsOf(Changes(prior, scan));
            && (id in reported <==> id in now && !(id in prior && prior[id] == now[id]))
            && (id in reported ==> reported[id] == now[id])
  {
    if scan != [] {
      var init, e := AllButLast(scan), Last(scan);
      ChangesAt(prior, init, id);
      ContentsHasExactlyTheEntries(init, 0);
      var changes := Changes(prior, init);
      if IsChange(prior, e) {
        assert AllButLast(changes + [e]) == changes && Last(changes + [e]) == e;
      } else {
        assert Changes(prior, scan) == changes;
        if id == e.id {
          assert id !in ContentsOf(init);
        }
      }
    }
  }

  lemma ChangesAreExact(prior: Contents, scan: seq<Entry>)
    requires DistinctIds(scan)
    ensures var now, reported := ContentsOf(scan), ContentsOf(Changes(prior, scan));
            && (forall id :: id in reported <==> id in now && !(id in prior && prior[id] == now[id]))
            && (forall id | id in reported :: reported[id] == now[id])
  {
    forall id ensures var now, reported := ContentsOf(scan), ContentsOf(Changes(prior, scan));
                      && (id in reported <==> id in now && !(id in prior && prior[id] == now[id]))
                      && (id in reported ==> reported[id] == now[id])
    {
      ChangesAt(prior, scan, id);
    }
  }

  lemma {:induction false} MissingAreExact(scan: seq<Entry>, now: Contents)
    ensures forall id :: id in Missing(scan, now) <==> id in ContentsOf(scan) && id !in now
  {
    if scan != [] {
      MissingAreExact(AllButLast(scan), now);
    }
  }

  /** A batch turns the old contents into the new ones. */
  lemma BatchIsExactPatch(prior: seq<Entry>, priorInfo: Info, scan: seq<Entry>, info: Info)
    requires DistinctIds(scan)
    ensures Patch(ContentsOf(prior), Diff(prior, priorInfo, scan, info)) == ContentsOf(scan)
  {
    ChangesAreExact(ContentsOf(prior), scan);
    MissingAreExact(prior, ContentsOf(scan));
    hide ContentsOf, Changes, Missing, Wrapped, DistinctIds;
  }

  /** A batch that says nothing changed and nothing was lost is right: the contents are the same. */
  lemma SilenceIsSafe(prior: seq<Entry>, priorInfo: Info, scan: seq<Entry>, info: Info)
    requires DistinctIds(scan)
    requires var batch := Diff(prior, priorInfo, scan, info); batch.entries == [] && !batch.continuityLost
    ensures ContentsOf(scan) == ContentsOf(prior)
  {
    BatchIsExactPatch(prior, priorInfo, scan, info);
  }

  /** A record replaced or removed is never silent, unless an identical one took its identifier. */
  lemma LossIsReported(prior: seq<Entry>, priorInfo: Info, scan: seq<Entry>, info: Info, id: RecordId)
    requires DistinctIds(scan) && id in ContentsOf(prior)
    requires id !in ContentsOf(scan) || ContentsOf(scan)[id] != ContentsOf(prior)[id]
    ensures var batch := Diff(prior, priorInfo, scan, info);
            if id in ContentsOf(scan) then id in ContentsOf(batch.entries)
            else id in batch.missingIds && batch.continuityLost
  {
    ChangesAreExact(ContentsOf(prior), scan);
    MissingAreExact(prior, ContentsOf(scan));
  }

  lemma {:induction false} ChangesContain(prior: Contents, scan: seq<Entry>, k: nat)
    requires k < |scan| && IsChange(prior, scan[k])
    ensures scan[k] in Changes(prior, scan)
  {
    if k < |scan| - 1 {
      ChangesContain(prior, AllButLast(scan), k);
    }
  }

  lemma {:induction false} ChangesAreOfTheScan(prior: Contents, scan: seq<Entry>, e: Entry)
    requires e in Changes(prior, scan)
    ensures exists k :: 0 <= k < |scan| && scan[k] == e && IsChange(prior, e)
  {
    if !(e == Last(scan) && IsChange(prior, e)) {
      ChangesAreOfTheScan(prior, AllButLast(scan), e);
      var k :| 0 <= k < |scan| - 1 && AllButLast(scan)[k] == e;
      assert scan[k] == e;
    }
  }

  /**
   A batch that says the identifiers wrapped reports an entry with a smaller identifier than the last one
   known; if that one is gone from the log, it says so exactly then.
   */
  lemma WrappedIsReported(prior: seq<Entry>, priorInfo: Info, scan: seq<Entry>, info: Info)
    requires prior != []
    ensures var batch, last := Diff(prior, priorInfo, scan, info), Last(prior).id;
            && (batch.wrapped ==> exists e | e in batch.entries :: e.id < last)
            && (PositionAfter(scan, last) == 0 ==> (batch.wrapped <==> exists e | e in batch.entries :: e.id < last))
  {
    var batch, last, known := Diff(prior, priorInfo, scan, info), Last(prior).id, ContentsOf(prior);
    if batch.wrapped {
      var k :| PositionAfter(scan, last) <= k < |scan| && IsChange(known, scan[k]) && scan[k].id < last;
      ChangesContain(known, scan, k);
    }
    if e :| e in batch.entries && e.id < last {
      ChangesAreOfTheScan(known, scan, e);
    }
  }

  // ----- The poller

  /**
   A scan of an honest controller's log: records in log order, standing at the positions `order`,
   among them every record below `horizon` that is still in the log, and as many as the log holds.
   */
  ghost predicate IsScan(log: Log, scan: seq<Entry>, order: seq<nat>, startLength: nat, horizon: nat)
    requires log.Valid()
  {
    && InLogOrder(log, scan, order)
    && startLength <= horizon <= |log.history|
    && (order != [] ==> Last(order) < horizon)
    && Covered(log, Ids(scan), horizon)
    && |scan| == |log.Alive()|
  }

  lemma {:induction false} IdsStandAtPositions(log: Log, scan: seq<Entry>, order: seq<nat>, j: nat)
    requires log.Valid() && InLogOrder(log, scan, order)
    requires j < |log.history| && log.history[j].id in Ids(scan)
    ensures j in Positions(order)
  {
    if log.history[j].id != Last(scan).id {
      IdsStandAtPositions(log, AllButLast(scan), AllButLast(order), j);
    } else {
      assert log.history[Last(order)].id == log.history[j].id;
    }
  }

  /** The scan is the log itself exactly if no record was added after the end of the scan. */
  lemma ScanIsTheLogIff(log: Log, scan: seq<Entry>, order: seq<nat>, startLength: nat, horizon: nat)
    requires log.Valid() && IsScan(log, scan, order, startLength, horizon)
    ensures Positions(order) == log.Alive() <==> forall j | j in log.Alive() :: j < horizon
  {
    PositionsCount(log, scan, order);
    if forall j | j in log.Alive() :: j < horizon {
      forall j | j in log.Alive() ensures j in Positions(order) {
        IdsStandAtPositions(log, scan, order, j);
      }
      SubsetOfSameSize(log.Alive(), Positions(order));
    }
  }

  lemma SubsetOfSameSize(small: set<nat>, large: set<nat>)
    requires small <= large && |small| == |large|
    ensures small == large
  {
    assert |large| == |small| + |large - small|;
  }

  /**
   Equal counts do not make a scan the log: delete a record already read, add another, and the
   count taken after the scan still agrees.
   */
  lemma EqualCountsCanHideAChange() returns (log: Log, scan: seq<Entry>, order: seq<nat>)
    ensures log.Valid() && IsScan(log, scan, order, 2, 2)
    ensures Positions(order) != log.Alive()
  {
    log := Log([Record(1, []), Record(2, []), Record(3, [])], {0}, map[1 := 0, 2 := 1, 3 := 2]);
    var one, two := Entry(2, 1, []), Entry(LAST, 2, []);
    LogOrderExtended(log, [], [], one, 0);
    LogOrderExtended(log, [one], [0], two, 1);
    IdsExtended([], one);
    IdsExtended([one], two);
    scan, order := [one] + [two], [0] + [1];
    assert [] + [one] == [one] && [] + [0] == [0];
    assert log.Alive() == {1, 2};
    assert Ids(scan) == {1, 2};
    assert 2 in log.Alive();
    PositionsCount(log, scan, order);
  }

  /**
   One complete scan. Against any controller a successful scan has distinct identifiers, as many as
   Get SEL Info counted afterwards. Against an honest one it holds, in log order, every record older
   than the end of the scan that is still there; it is the log itself exactly when nothing was added
   between the last entry read and the count.
   */
  method Scan(bmc: Controller, maxEntries: nat) returns (r: Result<(seq<Entry>, Info), PollError>, ghost trail: Trail)
    requires bmc.Valid()
    modifies bmc`log, bmc`trace
    ensures bmc.Valid() && trail.startLength == old(|bmc.log.history|)
    ensures r.Ok? ==> DistinctIds(r.value.0) && |r.value.0| == r.value.1.entries <= maxEntries
    ensures r.Ok? && bmc.honest ==>
              trail.horizon.Some? && IsScan(bmc.log, r.value.0, trail.order, trail.startLength, trail.horizon.value)
    ensures r.Err? && r.error.Traverse? && bmc.honest ==> !AccusesController(r.error.error)
  {
    hide Faithful, Steady, Accounted, OnChain, Collected, Ids, DistinctIds, Account;
    var entries: seq<Entry> := [];
    var iter := new SelIter(bmc, maxEntries, true);
    trail := iter.trail;
    while true
      invariant iter.Valid() && fresh(iter) && iter.bmc == bmc && iter.maxEntries == maxEntries
      invariant iter.trail.emitted == entries && trail == iter.trail && trail.startLength == old(|bmc.log.history|)
      invariant !iter.finished
      decreases iter.remainingReads
    {
      var stop := iter.CheckBudget();
      if stop.Some? {
        return Err(if stop.value.Cancelled? then PollCancelled else PollDeadlineExpired), trail;
      }
      var next := iter.Next();
      trail := iter.trail;
      if next.None? { break; }
      match next.value {
        case Ok(entry) =>
          stop := iter.CheckBudget();
          if stop.Some? {
            return Err(if stop.value.Cancelled? then PollCancelled else PollDeadlineExpired), trail;
          }
          entries := entries + [entry];
        case Err(error) =>
          return Err(if error.Cancelled? then PollCancelled
                     else if error.DeadlineExpired? then PollDeadlineExpired else Traverse(error)), trail;
      }
    }
    r := Recount(bmc, iter, entries);
  }

  /** After the last entry, the log must count as many records as were read. */
  method Recount(bmc: Controller, iter: SelIter, entries: seq<Entry>) returns (r: Result<(seq<Entry>, Info), PollError>)
    requires iter.Valid() && iter.finished && iter.bmc == bmc && iter.trail.horizon.Some?
    requires entries == iter.trail.emitted
    modifies bmc`log, bmc`trace
    ensures bmc.Valid() && (r.Err? ==> !r.error.Traverse?)
    ensures r.Ok? ==> r.value.0 == iter.trail.emitted && DistinctIds(r.value.0)
    ensures r.Ok? ==> |r.value.0| == r.value.1.entries <= iter.maxEntries
    ensures r.Ok? && bmc.honest ==>
              IsScan(bmc.log, r.value.0, iter.trail.order, iter.trail.startLength, iter.trail.horizon.value)
  {
    hide Account;
    ghost var log := bmc.log;
    var stop := iter.CheckBudget();
    if stop.None? {
      var info := bmc.GetInfo();
      if bmc.honest {
        FaithSurvivesChange(log, bmc.log, iter.trail, iter.seen, iter.scanned, None, iter.maxEntries);
      }
      stop := iter.CheckBudget();
      if stop.None? {
        if info.Failure? { return Err(InfoAfterScan(info.error)); }
        if info.value.entries != |entries| {
          return Err(UnstableScan(info.value.entries, |entries|));
        }
        return Ok((entries, info.value));
      }
    }
    r := Err(if stop.value.Cancelled? then PollCancelled else PollDeadlineExpired);
  }

  class SelPoller {
    const bmc: Controller
    const maxEntries: nat
    var previous: seq<Entry>
    var info: Info

    /** The contents when the poller was created, and every batch computed since. */
    ghost var baseline: Contents
    ghost var batches: seq<Batch>

    /** The batches so far, applied to the baseline, give the latest scan. */
    ghost predicate Valid()
      reads this, bmc`log
    {
      && bmc.Valid() && 1 <= maxEntries <= 65_534
      && DistinctIds(previous) && |previous| == info.entries <= maxEntries
      && PatchAll(baseline, batches) == ContentsOf(previous)
    }

    constructor (bmc: Controller, maxEntries: nat, baseline: seq<Entry>, info: Info)
      requires bmc.Valid() && 1 <= maxEntries <= 65_534
      requires DistinctIds(baseline) && |baseline| == info.entries <= maxEntries
      ensures Valid() && fresh(this) && this.bmc == bmc && this.maxEntries == maxEntries
      ensures previous == baseline && this.baseline == ContentsOf(baseline) && batches == []
    {
      this.bmc, this.maxEntries, this.previous, this.info := bmc, maxEntries, baseline, info;
      this.baseline, this.batches := ContentsOf(baseline), [];
    }

    /** Establish a baseline, without reporting what it holds. */
    static method Create(bmc: Controller, maxEntries: nat) returns (r: Result<SelPoller, PollError>)
      requires bmc.Valid()
      modifies bmc`log, bmc`trace
      ensures bmc.Valid()
      ensures maxEntries == 0 || maxEntries > 65_534 ==> r == Err(InvalidLimit) && bmc.trace == old(bmc.trace)
      ensures r.Ok? ==> r.value.Valid() && fresh(r.value) && r.value.bmc == bmc && r.value.batches == []
    {
      if maxEntries == 0 || maxEntries > 65_534 {
        return Err(InvalidLimit);
      }
      var scan, trail := Scan(bmc, maxEntries);
      if scan.Err? {
        return Err(scan.error);
      }
      var poller := new SelPoller(bmc, maxEntries, scan.value.0, scan.value.1);
      r := Ok(poller);
    }

    /** One scan: a batch that patches the old contents into the new, or the baseline untouched. */
    method PollOnce() returns (r: Result<Batch, PollError>)
      requires Valid()
      modifies this`previous, this`info, this`batches, bmc`log, bmc`trace
      ensures Valid()
      ensures r.Err? ==> previous == old(previous) && info == old(info) && batches == old(batches)
      ensures r.Ok? ==> batches == old(batches) + [r.value]
      ensures r.Ok? ==> r.value == Diff(old(previous), old(info), previous, info)
      ensures r.Ok? ==> ContentsOf(previous) == Patch(ContentsOf(old(previous)), r.value)
    {
      hide DistinctIds;
      var scan, trail := Scan(bmc, maxEntries);
      if scan.Err? {
        return Err(scan.error);
      }
      var (current, now) := scan.value;
      var batch := Diff(previous, info, current, now);
      BatchIsExactPatch(previous, info, current, now);
      assert AllButLast(batches + [batch]) == batches;
      previous, info, batches := current, now, batches + [batch];
      r := Ok(batch);
    }

    /**
     Poll until something is reported. The clock `now` and the deadline are in ticks; every wait
     takes at least the interval. The batch returned patches what the caller knew when it called,
     although quiet scans in between were dropped.
     */
    method WaitNext(interval: nat, start: nat, deadline: nat) returns (r: Result<Batch, PollError>, now: nat)
      requires Valid()
      modifies this`previous, this`info, this`batches, bmc`log, bmc`trace
      ensures Valid()
      ensures interval == 0 ==> r == Err(InvalidInterval) && previous == old(previous)
      ensures r.Err? ==> ContentsOf(previous) == ContentsOf(old(previous))
      ensures r.Ok? ==> r.value.entries != [] || r.value.continuityLost
      ensures r.Ok? ==> ContentsOf(previous) == Patch(ContentsOf(old(previous)), r.value)
    {
      hide DistinctIds, ContentsOf, Patch, PatchAll;
      now := start;
      if interval == 0 {
        return Err(InvalidInterval), now;
      }
      while true
        invariant Valid() && ContentsOf(previous) == ContentsOf(old(previous))
        decreases if now <= deadline then deadline - now + 1 else 0
      {
        ghost var known, since := previous, info;
        var batch := PollOnce();
        if batch.Err? {
          return Err(batch.error), now;
        }
        if batch.value.entries != [] || batch.value.continuityLost {
          return Ok(batch.value), now;
        }
        SilenceIsSafe(known, since, previous, info);
        var elapsed: nat :| 0 <= elapsed;
        now := now + interval + elapsed;
        var cancelled: bool := *;
        if cancelled {
          return Err(PollCancelled), now;
        }
        if now >= deadline {
          return Err(PollDeadlineExpired), now;
        }
      }
    }
  }
}
