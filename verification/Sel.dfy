/**
 The bounded, live traversal of the System Event Log: follows next-record pointers,
 renews cancelled reservations, rescans after deletions, and never repeats a record.
 */
module Sel {
  import opened Ipmi
  import opened SelLog

  datatype SelError =
    | InfoFailed(error: IpmiError)
    | ReservationFailed(error: IpmiError)
    | EntryFailed(error: IpmiError)
    | EntryLimit(limit: nat)
    | ReadLimit
    | InvalidRecordId(id: RecordId)
    | RecordChanged(requested: RecordId, received: RecordId)
    | RecordCycle(id: RecordId)
    | Cancelled
    | DeadlineExpired

  const MAX_RESTARTS: nat := 2
  const MAX_RENEWALS: nat := 2
  const READ_CAP: nat := 65_536

  /** Upper limit on Get SEL Entry requests for one traversal. */
  function ReadBudget(maxEntries: nat): nat {
    Min(4 * maxEntries + 4, READ_CAP)
  }

  // ----- One pass over the log

  /**
   The state of a pass that has read every record still present below position `pos` and will
   ask for `next`: nothing at `pos` or above is in `scanned`.
   */
  ghost predicate PassInvariant(log: Log, scanned: set<RecordId>, next: RecordId, pos: nat)
    requires log.Valid()
  {
    && pos <= |log.history|
    && Covered(log, scanned, pos)
    && (forall k | pos <= k < |log.history| :: log.history[k].id !in scanned)
    && (next == FIRST ==> pos == 0)
    && (next != FIRST && next != LAST ==> pos < |log.history| && log.history[pos].id == next)
  }

  /** Everything still present below `pos` has been handed out. */
  ghost predicate Covered(log: Log, seen: set<RecordId>, pos: nat)
    requires log.Valid()
  {
    forall j | j in log.Alive() && j < pos :: log.history[j].id in seen
  }

  /** Every one of the identifiers belongs to a record ever added. */
  ghost predicate Recorded(log: Log, ids: set<RecordId>) {
    forall id | id in ids :: exists k :: 0 <= k < |log.history| && log.history[k].id == id
  }

  /** Deletions and additions elsewhere do not disturb a pass. */
  lemma PassSurvivesChange(before: Log, after: Log, scanned: set<RecordId>, next: RecordId, pos: nat)
    requires before.Valid() && after.Valid() && Evolves(before, after)
    requires PassInvariant(before, scanned, next, pos) && Recorded(before, scanned)
    ensures PassInvariant(after, scanned, next, pos)
  {
    forall m | 0 <= m < |before.history| ensures after.history[m] == before.history[m] {}
  }

  /**
   A truthful reply in the middle of a pass is never mistaken for a protocol violation, and
   reading it moves the pass on past everything older.
   */
  lemma TruthfulReplyAdvances(log: Log, scanned: set<RecordId>, next: RecordId, pos: nat, e: Entry, i: nat)
    returns (later: nat)
    requires log.Valid() && PassInvariant(log, scanned, next, pos) && next != LAST
    requires IsEntryAt(log, next, e, i)
    ensures e.id != FIRST && e.id != LAST && (next != FIRST ==> e.id == next && i == pos)
    ensures e.next != FIRST && e.next != e.id && e.id !in scanned
    ensures pos <= i < later
    ensures PassInvariant(log, scanned + {e.id}, e.next, later)
    ensures if e.next == LAST then later == |log.history| else later in log.Alive()
    ensures forall j | j in log.Alive() && pos <= j < later :: j == i
  {
    if e.next == LAST && forall k | k in log.Alive() :: k <= i {
      later := |log.history|;
    } else {
      var j :| j in log.Alive() && j > i && log.history[j].id == e.next
               && forall k | k in log.Alive() && k > i :: k >= j;
      later := j;
    }
    assert log.history[i].id == e.id;
    if next == FIRST {
      assert forall k | k in log.Alive() :: i <= k;
    }
    forall j | j in log.Alive() && pos <= j < later ensures j == i {}
  }

  // ----- What a reader may conclude from the replies alone

  function AllButLast<T>(s: seq<T>): (init: seq<T>)
    requires s != []
    ensures |init| == |s| - 1
  {
    s[..|s| - 1]
  }

  function Last<T>(s: seq<T>): T
    requires s != []
  {
    s[|s| - 1]
  }

  /** The reads follow the pointers from FIRST, meet no record twice, and the last pointer is `next`. */
  ghost predicate IsChain(pass: seq<Read>, next: RecordId) {
    if pass == [] then next == FIRST
    else
      var read := Last(pass);
      && IsChain(AllButLast(pass), read.requested)
      && read.entry.id != FIRST && read.entry.id != LAST
      && (read.requested != FIRST ==> read.entry.id == read.requested)
      && read.entry.id !in PassIds(AllButLast(pass))
      && read.entry.next != FIRST && next == read.entry.next
  }

  ghost function PassIds(pass: seq<Read>): set<RecordId> {
    if pass == [] then {} else PassIds(AllButLast(pass)) + {Last(pass).entry.id}
  }

  /** What a chain is, read by read: each request but the first asks for what the previous reply named. */
  lemma {:induction false} ChainLinks(pass: seq<Read>, next: RecordId, j: nat, k: nat)
    requires IsChain(pass, next) && j < k < |pass|
    ensures pass[0].requested == FIRST
    ensures pass[k].requested == pass[k - 1].entry.next != FIRST && pass[k].entry.id == pass[k].requested
    ensures pass[j].entry.id != pass[k].entry.id && pass[j].entry.id in PassIds(pass)
    ensures next == pass[|pass| - 1].entry.next
  {
    var init := AllButLast(pass);
    PassIdsHasEach(pass, j);
    if k < |init| {
      ChainLinks(init, Last(pass).requested, j, k);
    } else {
      PassIdsHasEach(init, j);
      assert init[|init| - 1] == pass[k - 1] && init[0] == pass[0];
      if |init| > 1 {
        ChainLinks(init, Last(pass).requested, 0, 1);
      } else {
        assert AllButLast(init) == [];
        assert IsChain(AllButLast(init), Last(init).requested);
        assert Last(init).requested == FIRST;
      }
    }
  }

  lemma {:induction false} PassIdsHasEach(pass: seq<Read>, k: nat)
    requires k < |pass|
    ensures pass[k].entry.id in PassIds(pass)
  {
    if k < |pass| - 1 {
      PassIdsHasEach(AllButLast(pass), k);
    }
  }

  lemma ChainExtended(pass: seq<Read>, id: RecordId, e: Entry)
    requires IsChain(pass, id) && e.id !in PassIds(pass)
    requires e.id != FIRST && e.id != LAST && e.next != FIRST && (id != FIRST ==> e.id == id)
    ensures IsChain(pass + [Read(id, e)], e.next)
    ensures PassIds(pass + [Read(id, e)]) == PassIds(pass) + {e.id}
  {
    var longer := pass + [Read(id, e)];
    assert longer != [] && Last(longer) == Read(id, e);
    assert AllButLast(longer) == pass;
    assert PassIds(longer) == PassIds(pass) + {e.id};
    assert IsChain(AllButLast(longer), Last(longer).requested);
  }

  // ----- The entries handed out

  ghost function Ids(entries: seq<Entry>): set<RecordId> {
    if entries == [] then {} else Ids(AllButLast(entries)) + {Last(entries).id}
  }

  ghost predicate DistinctIds(entries: seq<Entry>) {
    entries == [] || (DistinctIds(AllButLast(entries)) && Last(entries).id !in Ids(AllButLast(entries)))
  }

  lemma IdsExtended(entries: seq<Entry>, e: Entry)
    ensures Ids(entries + [e]) == Ids(entries) + {e.id}
    ensures DistinctIds(entries) && e.id !in Ids(entries) ==> DistinctIds(entries + [e])
  {
    var longer := entries + [e];
    assert longer != [] && Last(longer) == e;
    assert AllButLast(longer) == entries;
  }

  lemma {:induction false} IdsMeaning(entries: seq<Entry>)
    ensures forall id :: id in Ids(entries) <==> exists k :: 0 <= k < |entries| && entries[k].id == id
    ensures DistinctIds(entries) <==> forall j, k | 0 <= j < k < |entries| :: entries[j].id != entries[k].id
  {
    if entries != [] {
      var init := AllButLast(entries);
      IdsMeaning(init);
      forall id ensures id in Ids(entries) <==> exists k :: 0 <= k < |entries| && entries[k].id == id {
        if id in Ids(init) {
          var k :| 0 <= k < |init| && init[k].id == id;
          assert entries[k].id == id;
        }
        assert entries[|entries| - 1].id == Last(entries).id;
      }
      assert forall k | 0 <= k < |init| :: entries[k] == init[k];
    }
  }

  /** The entries are records of the log, in log order: `order[k]` is where entry `k` stands. */
  ghost predicate InLogOrder(log: Log, entries: seq<Entry>, order: seq<nat>) {
    && |order| == |entries|
    && (order != [] ==>
          && Last(order) < |log.history|
          && log.history[Last(order)] == Record(Last(entries).id, Last(entries).raw)
          && (|order| > 1 ==> order[|order| - 2] < Last(order))
          && InLogOrder(log, AllButLast(entries), AllButLast(order)))
  }

  ghost function Positions(order: seq<nat>): set<nat> {
    if order == [] then {} else Positions(AllButLast(order)) + {Last(order)}
  }

  lemma {:induction false} LogOrderMeaning(log: Log, entries: seq<Entry>, order: seq<nat>, j: nat, k: nat)
    requires InLogOrder(log, entries, order) && j <= k < |order|
    ensures order[j] in Positions(order) && (j < k ==> order[j] < order[k])
    ensures order[k] < |log.history| && log.history[order[k]] == Record(entries[k].id, entries[k].raw)
  {
    if k < |order| - 1 {
      LogOrderMeaning(log, AllButLast(entries), AllButLast(order), j, k);
    } else if j < k {
      LogOrderMeaning(log, AllButLast(entries), AllButLast(order), j, k - 1);
    }
  }

  lemma {:induction false} PositionsCount(log: Log, entries: seq<Entry>, order: seq<nat>)
    requires InLogOrder(log, entries, order)
    ensures |Positions(order)| == |order|
    ensures forall i | i in Positions(order) :: i <= Last(order)
  {
    if order != [] {
      PositionsCount(log, AllButLast(entries), AllButLast(order));
    }
  }

  lemma {:induction false} LogOrderSurvivesChange(before: Log, after: Log, entries: seq<Entry>, order: seq<nat>)
    requires Evolves(before, after) && InLogOrder(before, entries, order)
    ensures InLogOrder(after, entries, order)
  {
    if order != [] {
      LogOrderSurvivesChange(before, after, AllButLast(entries), AllButLast(order));
    }
  }

  lemma {:induction false} EmittedAreRecorded(log: Log, entries: seq<Entry>, order: seq<nat>)
    requires InLogOrder(log, entries, order)
    ensures Recorded(log, Ids(entries))
  {
    if order != [] {
      EmittedAreRecorded(log, AllButLast(entries), AllButLast(order));
      assert log.history[Last(order)].id == Last(entries).id;
    }
  }

  lemma CoverageSurvivesChange(before: Log, after: Log, seen: set<RecordId>, pos: nat)
    requires before.Valid() && after.Valid() && Evolves(before, after) && pos <= |before.history|
    requires Covered(before, seen, pos)
    ensures Covered(after, seen, pos)
  {
    forall j | j in after.Alive() && j < pos ensures after.history[j].id in seen {
      assert j in before.Alive();
    }
  }

  // ----- What holds between two calls

  /**
   The course of a traversal: how many records there had been when it began, the entries handed
   out and where they stand in the log, the position the pass has reached, and, once the end of
   the log was reported, the position below which everything was there to be read.
   */
  datatype Trail = Trail(startLength: nat, emitted: seq<Entry>, order: seq<nat>, pos: nat, horizon: Option<nat>)

  /** The requests made, whatever the controller answered. */
  ghost predicate Accounted(sent: seq<Exchange>, remainingReads: nat, maxEntries: nat, bounded: bool) {
    && Account(sent).proper
    && Account(sent).count + remainingReads <= ReadBudget(maxEntries)
    && (!bounded ==> Account(sent).count + remainingReads == ReadBudget(maxEntries))
  }

  lemma ReadIsAccounted(sent: seq<Exchange>, x: Exchange, remainingReads: nat, maxEntries: nat, bounded: bool)
    requires Accounted(sent, remainingReads + 1, maxEntries, bounded)
    requires x.GotEntry? && x.reservation == Account(sent).held
    ensures Account(sent + [x]) == Account(sent).Then(x)
    ensures Accounted(sent + [x], remainingReads, maxEntries, bounded)
  {
    AccountExtended(sent, x);
  }

  lemma UnsentIsAccounted(sent: seq<Exchange>, remainingReads: nat, maxEntries: nat, bounded: bool)
    requires Accounted(sent, remainingReads, maxEntries, bounded) && remainingReads > 0
    ensures bounded ==> Accounted(sent, remainingReads - 1, maxEntries, bounded)
  {
  }

  /** The records handed out: no two alike, no more than allowed. */
  ghost predicate Collected(emitted: seq<Entry>, seen: set<RecordId>, scanned: set<RecordId>, maxEntries: nat) {
    && scanned <= seen && seen == Ids(emitted) && |seen| == |emitted| <= maxEntries
    && DistinctIds(emitted) && FIRST !in seen && LAST !in seen
  }

  /** The traversal holds the granted reservation and stands at the end of a chain. */
  ghost predicate OnChain(ledger: Ledger, nextId: Option<RecordId>, reservation: Option<u16>,
                          scanned: set<RecordId>)
  {
    && reservation == ledger.held
    && (nextId.None? ==> ledger == NO_EXCHANGES && scanned == {})
    && (nextId.Some? ==> IsChain(ledger.pass, nextId.value) && scanned == PassIds(ledger.pass))
  }

  /** What a truthful controller adds: entries are records, in log order, and none is skipped. */
  ghost predicate Faithful(log: Log, t: Trail, seen: set<RecordId>, scanned: set<RecordId>, next: Option<RecordId>)
    requires log.Valid()
  {
    && t.startLength <= |log.history|
    && InLogOrder(log, t.emitted, t.order)
    && (t.order != [] ==> Covered(log, seen, Last(t.order) + 1))
    && (t.horizon.Some? ==>
          && t.startLength <= t.horizon.value <= |log.history| && Covered(log, seen, t.horizon.value)
          && (t.order != [] ==> Last(t.order) < t.horizon.value))
    && (next.Some? ==> PassInvariant(log, scanned, next.value, t.pos))
    && (next == Some(LAST) ==> t.startLength <= t.pos && (t.order != [] ==> Last(t.order) < t.pos))
  }

  ghost function AliveBelow(log: Log, pos: nat): set<nat> {
    set j | j in log.Alive() && j < pos
  }

  /** What a log that stands still adds: one pass, one read for each entry. */
  ghost predicate Steady(log: Log, t: Trail, seen: set<RecordId>, scanned: set<RecordId>, nextId: Option<RecordId>,
                         remainingReads: nat, restarts: nat, maxEntries: nat)
  {
    && restarts == 0 && scanned == seen
    && remainingReads + |t.emitted| == ReadBudget(maxEntries)
    && (nextId.None? ==> t.emitted == [] && t.order == [])
    && (nextId.Some? ==> Positions(t.order) == AliveBelow(log, t.pos))
    && (nextId == Some(FIRST) ==> log.Alive() != {})
    && (nextId == Some(LAST) ==> t.pos == |log.history|)
    && (nextId.Some? && nextId.value != FIRST && nextId.value != LAST ==> t.pos in log.Alive())
  }

  /** Other parties' changes to the log leave what was handed out faithful to it. */
  lemma FaithSurvivesChange(before: Log, after: Log, t: Trail, seen: set<RecordId>, scanned: set<RecordId>,
                            next: Option<RecordId>, maxEntries: nat)
    requires before.Valid() && after.Valid() && Evolves(before, after)
    requires Collected(t.emitted, seen, scanned, maxEntries)
    requires Faithful(before, t, seen, scanned, next)
    ensures Faithful(after, t, seen, scanned, next)
  {
    LogOrderSurvivesChange(before, after, t.emitted, t.order);
    if t.order != [] {
      CoverageSurvivesChange(before, after, seen, Last(t.order) + 1);
    }
    if t.horizon.Some? {
      CoverageSurvivesChange(before, after, seen, t.horizon.value);
    }
    if next.Some? {
      EmittedAreRecorded(before, t.emitted, t.order);
      PassSurvivesChange(before, after, scanned, next.value, t.pos);
    }
  }

  /** An empty log has nothing left to hand out. */
  lemma EmptyLogIsExhausted(log: Log, t: Trail, seen: set<RecordId>, scanned: set<RecordId>, next: Option<RecordId>)
    requires log.Valid() && |log.Alive()| == 0
    requires Faithful(log, t, seen, scanned, next)
    ensures Faithful(log, t.(horizon := Some(|log.history|)), seen, scanned, None)
  {
    assert log.Alive() == {};
  }

  /** With the last pointer read, everything below the position reached has been handed out. */
  lemma EndReached(log: Log, t: Trail, seen: set<RecordId>, scanned: set<RecordId>, maxEntries: nat)
    requires log.Valid() && Faithful(log, t, seen, scanned, Some(LAST))
    requires Collected(t.emitted, seen, scanned, maxEntries)
    ensures Faithful(log, t.(horizon := Some(t.pos)), seen, scanned, None)
  {
  }

  lemma NextIsUnscanned(log: Log, t: Trail, seen: set<RecordId>, scanned: set<RecordId>, id: RecordId)
    requires log.Valid() && Faithful(log, t, seen, scanned, Some(id)) && id != FIRST && id != LAST
    ensures id !in scanned
  {
  }

  lemma SteadyEnd(log: Log, t: Trail, seen: set<RecordId>, scanned: set<RecordId>, remainingReads: nat, restarts: nat,
                  maxEntries: nat)
    requires Steady(log, t, seen, scanned, Some(LAST), remainingReads, restarts, maxEntries)
    ensures Positions(t.order) == log.Alive()
  {
    assert AliveBelow(log, |log.history|) == log.Alive();
  }

  lemma FaithWithoutNext(log: Log, t: Trail, seen: set<RecordId>, scanned: set<RecordId>, next: Option<RecordId>)
    requires log.Valid() && Faithful(log, t, seen, scanned, next)
    ensures Faithful(log, t, seen, scanned, None)
  {
  }

  lemma ChainStarts(ledger: Ledger, reservation: Option<u16>)
    requires ledger.pass == [] && reservation == ledger.held
    ensures OnChain(ledger, Some(FIRST), reservation, {})
  {
  }

  lemma CollectedGrows(emitted: seq<Entry>, seen: set<RecordId>, scanned: set<RecordId>, e: Entry, maxEntries: nat)
    requires Collected(emitted, seen, scanned, maxEntries) && |seen| < maxEntries
    requires e.id != FIRST && e.id != LAST
    ensures e.id in seen ==> Collected(emitted, seen, scanned + {e.id}, maxEntries)
    ensures e.id !in seen ==> Collected(emitted + [e], seen + {e.id}, scanned + {e.id}, maxEntries)
  {
    IdsExtended(emitted, e);
  }

  lemma ChainGoesOn(ledger: Ledger, pass: seq<Read>, id: RecordId, e: Entry, reservation: Option<u16>,
                    scanned: set<RecordId>)
    requires ledger.pass == pass + [Read(id, e)] && IsChain(pass, id) && scanned == PassIds(pass)
    requires reservation == ledger.held && Violation(id, e, scanned).None?
    ensures OnChain(ledger, Some(e.next), reservation, scanned + {e.id})
  {
    ChainExtended(pass, id, e);
  }

  lemma CollectedNothingScanned(emitted: seq<Entry>, seen: set<RecordId>, scanned: set<RecordId>, maxEntries: nat)
    requires Collected(emitted, seen, scanned, maxEntries)
    ensures Collected(emitted, seen, {}, maxEntries)
  {
  }

  /** Every pass begins at the first record with nothing scanned. */
  lemma PassBegins(log: Log, t: Trail, seen: set<RecordId>, scanned: set<RecordId>, next: Option<RecordId>)
    requires log.Valid() && Faithful(log, t, seen, scanned, next)
    ensures Faithful(log, t.(pos := 0), seen, {}, Some(FIRST))
  {
  }

  /** The entry read at position `i` extends what was covered, for `i` is the first not passed. */
  lemma CoverageGrows(log: Log, seen: set<RecordId>, scanned: set<RecordId>, pos: nat, i: nat, id: RecordId)
    requires log.Valid() && scanned <= seen && i in log.Alive() && pos <= i && log.history[i].id == id
    requires Covered(log, scanned, pos)
    requires forall j | j in log.Alive() && pos <= j <= i :: j == i
    ensures Covered(log, seen + {id}, i + 1)
    ensures forall bound: nat | Covered(log, seen, bound) :: Covered(log, seen + {id}, bound)
  {
  }

  /** The traversal after the entry `e`, read at position `i`, was accepted. */
  ghost function TrailAfter(t: Trail, seen: set<RecordId>, e: Entry, i: nat, later: nat): Trail {
    if e.id in seen then t.(pos := later)
    else t.(pos := later, emitted := t.emitted + [e], order := t.order + [i])
  }

  lemma TrailAfterKeeps(t: Trail, seen: set<RecordId>, e: Entry, i: nat, later: nat)
    ensures var next := TrailAfter(t, seen, e, i, later);
            && next.startLength == t.startLength && next.horizon == t.horizon
            && next.emitted == (if e.id in seen then t.emitted else t.emitted + [e])
  {
  }

  /** A truthful reply keeps the traversal faithful, and is never taken for a protocol violation. */
  lemma TruthfulReplyAccepted(log: Log, t: Trail, seen: set<RecordId>, scanned: set<RecordId>, id: RecordId, e: Entry,
                              maxEntries: nat)
    returns (i: nat, later: nat)
    requires log.Valid() && Faithful(log, t, seen, scanned, Some(id)) && id != LAST && t.horizon.None?
    requires Collected(t.emitted, seen, scanned, maxEntries)
    requires Truthful(log, id, e)
    ensures e.id != FIRST && e.id != LAST && (id != FIRST ==> e.id == id)
    ensures e.next != FIRST && e.next != e.id && e.id !in scanned
    ensures i in log.Alive() && IsEntryAt(log, id, e, i) && t.pos <= i < later
    ensures if e.next == LAST then later == |log.history| else later in log.Alive()
    ensures forall j | j in log.Alive() && t.pos <= j < later :: j == i
    ensures Faithful(log, TrailAfter(t, seen, e, i, later), seen + {e.id}, scanned + {e.id}, Some(e.next))
  {
    hide Ids, DistinctIds, IsSuccessor, InLogOrder;
    i :| i in log.Alive() && IsEntryAt(log, id, e, i);
    later := TruthfulReplyAdvances(log, scanned, id, t.pos, e, i);
    CoverageGrows(log, seen, scanned, t.pos, i, e.id);
    FaithAfterEntry(log, t, seen, scanned + {e.id}, e, i, later);
  }

  /** Whether the entry was seen before or is new, the traversal stays faithful with it. */
  lemma FaithAfterEntry(log: Log, t: Trail, seen: set<RecordId>, scanned: set<RecordId>, e: Entry, i: nat, later: nat)
    requires log.Valid() && t.horizon.None? && t.startLength <= |log.history| && InLogOrder(log, t.emitted, t.order)
    requires t.order != [] ==> Covered(log, seen, Last(t.order) + 1) && Covered(log, seen + {e.id}, Last(t.order) + 1)
    requires Covered(log, seen + {e.id}, i + 1) && PassInvariant(log, scanned, e.next, later)
    requires i in log.Alive() && log.history[i] == Record(e.id, e.raw) && i < later
    requires e.next == LAST ==> later == |log.history|
    ensures Faithful(log, TrailAfter(t, seen, e, i, later), seen + {e.id}, scanned, Some(e.next))
  {
    OrderIsInside(log, t.emitted, t.order);
    if e.id !in seen {
      NewEntryIsYounger(log, seen, t.emitted, t.order, e, i);
      assert Last(t.order + [i]) == i;
    }
    hide InLogOrder, PassInvariant, Covered;
  }

  lemma OrderIsInside(log: Log, entries: seq<Entry>, order: seq<nat>)
    requires InLogOrder(log, entries, order)
    ensures order != [] ==> Last(order) < |log.history|
  {
  }

  /** With the log standing still, the accepted entry is the one position added. */
  lemma SteadyReplyAccepted(log: Log, t: Trail, seen: set<RecordId>, scanned: set<RecordId>, id: RecordId, e: Entry,
                            i: nat, later: nat, remainingReads: nat, restarts: nat, maxEntries: nat)
    requires log.Valid()
    requires Steady(log, t, seen, scanned, Some(id), remainingReads, restarts, maxEntries) && remainingReads > 0
    requires i in log.Alive() && t.pos <= i < later && e.id !in scanned && e.next != FIRST
    requires if e.next == LAST then later == |log.history| else later in log.Alive()
    requires forall j | j in log.Alive() && t.pos <= j < later :: j == i
    ensures Steady(log, TrailAfter(t, seen, e, i, later), seen + {e.id}, scanned + {e.id}, Some(e.next),
                   remainingReads - 1, restarts, maxEntries)
  {
    assert AllButLast(t.order + [i]) == t.order;
    assert AliveBelow(log, later) == AliveBelow(log, t.pos) + {i};
  }

  /** Both together: what a truthful reply adds, and, if the log stands still, that it is one position. */
  lemma TruthfulReplyTaken(log: Log, t: Trail, seen: set<RecordId>, scanned: set<RecordId>, id: RecordId, e: Entry,
                           remainingReads: nat, restarts: nat, maxEntries: nat, steady: bool)
    returns (i: nat, later: nat)
    requires log.Valid() && Faithful(log, t, seen, scanned, Some(id)) && id != LAST && t.horizon.None?
    requires Collected(t.emitted, seen, scanned, maxEntries) && Truthful(log, id, e)
    requires steady ==> Steady(log, t, seen, scanned, Some(id), remainingReads + 1, restarts, maxEntries)
    ensures Faithful(log, TrailAfter(t, seen, e, i, later), seen + {e.id}, scanned + {e.id}, Some(e.next))
    ensures steady ==> Steady(log, TrailAfter(t, seen, e, i, later), seen + {e.id}, scanned + {e.id}, Some(e.next),
                              remainingReads, restarts, maxEntries)
  {
    hide Faithful, Steady, Collected, Truthful, IsEntryAt, TrailAfter;
    i, later := TruthfulReplyAccepted(log, t, seen, scanned, id, e, maxEntries);
    if steady {
      SteadyReplyAccepted(log, t, seen, scanned, id, e, i, later, remainingReads + 1, restarts, maxEntries);
    }
  }

  lemma {:induction false} DistinctBelow(positions: set<nat>, history: seq<Record>, bound: nat)
    requires forall i | i in positions :: i < |history| && 1 <= history[i].id <= bound
    requires forall i, j | i in positions && j in positions && i != j :: history[i].id != history[j].id
    ensures |positions| <= bound
  {
    if positions != {} {
      if i :| i in positions && history[i].id == bound {
        DistinctBelow(positions - {i}, history, bound - 1);
      } else {
        DistinctBelow(positions, history, bound - 1);
      }
    }
  }

  /** Sixteen-bit identifiers, two of them reserved, name at most 65,534 records. */
  lemma LogFitsIdentifiers(log: Log)
    requires log.Valid()
    ensures |log.Alive()| <= 0xFFFE
  {
    DistinctBelow(log.Alive(), log.history, 0xFFFE);
  }

  /** Until the last pointer is read, a log that stands still and fits the limit can be read on. */
  lemma SteadyCanGoOn(log: Log, t: Trail, seen: set<RecordId>, scanned: set<RecordId>, id: RecordId,
                      remainingReads: nat, restarts: nat, maxEntries: nat)
    requires log.Valid() && id != LAST
    requires Faithful(log, t, seen, scanned, Some(id)) && Collected(t.emitted, seen, scanned, maxEntries)
    requires Steady(log, t, seen, scanned, Some(id), remainingReads, restarts, maxEntries)
    ensures Present(log, id)
    ensures |log.Alive()| <= maxEntries ==> |seen| < maxEntries && remainingReads > 0
  {
    PositionsCount(log, t.emitted, t.order);
    LogFitsIdentifiers(log);
    var ahead: nat;
    if id == FIRST {
      ahead :| ahead in log.Alive();
    } else {
      ahead := t.pos;
    }
    assert ahead in log.Alive() - AliveBelow(log, t.pos);
    SetSizes(AliveBelow(log, t.pos), log.Alive(), ahead);
  }

  lemma SetSizes(small: set<nat>, large: set<nat>, extra: nat)
    requires small <= large && extra in large && extra !in small
    ensures |small| < |large|
  {
    assert |large| == |small| + |large - small|;
  }

  /** How one round of the traversal ends. */
  datatype Round =
    | Again
    | Emit(entry: Entry)
    | End
    | Stop(error: SelError)

  /** The replies so far say that the log ended: it is empty, or the last pointer read was LAST. */
  ghost predicate SaysEnd(trace: seq<Exchange>) {
    && trace != []
    && var last := trace[|trace| - 1];
       || (last.GotInfo? && last.info.Success? && last.info.value.entries == 0)
       || (last.GotEntry? && last.entry.Success? && last.entry.value.next == LAST)
  }

  /** The errors that accuse the controller of breaking the protocol. */
  predicate AccusesController(error: SelError) {
    error.InvalidRecordId? || error.RecordChanged? || error.RecordCycle?
  }

  /** What asking for the state of the log, and perhaps a reservation, does to the account of requests. */
  ghost predicate OpenedFrom(before: Ledger, after: Ledger, round: Round) {
    && !round.Emit? && after.proper == before.proper && after.count == before.count
    && (round.Again? ==> after.pass == [])
  }

  /** What a reply to a request for `id` may do wrong. */
  function Violation(id: RecordId, entry: Entry, scanned: set<RecordId>): Option<SelError> {
    if entry.id == FIRST || entry.id == LAST then Some(InvalidRecordId(entry.id))
    else if id != FIRST && entry.id != id then Some(RecordChanged(id, entry.id))
    else if entry.next == FIRST then Some(InvalidRecordId(entry.next))
    else if entry.next == entry.id then Some(RecordCycle(entry.id))
    else if entry.id in scanned then Some(RecordCycle(entry.id))
    else None
  }

  predicate Stopped(error: SelError) { error.Cancelled? || error.DeadlineExpired? }

  /** Each error is reported only for its reason; an honest controller is never accused. */
  predicate Explained(error: SelError, honest: bool, bounded: bool, maxEntries: nat, emitted: nat, remainingReads: nat) {
    && (honest ==> !AccusesController(error))
    && (error.EntryLimit? ==> error.limit == maxEntries == emitted)
    && (error.ReadLimit? ==> remainingReads == 0)
    && (Stopped(error) ==> bounded)
  }

  /** An entry not seen before stands after everything emitted so far. */
  lemma NewEntryIsYounger(log: Log, seen: set<RecordId>, entries: seq<Entry>, order: seq<nat>, e: Entry, i: nat)
    requires log.Valid() && InLogOrder(log, entries, order)
    requires order != [] ==> Covered(log, seen, Last(order) + 1)
    requires i in log.Alive() && log.history[i] == Record(e.id, e.raw) && e.id !in seen
    ensures InLogOrder(log, entries + [e], order + [i])
  {
    assert order != [] ==> Last(order) < i;
    LogOrderExtended(log, entries, order, e, i);
  }

  lemma LogOrderExtended(log: Log, entries: seq<Entry>, order: seq<nat>, e: Entry, i: nat)
    requires InLogOrder(log, entries, order) && (order != [] ==> Last(order) < i)
    requires i < |log.history| && log.history[i] == Record(e.id, e.raw)
    ensures InLogOrder(log, entries + [e], order + [i])
  {
    var entries', order' := entries + [e], order + [i];
    assert AllButLast(entries') == entries && AllButLast(order') == order;
    assert Last(order') == i && Last(entries') == e;
    assert order != [] ==> order'[|order'| - 2] == Last(order);
  }

  // ----- The iterator

  class SelIter {
    const bmc: Controller
    const maxEntries: nat
    /** A deadline or a cancellation token is checked before and after each request. */
    const bounded: bool

    var nextId: Option<RecordId>
    var reservation: Option<u16>
    var hasReservation: bool
    var seen: set<RecordId>
    var scanned: set<RecordId>
    var remainingReads: nat
    var restarts: nat
    var finished: bool

    /** Exchanges on the connection before this traversal, and those of this traversal. */
    ghost const before: seq<Exchange>
    ghost var sent: seq<Exchange>
    ghost var trail: Trail

    ghost predicate Linked()
      reads this`sent, bmc
    {
      bmc.Valid() && bmc.trace == before + sent
    }

    ghost predicate Valid()
      reads this, bmc
    {
      && Linked()
      && restarts <= MAX_RESTARTS
      && Accounted(sent, remainingReads, maxEntries, bounded)
      && Collected(trail.emitted, seen, scanned, maxEntries)
      && (!finished ==> OnChain(Account(sent), nextId, reservation, scanned) && trail.horizon.None?)
      && (!finished && nextId == Some(LAST) ==> SaysEnd(sent))
      && (bmc.honest ==> Faithful(bmc.log, trail, seen, scanned, if finished then None else nextId))
      && (bmc.quiet && !bounded && !finished ==>
            Steady(bmc.log, trail, seen, scanned, nextId, remainingReads, restarts, maxEntries))
    }

    constructor (bmc: Controller, maxEntries: nat, bounded: bool)
      requires bmc.Valid()
      ensures Valid() && fresh(this)
      ensures this.bmc == bmc && this.maxEntries == maxEntries && this.bounded == bounded
      ensures !finished && sent == [] && nextId.None? && before == bmc.trace
      ensures trail == Trail(|bmc.log.history|, [], [], 0, None)
    {
      this.bmc, this.maxEntries, this.bounded := bmc, maxEntries, bounded;
      nextId, reservation, hasReservation := None, None, false;
      seen, scanned := {}, {};
      remainingReads, restarts, finished := ReadBudget(maxEntries), 0, false;
      before, sent := bmc.trace, [];
      trail := Trail(|bmc.log.history|, [], [], 0, None);
    }

    /** A deadline or a cancellation may stop a bounded traversal at any check. */
    method CheckBudget() returns (stop: Option<SelError>)
      ensures stop.Some? ==> bounded && Stopped(stop.value)
    {
      stop := None;
      if bounded {
        var cancelled: bool := *;
        var late: bool := *;
        if cancelled {
          stop := Some(Cancelled);
        } else if late {
          stop := Some(DeadlineExpired);
        }
      }
    }

    method Reserve() returns (failure: Option<SelError>)
      requires Linked()
      modifies this`reservation, this`sent, bmc`log, bmc`trace
      ensures Linked() && old(sent) <= sent
      ensures bmc.honest ==> Evolves(old(bmc.log), bmc.log)
      ensures bmc.quiet ==> bmc.log == old(bmc.log)
      ensures Account(sent) == Account(old(sent)).(held := Account(sent).held)
      ensures failure.None? ==> reservation == Account(sent).held
      ensures failure.Some? ==> failure.value.ReservationFailed? || (bounded && Stopped(failure.value))
      ensures bmc.quiet && !bounded ==> failure.None?
    {
      failure := CheckBudget();
      if failure.Some? { return; }
      var reply := bmc.Reserve();
      AccountExtended(sent, Reserved(reply));
      sent := sent + [Reserved(reply)];
      failure := CheckBudget();
      if failure.Some? { return; }
      match reply
      case Failure(error) => failure := Some(ReservationFailed(error));
      case Success(token) => reservation := Some(token);
    }

    method GetInfo() returns (r: Result<Info, SelError>)
      requires Linked()
      modifies this`sent, bmc`log, bmc`trace
      ensures Linked() && old(sent) <= sent
      ensures bmc.honest ==> Evolves(old(bmc.log), bmc.log)
      ensures bmc.quiet ==> bmc.log == old(bmc.log)
      ensures Account(sent).proper == Account(old(sent)).proper && Account(sent).count == Account(old(sent)).count
      ensures r.Ok? ==> sent == old(sent) + [GotInfo(Success(r.value))]
      ensures r.Ok? ==> Account(sent) == Account(old(sent)).Then(GotInfo(Success(r.value)))
      ensures bmc.honest && r.Ok? ==> r.value.entries == |bmc.log.Alive()|
      ensures r.Err? ==> r.error.InfoFailed? || (bounded && Stopped(r.error))
      ensures bmc.quiet && !bounded ==> r.Ok?
    {
      var stop := CheckBudget();
      if stop.Some? { return Err(stop.value); }
      var reply := bmc.GetInfo();
      AccountExtended(sent, GotInfo(reply));
      sent := sent + [GotInfo(reply)];
      stop := CheckBudget();
      if stop.Some? { return Err(stop.value); }
      match reply
      case Failure(error) => r := Err(InfoFailed(error));
      case Success(info) => r := Ok(info);
    }

    /** One Get SEL Entry request, or the reason why none was made or its reply was dropped. */
    method TryEntry(id: RecordId) returns (r: Result<Reply<Entry>, SelError>)
      requires Linked() && Accounted(sent, remainingReads, maxEntries, bounded)
      requires reservation == Account(sent).held
      modifies this`remainingReads, this`sent, bmc`log, bmc`trace
      ensures Linked() && Accounted(sent, remainingReads, maxEntries, bounded) && old(sent) <= sent
      ensures bmc.honest ==> Evolves(old(bmc.log), bmc.log)
      ensures bmc.quiet ==> bmc.log == old(bmc.log)
      ensures remainingReads == if old(remainingReads) == 0 then 0 else old(remainingReads) - 1
      ensures r.Ok? ==> old(remainingReads) > 0 && sent == old(sent) + [GotEntry(reservation, id, r.value)]
      ensures r.Ok? ==> Account(sent) == Account(old(sent)).Then(GotEntry(reservation, id, r.value))
      ensures bmc.honest && r.Ok? && r.value.Success? ==> Truthful(bmc.log, id, r.value.value)
      ensures r.Err? ==> (r.error.ReadLimit? && old(remainingReads) == 0) || (bounded && Stopped(r.error))
      ensures bmc.quiet && r.Ok? && Present(bmc.log, id) ==> r.value.Success?
    {
      hide Truthful, Present, Account, Accounted;
      if remainingReads == 0 {
        return Err(ReadLimit);
      }
      UnsentIsAccounted(sent, remainingReads, maxEntries, bounded);
      remainingReads := remainingReads - 1;
      var stop := CheckBudget();
      if stop.Some? { return Err(stop.value); }
      var reply := bmc.GetEntry(reservation, id);
      ReadIsAccounted(sent, GotEntry(reservation, id, reply), remainingReads, maxEntries, bounded);
      sent := sent + [GotEntry(reservation, id, reply)];
      stop := CheckBudget();
      if stop.Some? { return Err(stop.value); }
      r := Ok(reply);
    }

    /** Read one entry, renewing a cancelled reservation at most twice. */
    method ReadEntry(id: RecordId) returns (r: Result<Entry, SelError>)
      requires Linked() && Accounted(sent, remainingReads, maxEntries, bounded)
      requires reservation == Account(sent).held
      modifies this`remainingReads, this`reservation, this`sent, bmc`log, bmc`trace
      ensures Linked() && Accounted(sent, remainingReads, maxEntries, bounded) && old(sent) <= sent
      ensures bmc.honest ==> Evolves(old(bmc.log), bmc.log)
      ensures bmc.quiet ==> bmc.log == old(bmc.log)
      ensures old(remainingReads) - (MAX_RENEWALS + 1) <= remainingReads <= old(remainingReads)
      ensures r.Ok? || r.error.EntryFailed? ==>
                reservation == Account(sent).held && remainingReads < old(remainingReads)
      ensures r.Ok? ==> Account(sent).pass == Account(old(sent)).pass + [Read(id, r.value)]
      ensures r.Ok? ==> sent != [] && Last(sent).GotEntry? && Last(sent).entry == Success(r.value)
      ensures bmc.honest && r.Ok? ==> Truthful(bmc.log, id, r.value)
      ensures r.Err? && r.error.EntryFailed? ==>
                && sent != [] && Last(sent).GotEntry? && Last(sent).entry == Failure(r.error.error)
                && Account(sent).pass == Account(old(sent)).pass
      ensures r.Err? ==> r.error.EntryFailed? || r.error.ReservationFailed?
                         || (r.error.ReadLimit? && remainingReads == 0) || (bounded && Stopped(r.error))
      ensures bmc.quiet && !bounded && Present(bmc.log, id) && old(remainingReads) > 0 ==>
                r.Ok? && remainingReads == old(remainingReads) - 1
    {
      var retry := 0;
      while true
        invariant 0 <= retry <= MAX_RENEWALS
        invariant Linked() && Accounted(sent, remainingReads, maxEntries, bounded)
        invariant reservation == Account(sent).held
        invariant old(sent) <= sent && Account(sent).pass == Account(old(sent)).pass
        invariant bmc.honest ==> Evolves(old(bmc.log), bmc.log)
        invariant bmc.quiet ==> bmc.log == old(bmc.log)
        invariant remainingReads == old(remainingReads) - retry
        invariant bmc.quiet && Present(bmc.log, id) ==> retry == 0
        decreases MAX_RENEWALS - retry
      {
        hide Account;
        var reply := TryEntry(id);
        if reply.Err? { return Err(reply.error); }
        match reply.value {
          case Success(entry) => return Ok(entry);
          case Failure(error) =>
            if error == Failed(ReservationCancelledOrInvalidId) && hasReservation && retry < MAX_RENEWALS {
              var failure := Reserve();
              if failure.Some? { return Err(failure.value); }
              retry := retry + 1;
            } else {
              return Err(EntryFailed(error));
            }
        }
      }
    }

    /** Ask for the state of the log, and for a reservation if the log takes them. */
    method Open() returns (round: Round)
      requires Linked() && reservation == None == Account(sent).held
      modifies this`hasReservation, this`reservation, this`sent, bmc`log, bmc`trace
      ensures Linked() && OpenedFrom(Account(old(sent)), Account(sent), round)
      ensures bmc.honest ==> Evolves(old(bmc.log), bmc.log)
      ensures bmc.quiet ==> bmc.log == old(bmc.log)
      ensures round.Again? ==> reservation == Account(sent).held && (bmc.quiet ==> bmc.log.Alive() != {})
      ensures round.End? ==> SaysEnd(sent) && (bmc.honest ==> |bmc.log.Alive()| == 0)
      ensures round.Stop? ==> round.error.InfoFailed? || round.error.ReservationFailed?
                              || (bounded && Stopped(round.error))
      ensures bmc.quiet && !bounded ==> !round.Stop?
    {
      hide Account;
      var info := GetInfo();
      if info.Err? { return Stop(info.error); }
      if info.value.entries == 0 { return End; }
      hasReservation := info.value.reserve;
      if hasReservation {
        var failure := Reserve();
        if failure.Some? { return Stop(failure.value); }
      }
      round := Again;
    }

    /**
     The record asked for is gone: the end if the log is now empty, an error if even the first
     record cannot be read or two rescans were used up, otherwise another pass from the start.
     */
    method Reopen(id: RecordId, error: IpmiError) returns (round: Round)
      requires Linked() && restarts <= MAX_RESTARTS
      modifies this`restarts, this`hasReservation, this`reservation, this`sent, bmc`log, bmc`trace
      ensures Linked() && OpenedFrom(Account(old(sent)), Account(sent), round)
      ensures bmc.honest ==> Evolves(old(bmc.log), bmc.log)
      ensures bmc.quiet ==> bmc.log == old(bmc.log)
      ensures round.Again? ==> reservation == Account(sent).held && id != FIRST
      ensures round.Again? ==> restarts == old(restarts) + 1 <= MAX_RESTARTS
      ensures !round.Again? ==> old(restarts) <= restarts <= MAX_RESTARTS
      ensures round.End? ==> SaysEnd(sent) && (bmc.honest ==> |bmc.log.Alive()| == 0)
      ensures round.Stop? ==> round.error.InfoFailed? || round.error.ReservationFailed?
                              || round.error == EntryFailed(error) || (bounded && Stopped(round.error))
      ensures round.Stop? && round.error.EntryFailed? ==> id == FIRST || old(restarts) == MAX_RESTARTS
    {
      hide Account;
      var info := GetInfo();
      if info.Err? { return Stop(info.error); }
      if info.value.entries == 0 { return End; }
      if id == FIRST || restarts >= MAX_RESTARTS { return Stop(EntryFailed(error)); }
      restarts := restarts + 1;
      hasReservation := info.value.reserve;
      if hasReservation {
        var failure := Reserve();
        if failure.Some? { return Stop(failure.value); }
      } else {
        reservation := None;
      }
      round := Again;
    }

    /** The first call. */
    method Begin() returns (round: Round)
      requires Valid() && !finished && nextId.None?
      modifies this`nextId, this`hasReservation, this`reservation, this`sent, this`trail, this`finished
      modifies bmc`log, bmc`trace
      ensures Valid() && !round.Emit?
      ensures trail.emitted == old(trail.emitted) && trail.startLength == old(trail.startLength)
      ensures round.Again? ==> !finished && nextId == Some(FIRST)
      ensures round.End? ==> finished && trail.horizon.Some? && SaysEnd(sent)
      ensures round.Stop? ==> finished && (round.error.InfoFailed? || round.error.ReservationFailed?
                                           || (bounded && Stopped(round.error)))
      ensures bmc.quiet ==> bmc.log == old(bmc.log)
      ensures bmc.quiet && !bounded ==> !round.Stop?
      ensures bmc.quiet && !bounded && round.End? ==> Positions(trail.order) == bmc.log.Alive()
    {
      hide Account, Faithful, Collected, IsChain, PassIds;
      ghost var log, t := bmc.log, trail;
      round := Open();
      if bmc.honest {
        FaithSurvivesChange(log, bmc.log, t, seen, scanned, None, maxEntries);
      }
      if round.Again? {
        nextId, trail := Some(FIRST), t.(pos := 0);
        ChainStarts(Account(sent), reservation);
        assert AliveBelow(bmc.log, 0) == {};
        if bmc.honest {
          PassBegins(bmc.log, t, seen, scanned, None);
        }
      } else if round.End? {
        finished, trail := true, t.(horizon := Some(|bmc.log.history|));
        if bmc.honest {
          EmptyLogIsExhausted(bmc.log, t, seen, scanned, None);
        }
      } else {
        finished := true;
      }
    }

    /** The record asked for is gone. */
    method Rescan(id: RecordId, error: IpmiError) returns (round: Round)
      requires Valid() && !finished && nextId == Some(id) && !(bmc.quiet && !bounded)
      modifies this`nextId, this`hasReservation, this`reservation, this`sent, this`trail, this`finished
      modifies this`restarts, this`scanned, bmc`log, bmc`trace
      ensures Valid() && !round.Emit?
      ensures trail.emitted == old(trail.emitted) && trail.startLength == old(trail.startLength)
      ensures round.Again? ==> !finished && nextId == Some(FIRST) && id != FIRST && restarts == old(restarts) + 1
      ensures round.End? ==> finished && trail.horizon.Some? && SaysEnd(sent)
      ensures round.Stop? && round.error.EntryFailed? ==> id == FIRST || old(restarts) == MAX_RESTARTS
      ensures round.Stop? ==> finished && Explained(round.error, bmc.honest, bounded, maxEntries, |trail.emitted|, remainingReads)
      ensures bmc.quiet ==> bmc.log == old(bmc.log)
    {
      hide Account, Faithful, Collected, Steady, IsChain, PassIds, OnChain, ReadBudget, InLogOrder, Ids, DistinctIds;
      ghost var log, t := bmc.log, trail;
      round := Reopen(id, error);
      if bmc.honest {
        FaithSurvivesChange(log, bmc.log, t, seen, scanned, Some(id), maxEntries);
        FaithWithoutNext(bmc.log, t, seen, scanned, Some(id));
      }
      if round.Again? {
        if bmc.honest {
          PassBegins(bmc.log, t, seen, scanned, Some(id));
        }
        CollectedNothingScanned(t.emitted, seen, scanned, maxEntries);
        ChainStarts(Account(sent), reservation);
        nextId, scanned, trail := Some(FIRST), {}, t.(pos := 0);
      } else if round.End? {
        if bmc.honest {
          EmptyLogIsExhausted(bmc.log, t, seen, scanned, Some(id));
        }
        finished, trail := true, t.(horizon := Some(|bmc.log.history|));
      } else {
        finished := true;
      }
    }

    /** Check a reply against the chain and, unless it was handed out before, hand it out. */
    method Accept(id: RecordId, entry: Entry, ghost pass: seq<Read>) returns (round: Round)
      requires Linked() && restarts <= MAX_RESTARTS && !finished && trail.horizon.None?
      requires Accounted(sent, remainingReads, maxEntries, bounded) && reservation == Account(sent).held
      requires Account(sent).pass == pass + [Read(id, entry)] && IsChain(pass, id) && scanned == PassIds(pass)
      requires SaysEnd(sent) <==> entry.next == LAST
      requires Collected(trail.emitted, seen, scanned, maxEntries) && |seen| < maxEntries && id != LAST
      requires bmc.honest ==> Faithful(bmc.log, trail, seen, scanned, Some(id)) && Truthful(bmc.log, id, entry)
      requires bmc.quiet && !bounded ==>
                 Steady(bmc.log, trail, seen, scanned, Some(id), remainingReads + 1, restarts, maxEntries)
      modifies this`nextId, this`seen, this`scanned, this`trail, this`finished
      ensures Valid() && !round.End? && trail.startLength == old(trail.startLength)
      ensures round.Stop? ==>
                finished && !bmc.honest
                && Explained(round.error, bmc.honest, bounded, maxEntries, |trail.emitted|, remainingReads)
      ensures round.Stop? <==> Violation(id, entry, old(scanned)).Some?
      ensures !round.Stop? ==> !finished && nextId == Some(entry.next) && scanned == old(scanned) + {entry.id}
      ensures round.Emit? <==> !round.Stop? && entry.id !in old(seen)
      ensures round.Emit? ==> round.entry == entry && trail.emitted == old(trail.emitted) + [entry]
      ensures !round.Emit? ==> trail.emitted == old(trail.emitted) && seen == old(seen)
    {
      hide Account, Faithful, Steady, Collected, OnChain, IsChain, PassIds, SaysEnd, IsEntryAt, Truthful;
      var violation := Violation(id, entry, scanned);
      if violation.Some? {
        if bmc.honest {
          ghost var i, later := TruthfulReplyAccepted(bmc.log, trail, seen, scanned, id, entry, maxEntries);
          assert false;
        }
        finished := true;
        return Stop(violation.value);
      }
      round := TakeIn(id, entry, pass);
    }

    /** An entry without fault extends the chain; it is handed out unless an earlier pass did so. */
    method TakeIn(id: RecordId, entry: Entry, ghost pass: seq<Read>) returns (round: Round)
      requires Linked() && restarts <= MAX_RESTARTS && !finished && trail.horizon.None?
      requires Accounted(sent, remainingReads, maxEntries, bounded) && reservation == Account(sent).held
      requires Account(sent).pass == pass + [Read(id, entry)] && IsChain(pass, id) && scanned == PassIds(pass)
      requires SaysEnd(sent) <==> entry.next == LAST
      requires Collected(trail.emitted, seen, scanned, maxEntries) && |seen| < maxEntries && id != LAST
      requires bmc.honest ==> Faithful(bmc.log, trail, seen, scanned, Some(id)) && Truthful(bmc.log, id, entry)
      requires bmc.quiet && !bounded ==>
                 Steady(bmc.log, trail, seen, scanned, Some(id), remainingReads + 1, restarts, maxEntries)
      requires Violation(id, entry, scanned).None?
      modifies this`nextId, this`seen, this`scanned, this`trail
      ensures Valid() && nextId == Some(entry.next) && scanned == old(scanned) + {entry.id}
      ensures trail.startLength == old(trail.startLength)
      ensures if entry.id in old(seen) then round.Again? else round == Emit(entry)
      ensures trail.emitted == if entry.id in old(seen) then old(trail.emitted) else old(trail.emitted) + [entry]
      ensures entry.id in old(seen) ==> seen == old(seen)
    {
      hide Account, Faithful, Steady, Collected, OnChain, IsChain, PassIds, SaysEnd, IsEntryAt, Truthful;
      hide Accounted, ReadBudget, TrailAfter;
      ghost var t, had, i, later := trail, seen, 0, 0;
      if bmc.honest {
        i, later := TruthfulReplyTaken(bmc.log, t, seen, scanned, id, entry, remainingReads, restarts, maxEntries,
                                       bmc.quiet && !bounded);
      }
      ChainGoesOn(Account(sent), pass, id, entry, reservation, scanned);
      CollectedGrows(trail.emitted, seen, scanned, entry, maxEntries);
      scanned := scanned + {entry.id};
      nextId := Some(entry.next);
      TrailAfterKeeps(t, had, entry, i, later);
      trail := TrailAfter(t, had, entry, i, later);
      if entry.id !in seen {
        seen := seen + {entry.id};
        round := Emit(entry);
      } else {
        assert seen == seen + {entry.id};
        round := Again;
      }
    }

    /** The contract of one round: what may be handed out, when the log ends, when the traversal fails. */
    twostate predicate Rounded(round: Round)
      reads this, bmc
    {
      && trail.startLength == old(trail.startLength)
      && (round.Emit? ==>
            !finished && trail.emitted == old(trail.emitted) + [round.entry] && round.entry.id !in old(seen))
      && (!round.Emit? ==> trail.emitted == old(trail.emitted))
      && (round.Again? ==> !finished && seen == old(seen))
      && (round.End? ==> finished && trail.horizon.Some? && SaysEnd(sent))
      && (round.Stop? ==> finished && Explained(round.error, bmc.honest, bounded, maxEntries, |trail.emitted|, remainingReads))
      && (bmc.quiet ==> bmc.log == old(bmc.log))
      && (bmc.quiet && !bounded && round.End? ==> Positions(trail.order) == bmc.log.Alive())
      && (bmc.quiet && !bounded && |bmc.log.Alive()| <= maxEntries ==> !round.Stop?)
    }

    /** One round of the traversal: look at the next identifier, read it, and take the entry in. */
    method Visit() returns (round: Round)
      requires Valid() && !finished && nextId.Some?
      modifies this`nextId, this`hasReservation, this`reservation, this`sent, this`trail, this`finished, this`seen
      modifies this`remainingReads, this`restarts, this`scanned, bmc`log, bmc`trace
      ensures Valid() && Rounded(round)
      ensures round.Again? || round.Emit? ==> remainingReads < old(remainingReads) && nextId.Some?
    {
      hide Account, Faithful, Steady, IsChain, PassIds, Truthful, Present, Ids, DistinctIds;
      var id := nextId.value;
      ghost var log, t := bmc.log, trail;
      if id == LAST {
        if bmc.honest {
          EndReached(log, t, seen, scanned, maxEntries);
        }
        if bmc.quiet && !bounded {
          SteadyEnd(log, t, seen, scanned, remainingReads, restarts, maxEntries);
        }
        finished, trail := true, t.(horizon := Some(t.pos));
        return End;
      }
      if bmc.quiet && !bounded {
        SteadyCanGoOn(log, t, seen, scanned, id, remainingReads, restarts, maxEntries);
      }
      if bmc.honest {
        FaithWithoutNext(log, t, seen, scanned, Some(id));
      }
      if |seen| >= maxEntries {
        finished := true;
        return Stop(EntryLimit(maxEntries));
      }
      if id != FIRST && id in scanned {
        if bmc.honest {
          NextIsUnscanned(log, t, seen, scanned, id);
        }
        finished := true;
        return Stop(RecordCycle(id));
      }
      round := ReadNext(id);
    }

    /** Read the record `id` and take it in, start another pass, or fail. */
    method ReadNext(id: RecordId) returns (round: Round)
      requires Valid() && !finished && nextId == Some(id) && id != LAST && |seen| < maxEntries
      modifies this`nextId, this`hasReservation, this`reservation, this`sent, this`trail, this`finished, this`seen
      modifies this`remainingReads, this`restarts, this`scanned, bmc`log, bmc`trace
      ensures Valid() && Rounded(round)
      ensures round.Again? || round.Emit? ==> remainingReads < old(remainingReads) && nextId.Some?
    {
      hide Explained, Account, Accounted, Faithful, Steady, IsChain, PassIds, Truthful, Present, Ids, DistinctIds;
      ghost var log, t, pass := bmc.log, trail, Account(sent).pass;
      if bmc.quiet && !bounded {
        SteadyCanGoOn(log, t, seen, scanned, id, remainingReads, restarts, maxEntries);
      }
      var read := ReadEntry(id);
      if bmc.honest {
        FaithSurvivesChange(log, bmc.log, t, seen, scanned, Some(id), maxEntries);
        FaithWithoutNext(bmc.log, t, seen, scanned, Some(id));
      }
      if read.Ok? {
        round := Accept(id, read.value, pass);
      } else if read.error == EntryFailed(Failed(RequestedDatapointNotPresent)) {
        round := Rescan(id, read.error.error);
      } else {
        Abort(read.error);
        round := Stop(read.error);
      }
    }

    /** Any other error ends the traversal. */
    method Abort(error: SelError)
      requires Linked() && restarts <= MAX_RESTARTS && Accounted(sent, remainingReads, maxEntries, bounded)
      requires Collected(trail.emitted, seen, scanned, maxEntries)
      requires bmc.honest ==> Faithful(bmc.log, trail, seen, scanned, None)
      requires !AccusesController(error) && !error.EntryLimit?
      requires (error.ReadLimit? ==> remainingReads == 0) && (Stopped(error) ==> bounded)
      modifies this`finished
      ensures Valid() && finished && Explained(error, bmc.honest, bounded, maxEntries, |trail.emitted|, remainingReads)
    {
      finished := true;
    }

    /**
     The next entry, an error, or the end. Against any controller: entries are pairwise distinct, at
     most `maxEntries` of them, at most `ReadBudget(maxEntries)` entry reads are made, and after an
     error or the end only `None` follows and nothing is sent. `None` at the end means that the
     controller said so at the end of a proper chain; against an honest controller it means that
     every record that was in the log when the traversal was created and is still there was handed
     out, in log order; against a quiet one, that the log was handed out exactly.
     */
    method Next() returns (r: Option<Result<Entry, SelError>>)
      requires Valid()
      modifies this`nextId, this`hasReservation, this`reservation, this`sent, this`trail, this`finished, this`seen
      modifies this`remainingReads, this`restarts, this`scanned, bmc`log, bmc`trace
      ensures Valid() && trail.startLength == old(trail.startLength)
      ensures old(finished) ==> r == None && finished && sent == old(sent) && trail == old(trail)
      ensures r.None? || r.value.Err? ==> finished && trail.emitted == old(trail.emitted)
      ensures r.Some? && r.value.Ok? ==>
                !finished && trail.emitted == old(trail.emitted) + [r.value.value]
                && r.value.value.id !in old(seen) && remainingReads < old(remainingReads)
      ensures r.Some? && r.value.Err? ==>
                Explained(r.value.error, bmc.honest, bounded, maxEntries, |trail.emitted|, remainingReads)
      ensures r.None? && !old(finished) ==> SaysEnd(sent) && trail.horizon.Some?
      ensures bmc.quiet ==> bmc.log == old(bmc.log)
      ensures bmc.quiet && !bounded && r.None? && !old(finished) ==> Positions(trail.order) == bmc.log.Alive()
      ensures bmc.quiet && !bounded && |bmc.log.Alive()| <= maxEntries ==> r.None? || r.value.Ok?
    {
      hide Account, Accounted, Collected, OnChain, Faithful, Steady, SaysEnd, Positions;
      if finished { return None; }
      if nextId.None? {
        var round := Begin();
        if round.End? {
          return None;
        }
        if round.Stop? { return Some(Err(round.error)); }
      }
      while true
        invariant Valid() && !finished && nextId.Some?
        invariant trail.emitted == old(trail.emitted) && trail.startLength == old(trail.startLength)
        invariant seen == old(seen) && remainingReads <= old(remainingReads)
        invariant bmc.quiet ==> bmc.log == old(bmc.log)
        decreases remainingReads
      {
        var round := Visit();
        match round
        case Again =>
        case Emit(entry) => return Some(Ok(entry));
        case End => return None;
        case Stop(error) => return Some(Err(error));
      }
    }
  }

  /** At the end, nothing that was there at the beginning and is there still was missed. */
  lemma NothingWasMissed(log: Log, t: Trail, seen: set<RecordId>, scanned: set<RecordId>, j: nat)
    requires log.Valid() && Faithful(log, t, seen, scanned, None) && t.horizon.Some?
    requires j in log.Alive() && j < t.startLength
    ensures log.history[j].id in seen
  {
  }

  /**
   A whole traversal. Any controller brings it to an end: the entries are distinct, no more than allowed, and
   the entry reads stay within the budget. Against an honest controller that deletes and appends at will, an
   end without error means that every record which was there at the start and is there still was handed out,
   and that the entries are records in log order. A log that stands still and fits is handed out as it is.
   */
  method Traverse(bmc: Controller, maxEntries: nat)
    returns (entries: seq<Entry>, failure: Option<SelError>, ghost order: seq<nat>, ghost sent: seq<Exchange>)
    requires bmc.Valid()
    modifies bmc`log, bmc`trace
    ensures bmc.Valid() && bmc.trace == old(bmc.trace) + sent
    ensures DistinctIds(entries) && |entries| <= maxEntries && FIRST !in Ids(entries) && LAST !in Ids(entries)
    ensures Account(sent).count <= ReadBudget(maxEntries)
    ensures bmc.honest ==> InLogOrder(bmc.log, entries, order)
    ensures bmc.honest && failure.None? ==>
              forall j | j in bmc.log.Alive() && j < old(|bmc.log.history|) :: bmc.log.history[j].id in Ids(entries)
    ensures bmc.quiet && |bmc.log.Alive()| <= maxEntries ==> failure.None? && Positions(order) == bmc.log.Alive()
    ensures bmc.honest && failure.Some? ==> !AccusesController(failure.value)
  {
    hide Steady, OnChain, Account, InLogOrder, Ids, DistinctIds;
    entries, failure := [], None;
    var iter := new SelIter(bmc, maxEntries, false);
    while true
      invariant iter.Valid() && fresh(iter) && iter.bmc == bmc && iter.maxEntries == maxEntries && !iter.bounded
      invariant iter.before == old(bmc.trace) && iter.trail.startLength == old(|bmc.log.history|)
      invariant iter.trail.emitted == entries && !iter.finished
      decreases iter.remainingReads
    {
      var next := iter.Next();
      if next.None? { break; }
      match next.value
      case Ok(entry) => entries := entries + [entry];
      case Err(error) =>
        failure := Some(error);
        break;
    }
    order, sent := iter.trail.order, iter.sent;
    if bmc.honest && failure.None? {
      forall j | j in bmc.log.Alive() && j < old(|bmc.log.history|) ensures bmc.log.history[j].id in Ids(entries) {
        NothingWasMissed(bmc.log, iter.trail, iter.seen, iter.scanned, j);
      }
    }
  }
}
