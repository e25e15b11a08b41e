/**
 Negotiating larger channel buffers with a Kontron controller, local or behind the local one. Whatever
 fails, every channel whose size may have been changed is set back to zero, last changed first, and the
 sequence numbers reserved at the start cover the negotiation together with that restoration.
 */
module KontronBuffer {
  import opened Ipmi
  import opened FruDevice

  datatype BufferStep = LocalCurrent | LocalIpmb | RemoteCurrent {
    predicate Remote() { RemoteCurrent? }
  }

  datatype OemError = Identity(error: IpmiError) | UnsupportedDevice | OemCommand(error: IpmiError)

  datatype BufferFailure =
    | UnverifiedSequenceBudget
    | SequenceBudget(needed: nat, available: nat)
    | IdentityFailure(oem: OemError)
    | TargetChanged
    | CommandFailure(oem: OemError)

  /** The step that failed, why, and the restorations that failed. */
  datatype BufferError = BufferError(step: BufferStep, source: BufferFailure, restore: seq<(BufferStep, OemError)>)

  /** What Get Device ID tells: the manufacturer, whether the command is supported, and all the rest. */
  datatype DeviceIdentity = DeviceIdentity(manufacturer: nat, supported: bool, rest: nat)

  const KONTRON: nat := 15_000

  datatype SetRequest = SetRequest(step: BufferStep, size: byte)

  // ----- The session

  /** Requests worth at most `price` sequence numbers were made, all of them sent if so many were reserved. */
  predicate Covered(limited: bool, before: Session, after: Session, price: nat) {
    && after.reserved.Some? == before.reserved.Some?
    && (if limited then after.Sound() else after.starved == before.starved)
    && (limited && before.reserved.Some? && before.reserved.value >= price ==>
          after.starved == before.starved && after.reserved.value + price >= before.reserved.value)
  }

  lemma CoveredMore(limited: bool, s: Session, t: Session, u: Session, p: nat, q: nat)
    requires Covered(limited, s, t, p) && Covered(limited, t, u, q)
    ensures Covered(limited, s, u, p + q)
  {
  }

  lemma CoveredByMore(limited: bool, s: Session, t: Session, p: nat, q: nat)
    requires Covered(limited, s, t, p) && p <= q
    ensures Covered(limited, s, t, q)
  {
  }

  /** The local controller and the one behind it. Any request may fail at any time. */
  class OemBus {
    const limited: bool
    const longMutations: bool
    var session: Session
    /** The requests to set a buffer size that were sent. */
    ghost var sets: seq<SetRequest>

    ghost predicate Valid()
      reads this`session
    {
      if limited then session.Sound() else session.reserved.None?
    }

    constructor (limited: bool, longMutations: bool, remaining: nat)
      ensures Valid() && sets == [] && session.reserved.None?
    {
      this.limited, this.longMutations := limited, longMutations;
      session, sets := Session(remaining, None, false, 0), [];
    }

    method Dispatch(remote: bool) returns (sent: bool)
      requires Valid()
      modifies this`session
      ensures Valid() && Covered(limited, old(session), session, Price(remote, 1))
      ensures sent == (!limited || CanSend(old(session), remote))
      ensures session.starved == (old(session).starved || !sent)
    {
      sent := !limited || CanSend(session, remote);
      session := session.(commands := session.commands + 1, starved := session.starved || !sent);
      if limited && sent {
        var price := Price(remote, 1);
        var held := if session.reserved.Some? then Some(session.reserved.value - price) else None;
        var left: nat :| (if held.Some? then held.value else 0) <= left <= session.remaining - price;
        session := session.(remaining := left, reserved := held);
      }
    }

    method Ask(remote: bool) returns (reply: Reply<DeviceIdentity>)
      requires Valid()
      modifies this`session
      ensures Valid() && Covered(limited, old(session), session, Price(remote, 1))
    {
      var sent := Dispatch(remote);
      reply := *;
      if !sent { reply := Failure(Connection); }
    }

    method Set(step: BufferStep, size: byte) returns (reply: Reply<()>, ghost sent: bool)
      requires Valid()
      modifies this`session, this`sets
      ensures Valid() && Covered(limited, old(session), session, Price(step.Remote(), 1))
      ensures sets == old(sets) + if sent then [SetRequest(step, size)] else []
      ensures sent == (!limited || CanSend(old(session), step.Remote()))
      ensures reply.Success? ==> sent
    {
      var dispatched := Dispatch(step.Remote());
      sent := dispatched;
      reply := *;
      if dispatched {
        sets := sets + [SetRequest(step, size)];
      } else {
        reply := Failure(Connection);
      }
    }
  }

  /** The identity is checked on the very destination before the command is sent. */
  method SendOem(bus: OemBus, step: BufferStep, size: byte) returns (failure: Option<OemError>, ghost sent: bool)
    requires bus.Valid()
    modifies bus`session, bus`sets
    ensures bus.Valid() && Covered(bus.limited, old(bus.session), bus.session, Price(step.Remote(), 2))
    ensures bus.sets == old(bus.sets) + if sent then [SetRequest(step, size)] else []
    ensures failure.None? ==> sent
    ensures Funded(bus.limited, old(bus.session), Price(step.Remote(), 2)) ==>
              (sent <==> failure.None? || failure.value.OemCommand?)
  {
    var reply := bus.Ask(step.Remote());
    if reply.Failure? { return Some(Identity(reply.error)), false; }
    if reply.value.manufacturer != KONTRON || !reply.value.supported { return Some(UnsupportedDevice), false; }
    var done;
    done, sent := bus.Set(step, size);
    failure := if done.Failure? then Some(OemCommand(done.error)) else None;
  }

  /** So many sequence numbers are reserved, or the session does not count them. */
  predicate Funded(limited: bool, s: Session, price: nat) {
    limited ==> s.reserved.Some? && s.reserved.value >= price && s.Sound()
  }

  function Reverse<T>(s: seq<T>): (r: seq<T>)
    ensures |r| == |s| && forall k | 0 <= k < |s| :: r[k] == s[|s| - 1 - k]
  {
    if s == [] then [] else [s[|s| - 1]] + Reverse(s[..|s| - 1])
  }

  // ----- Restoration

  /** One attempt to set a channel back: whether it was sent, and what went wrong. */
  datatype Attempt = Attempt(step: BufferStep, sent: bool, failure: Option<OemError>)

  function SentBack(attempts: seq<Attempt>): seq<SetRequest> {
    if attempts == [] then []
    else SentBack(attempts[..|attempts| - 1])
         + if attempts[|attempts| - 1].sent then [SetRequest(attempts[|attempts| - 1].step, 0)] else []
  }

  function Failures(attempts: seq<Attempt>): seq<(BufferStep, OemError)> {
    if attempts == [] then []
    else Failures(attempts[..|attempts| - 1])
         + if attempts[|attempts| - 1].failure.Some?
           then [(attempts[|attempts| - 1].step, attempts[|attempts| - 1].failure.value)] else []
  }

  function StepsOf(attempts: seq<Attempt>): (steps: seq<BufferStep>)
    ensures |steps| == |attempts| && forall k | 0 <= k < |attempts| :: steps[k] == attempts[k].step
  {
    seq(|attempts|, k requires 0 <= k < |attempts| => attempts[k].step)
  }

  /** A channel not reported as failed was set back. */
  predicate Honest(attempts: seq<Attempt>) {
    forall a | a in attempts :: a.failure.None? ==> a.sent
  }

  function Sets(steps: seq<BufferStep>, size: byte): (sets: seq<SetRequest>)
    ensures |sets| == |steps| && forall k | 0 <= k < |steps| :: sets[k] == SetRequest(steps[k], size)
  {
    seq(|steps|, k requires 0 <= k < |steps| => SetRequest(steps[k], size))
  }

  /** What it costs to send each of these steps once. */
  function StepsPrice(steps: seq<BufferStep>): nat {
    if steps == [] then 0 else StepsPrice(steps[..|steps| - 1]) + Price(steps[|steps| - 1].Remote(), 2)
  }

  /** Set the channels back to zero, last changed first, whatever fails. */
  method RestoreChannels(bus: OemBus, dispatched: seq<BufferStep>)
    returns (restore: seq<(BufferStep, OemError)>, ghost attempts: seq<Attempt>)
    requires bus.Valid()
    modifies bus`session, bus`sets
    ensures bus.Valid() && Covered(bus.limited, old(bus.session), bus.session, StepsPrice(dispatched))
    ensures StepsOf(attempts) == Reverse(dispatched) && Honest(attempts)
    ensures bus.sets == old(bus.sets) + SentBack(attempts) && restore == Failures(attempts)
  {
    hide SentBack, Failures, StepsPrice, Honest, Covered, Reverse, StepsOf;
    restore, attempts := [], [];
    NothingAttempted();
    var k := |dispatched|;
    CoveredNothing(bus);
    assert dispatched[..|dispatched|] == dispatched;
    while k > 0
      invariant 0 <= k <= |dispatched| && bus.Valid() && Honest(attempts)
      invariant StepsPrice(dispatched[..k]) <= StepsPrice(dispatched)
      invariant Covered(bus.limited, old(bus.session), bus.session, StepsPrice(dispatched) - StepsPrice(dispatched[..k]))
      invariant StepsOf(attempts) == Reverse(dispatched)[..|dispatched| - k]
      invariant bus.sets == old(bus.sets) + SentBack(attempts) && restore == Failures(attempts)
    {
      k := k - 1;
      ghost var t, p := bus.session, StepsPrice(dispatched) - StepsPrice(dispatched[..k + 1]);
      PriceOfFirst(dispatched, k);
      var failure;
      ghost var sent;
      failure, sent := SendOem(bus, dispatched[k], 0);
      CoveredMore(bus.limited, old(bus.session), t, bus.session, p, Price(dispatched[k].Remote(), 2));
      AttemptAdded(attempts, Attempt(dispatched[k], sent, failure));
      attempts := attempts + [Attempt(dispatched[k], sent, failure)];
      if failure.Some? { restore := restore + [(dispatched[k], failure.value)]; }
    }
    assert Reverse(dispatched)[..|dispatched|] == Reverse(dispatched);
    NoPrice(dispatched);
  }

  lemma NothingAttempted()
    ensures SentBack([]) == [] && Failures([]) == [] && Honest([]) && StepsOf([]) == []
  {
  }

  lemma CoveredNothing(bus: OemBus)
    requires bus.Valid()
    ensures Covered(bus.limited, bus.session, bus.session, 0)
  {
  }

  lemma PriceOfFirst(steps: seq<BufferStep>, k: nat)
    requires k < |steps|
    ensures StepsPrice(steps[..k + 1]) == StepsPrice(steps[..k]) + Price(steps[k].Remote(), 2)
  {
    assert steps[..k + 1][..k] == steps[..k];
  }

  lemma NoPrice(steps: seq<BufferStep>)
    ensures StepsPrice(steps[..0]) == 0
  {
  }

  lemma AttemptAdded(attempts: seq<Attempt>, a: Attempt)
    ensures SentBack(attempts + [a]) == SentBack(attempts) + if a.sent then [SetRequest(a.step, 0)] else []
    ensures Failures(attempts + [a]) == Failures(attempts) + if a.failure.Some? then [(a.step, a.failure.value)] else []
    ensures StepsOf(attempts + [a]) == StepsOf(attempts) + [a.step]
    ensures Honest(attempts) && (a.failure.None? ==> a.sent) ==> Honest(attempts + [a])
  {
    var longer := attempts + [a];
    assert longer[..|longer| - 1] == attempts && longer[|longer| - 1] == a;
    assert longer != [];
  }

  // ----- Negotiation

  function Steps(remote: bool): seq<BufferStep> {
    if remote then [LocalCurrent, LocalIpmb, RemoteCurrent] else [LocalCurrent]
  }

  /** What to reserve: enough for every step and, should the last one fail, for setting all of them back. */
  function Needed(remote: bool): nat { if remote then 20 else 4 }

  /** The identity check and the first `k` steps. */
  function PriceUpTo(remote: bool, k: nat): nat
    requires k <= |Steps(remote)|
  {
    (if remote then 2 else 0) + StepsPrice(Steps(remote)[..k]) + if k == 3 then 2 else 0
  }

  /** One step, with the identity check that the remote one begins with. */
  function StepPrice(remote: bool, index: nat): nat
    requires index < |Steps(remote)|
  {
    Price(Steps(remote)[index].Remote(), 2) + if index == 2 then 2 else 0
  }

  lemma PricesOfSteps(remote: bool)
    ensures forall k | 0 <= k < |Steps(remote)| :: PriceUpTo(remote, k + 1) == PriceUpTo(remote, k) + StepPrice(remote, k)
    ensures PriceUpTo(remote, 0) == (if remote then 2 else 0) && PriceUpTo(remote, 1) == if remote then 4 else 2
    ensures remote ==> PriceUpTo(remote, 2) == 6 && PriceUpTo(remote, 3) == 12
    ensures StepsPrice(Steps(remote)[..0]) == 0 && StepsPrice(Steps(remote)[..1]) == 2
    ensures remote ==> StepsPrice(Steps(remote)[..2]) == 4 && StepsPrice(Steps(remote)[..3]) == 8
  {
    var steps := Steps(remote);
    assert steps[..1][..0] == [] && steps[..1] == [LocalCurrent];
    if remote {
      assert steps[..2][..1] == steps[..1] && steps[..3][..2] == steps[..2] && steps[..3] == steps;
    }
  }

  /** The reservation is not a sequence number too large: if the last step fails when sent, all of it is used. */
  lemma NeededIsTight(remote: bool)
    ensures PriceUpTo(remote, |Steps(remote)|) + StepsPrice(Steps(remote)) == Needed(remote)
  {
    PricesOfSteps(remote);
    assert Steps(remote)[..|Steps(remote)|] == Steps(remote);
  }

  /** The steps that may have changed a size: those before the failed one, and that one if its command was given. */
  function Attempted(index: nat, source: BufferFailure): nat {
    index + if source.CommandFailure? && source.oem.OemCommand? then 1 else 0
  }

  predicate OverBudget(source: BufferFailure) { source.SequenceBudget? || source.UnverifiedSequenceBudget? }

  /** One step of the negotiation; before the remote one, the remote controller is looked at again. */
  method Negotiate(bus: OemBus, remote: bool, index: nat, expected: Option<DeviceIdentity>, size: byte)
    returns (source: Option<BufferFailure>, ghost sent: bool)
    requires bus.Valid() && index < |Steps(remote)| && expected.Some? == remote
    modifies bus`session, bus`sets
    ensures bus.Valid()
    ensures Covered(bus.limited, old(bus.session), bus.session, StepPrice(remote, index))
    ensures bus.sets == old(bus.sets) + if sent then [SetRequest(Steps(remote)[index], size)] else []
    ensures source.None? ==> sent
    ensures source.Some? ==> !OverBudget(source.value)
    ensures Funded(bus.limited, old(bus.session), StepPrice(remote, index)) ==>
              (sent <==> source.None? || Attempted(index, source.value) == index + 1)
  {
    PricesOfSteps(remote);
    var step := Steps(remote)[index];
    ghost var s := bus.session;
    if expected.Some? && index == 2 {
      var current := bus.Ask(true);
      if current.Failure? {
        CoveredByMore(bus.limited, s, bus.session, 2, 6);
        return Some(IdentityFailure(Identity(current.error))), false;
      }
      if current.value != expected.value {
        CoveredByMore(bus.limited, s, bus.session, 2, 6);
        return Some(TargetChanged), false;
      }
    }
    ghost var t := bus.session;
    var failure;
    failure, sent := SendOem(bus, step, size);
    if index == 2 {
      CoveredMore(bus.limited, s, t, bus.session, 2, 4);
    }
    source := if failure.Some? then Some(CommandFailure(failure.value)) else None;
  }

  /**
   What was sent: the new sizes for the first steps, and, if the negotiation failed, zero again for these
   very steps in reverse order; every step that is not reported was set back.
   */
  ghost predicate Undone(remote: bool, size: byte, before: seq<SetRequest>, after: seq<SetRequest>,
                         dispatched: seq<BufferStep>, attempts: seq<Attempt>, failure: Option<BufferError>)
  {
    && dispatched <= Steps(remote)
    && after == before + Sets(dispatched, size) + SentBack(attempts) && Honest(attempts)
    && StepsOf(attempts) == (if failure.None? then [] else Reverse(dispatched))
    && (failure.None? ==> dispatched == Steps(remote))
    && (failure.Some? ==> failure.value.restore == Failures(attempts))
  }

  lemma FundsLeft(limited: bool, s: Session, t: Session, total: nat, gone: nat, next: nat)
    requires Funded(limited, s, total) && Covered(limited, s, t, gone) && gone + next <= total
    ensures Funded(limited, t, next)
  {
  }

  lemma NothingUndone(remote: bool, size: byte, sets: seq<SetRequest>, step: BufferStep, source: BufferFailure)
    ensures Undone(remote, size, sets, sets, [], [], Some(BufferError(step, source, [])))
  {
    assert sets + Sets([], size) + [] == sets;
  }

  /** The steps one after the other; on failure, what was changed is set back. */
  method NegotiateAll(bus: OemBus, remote: bool, expected: Option<DeviceIdentity>, size: byte, ghost start: Session)
    returns (failure: Option<BufferError>, ghost dispatched: seq<BufferStep>, ghost attempts: seq<Attempt>)
    requires bus.Valid() && expected.Some? == remote
    requires Funded(bus.limited, start, Needed(remote))
    requires Covered(bus.limited, start, bus.session, PriceUpTo(remote, 0))
    modifies bus`session, bus`sets
    ensures bus.Valid() && Covered(bus.limited, start, bus.session, Needed(remote))
    ensures Undone(remote, size, old(bus.sets), bus.sets, dispatched, attempts, failure)
    ensures failure.Some? ==> !OverBudget(failure.value.source)
  {
    hide Covered, Funded, SentBack, Failures, PriceUpTo, StepsPrice;
    PricesOfSteps(remote);
    var steps := Steps(remote);
    dispatched, attempts := [], [];
    var index := 0;
    while index < |steps|
      invariant 0 <= index <= |steps| && bus.Valid()
      invariant Covered(bus.limited, start, bus.session, PriceUpTo(remote, index))
      invariant dispatched == steps[..index] && bus.sets == old(bus.sets) + Sets(dispatched, size)
    {
      ghost var s, price := bus.session, StepPrice(remote, index);
      FundsLeft(bus.limited, start, s, Needed(remote), PriceUpTo(remote, index), price);
      var source;
      ghost var sent;
      source, sent := Negotiate(bus, remote, index, expected, size);
      ghost var t := bus.session;
      CoveredMore(bus.limited, start, s, t, PriceUpTo(remote, index), price);
      if source.Some? {
        var attempted := Attempted(index, source.value);
        dispatched := steps[..attempted];
        var restore;
        restore, attempts := RestoreChannels(bus, steps[..attempted]);
        CoveredMore(bus.limited, start, t, bus.session, PriceUpTo(remote, index + 1), StepsPrice(dispatched));
        CoveredByMore(bus.limited, start, bus.session, PriceUpTo(remote, index + 1) + StepsPrice(dispatched), Needed(remote));
        return Some(BufferError(steps[index], source.value, restore)), dispatched, attempts;
      }
      index := index + 1;
      dispatched := steps[..index];
    }
    CoveredByMore(bus.limited, start, bus.session, PriceUpTo(remote, |steps|), Needed(remote));
    NothingSentBack();
    failure := None;
  }

  lemma NothingSentBack()
    ensures SentBack([]) == [] && Failures([]) == []
  {
  }

  method Configure(bus: OemBus, remote: bool, size: byte)
    returns (failure: Option<BufferError>, ghost dispatched: seq<BufferStep>, ghost attempts: seq<Attempt>)
    requires bus.Valid() && Funded(bus.limited, bus.session, Needed(remote))
    modifies bus`session, bus`sets
    ensures bus.Valid() && Covered(bus.limited, old(bus.session), bus.session, Needed(remote))
    ensures Undone(remote, size, old(bus.sets), bus.sets, dispatched, attempts, failure)
    ensures failure.Some? ==> !OverBudget(failure.value.source)
  {
    PricesOfSteps(remote);
    hide Covered, Funded, Undone, PriceUpTo, StepsPrice;
    CoveredAtFirst(bus.limited, bus.session, Needed(remote));
    dispatched, attempts := [], [];
    var expected := None;
    if remote {
      var identity := bus.Ask(true);
      CoveredByMore(bus.limited, old(bus.session), bus.session, 2, 20);
      if identity.Failure? {
        var source := IdentityFailure(Identity(identity.error));
        NothingUndone(remote, size, bus.sets, RemoteCurrent, source);
        return Some(BufferError(RemoteCurrent, source, [])), dispatched, attempts;
      }
      if identity.value.manufacturer != KONTRON {
        var source := IdentityFailure(UnsupportedDevice);
        NothingUndone(remote, size, bus.sets, RemoteCurrent, source);
        return Some(BufferError(RemoteCurrent, source, [])), dispatched, attempts;
      }
      expected := Some(identity.value);
    }
    failure, dispatched, attempts := NegotiateAll(bus, remote, expected, size, old(bus.session));
  }

  lemma CoveredAtFirst(limited: bool, s: Session, price: nat)
    requires Funded(limited, s, price)
    ensures Covered(limited, s, s, 0)
  {
  }

  /**
   Negotiate a buffer size. No request goes unsent for lack of sequence numbers once the negotiation has
   begun, and the reservation is given back. If it fails, exactly the channels whose size was sent are set
   back, in reverse order.
   */
  method SetLargeBuffer(bus: OemBus, remote: bool, size: byte)
    returns (failure: Option<BufferError>, ghost dispatched: seq<BufferStep>, ghost attempts: seq<Attempt>)
    requires bus.Valid()
    modifies bus`session, bus`sets
    ensures bus.Valid() && bus.session.starved == old(bus.session).starved
    ensures old(bus.session).reserved.None? ==> bus.session.reserved.None?
    ensures Undone(remote, size, old(bus.sets), bus.sets, dispatched, attempts, failure)
    ensures failure.Some? && OverBudget(failure.value.source) ==> bus.session == old(bus.session)
  {
    hide Undone;
    dispatched, attempts := [], [];
    var needed := Needed(remote);
    if bus.limited {
      var available := bus.session.remaining;
      if available < needed || bus.session.reserved.Some? {
        NothingUndone(remote, size, bus.sets, LocalCurrent, SequenceBudget(needed, available));
        return Some(BufferError(LocalCurrent, SequenceBudget(needed, available), [])), dispatched, attempts;
      }
      bus.session := bus.session.(reserved := Some(needed));
    } else if !bus.longMutations {
      NothingUndone(remote, size, bus.sets, LocalCurrent, UnverifiedSequenceBudget);
      return Some(BufferError(LocalCurrent, UnverifiedSequenceBudget, [])), dispatched, attempts;
    }
    failure, dispatched, attempts := Configure(bus, remote, size);
    if bus.limited {
      bus.session := bus.session.(reserved := None);
    }
  }
}
