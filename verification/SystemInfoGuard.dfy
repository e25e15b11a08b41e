/**
 The guarded write of a System Info string: take the set-in-progress lock, write the sets, perhaps
 commit, and release. A writer is a little machine that reacts to one outcome after the other; the
 method that sends the messages does exactly what the machine does.
 */
module SystemInfoGuard {
  import opened Ipmi
  import opened SystemInfo

  datatype CommitMode = CompleteOnly | CommitThenComplete

  /** What a writer sends. */
  datatype Message = TakeLock | PutBlock(index: nat) | CommitWrite | Complete

  /** What the writer is waiting for; `Finished` says whether everything was acknowledged. */
  datatype Phase = AwaitLock | AwaitBlock(index: nat) | AwaitCommit | AwaitComplete | Finished(ok: bool)

  /** The writer's place in the procedure, and whether every answer so far was good. */
  datatype Place = Place(phase: Phase, clean: bool)

  const START: Place := Place(AwaitLock, true)

  /** The message whose outcome is awaited. */
  function Awaited(p: Place): Message
    requires !p.phase.Finished?
  {
    match p.phase
    case AwaitLock => TakeLock
    case AwaitBlock(i) => PutBlock(i)
    case AwaitCommit => CommitWrite
    case AwaitComplete => Complete
  }

  /** What the writer does next, with `count` blocks to write, after the awaited outcome was good or not. */
  function After(p: Place, ok: bool, count: nat, mode: CommitMode): Place
    requires !p.phase.Finished? && count > 0
  {
    match p.phase
    case AwaitLock => if ok then Place(AwaitBlock(0), true) else Place(Finished(false), false)
    case AwaitBlock(i) =>
      if !ok then Place(AwaitComplete, false)
      else if i + 1 < count then Place(AwaitBlock(i + 1), p.clean)
      else if mode.CommitThenComplete? then Place(AwaitCommit, p.clean)
      else Place(AwaitComplete, p.clean)
    case AwaitCommit => Place(AwaitComplete, p.clean && ok)
    case AwaitComplete => Place(Finished(p.clean && ok), p.clean && ok)
  }

  /** The place reached after these outcomes. */
  function Play(outcomes: seq<bool>, count: nat, mode: CommitMode): Place
    requires count > 0
  {
    if outcomes == [] then START
    else
      var p := Play(outcomes[..|outcomes| - 1], count, mode);
      if p.phase.Finished? then p else After(p, outcomes[|outcomes| - 1], count, mode)
  }

  /** The messages whose outcomes these were. */
  function Messages(outcomes: seq<bool>, count: nat, mode: CommitMode): seq<Message>
    requires count > 0
  {
    if outcomes == [] then []
    else
      var earlier := outcomes[..|outcomes| - 1];
      var p := Play(earlier, count, mode);
      Messages(earlier, count, mode) + if p.phase.Finished? then [] else [Awaited(p)]
  }

  function Put(m: Message, s: InfoString): Write
    requires |s.bytes| <= 255 && !s.selector.SetInProgress?
    requires m.PutBlock? ==> m.index < SetCount(|s.bytes|)
  {
    match m
    case TakeLock => Write(SetInProgress, [1])
    case PutBlock(i) => WriteOf(s, i)
    case CommitWrite => Write(SetInProgress, [2])
    case Complete => Write(SetInProgress, [0])
  }

  // ----- What is sent, whatever the outcomes

  function Blocks(n: nat): (ms: seq<Message>)
    ensures |ms| == n && forall k | 0 <= k < n :: ms[k] == PutBlock(k)
  {
    seq(n, k requires 0 <= k < n => PutBlock(k))
  }

  /** Everything a writer can have sent up to a place. */
  ghost predicate SentUpTo(ms: seq<Message>, p: Place, count: nat, mode: CommitMode) {
    match p.phase
    case AwaitLock => ms == []
    case AwaitBlock(i) => p.clean && i < count && ms == [TakeLock] + Blocks(i)
    case AwaitCommit => p.clean && mode.CommitThenComplete? && ms == [TakeLock] + Blocks(count)
    case AwaitComplete =>
      Ends(ms, p.clean, count, mode)
    case Finished(ok) =>
      || (!ok && ms == [TakeLock])
      || (ms != [] && Last(ms) == Complete && Ends(ms[..|ms| - 1], ok, count, mode))
  }

  function Last(ms: seq<Message>): Message
    requires ms != []
  {
    ms[|ms| - 1]
  }

  /** The lock, the first `n` blocks and perhaps a commit; all of them, and the commit if there is to be one, if `clean`. */
  predicate EndsWith(ms: seq<Message>, n: nat, committed: bool, clean: bool, count: nat, mode: CommitMode) {
    && 1 <= n <= count && ms == [TakeLock] + Blocks(n) + (if committed then [CommitWrite] else [])
    && (committed ==> n == count && mode.CommitThenComplete?)
    && (clean ==> n == count && committed == mode.CommitThenComplete?)
  }

  ghost predicate Ends(ms: seq<Message>, clean: bool, count: nat, mode: CommitMode) {
    exists n: nat, committed: bool :: EndsWith(ms, n, committed, clean, count, mode)
  }

  /**
   At most one begin, each block at most once and in order, the commit only after all of them, and Complete
   exactly once after every acknowledged begin.
   */
  lemma {:induction false} MessagesAreOrderly(outcomes: seq<bool>, count: nat, mode: CommitMode)
    requires count > 0
    ensures SentUpTo(Messages(outcomes, count, mode), Play(outcomes, count, mode), count, mode)
  {
    if outcomes != [] {
      var earlier := outcomes[..|outcomes| - 1];
      MessagesAreOrderly(earlier, count, mode);
      assert Messages(earlier, count, mode) + [] == Messages(earlier, count, mode);
      OneMoreMessage(Messages(earlier, count, mode), Play(earlier, count, mode), outcomes[|outcomes| - 1], count, mode);
    }
  }

  lemma OneMoreMessage(ms: seq<Message>, p: Place, ok: bool, count: nat, mode: CommitMode)
    requires count > 0 && SentUpTo(ms, p, count, mode)
    ensures !p.phase.Finished? ==> SentUpTo(ms + [Awaited(p)], After(p, ok, count, mode), count, mode)
  {
    match p.phase
    case AwaitLock =>
      assert ms + [TakeLock] == [TakeLock] + Blocks(0);
    case AwaitBlock(i) =>
      var longer := ms + [PutBlock(i)];
      assert longer == [TakeLock] + Blocks(i + 1) == [TakeLock] + Blocks(i + 1) + [];
      if After(p, ok, count, mode).phase.AwaitComplete? {
        assert EndsWith(longer, i + 1, false, After(p, ok, count, mode).clean, count, mode);
      }
    case AwaitCommit =>
      assert EndsWith(ms + [CommitWrite], count, true, ok, count, mode);
    case AwaitComplete =>
      var n: nat, committed: bool :| EndsWith(ms, n, committed, p.clean, count, mode);
      var longer := ms + [Complete];
      assert longer[..|longer| - 1] == ms;
      assert EndsWith(longer[..|longer| - 1], n, committed, p.clean && ok, count, mode);
    case Finished(_) =>
  }

  // ----- The procedure

  datatype GuardError<+E> =
    | Begin(error: E)
    | Uncertain(failedBlock: Option<(nat, E)>, commit: Option<E>, cleanup: Option<E>)

  /** Whatever carries the messages to the controller; any of them may fail. */
  class Link {
    ghost var sent: seq<Write>
    ghost var outcomes: seq<bool>

    constructor ()
      ensures sent == [] && outcomes == []
    {
      sent, outcomes := [], [];
    }

    method Send(w: Write) returns (failure: Option<IpmiError>)
      modifies this
      ensures sent == old(sent) + [w] && outcomes == old(outcomes) + [failure.None?]
    {
      var fails: bool := *;
      failure := None;
      if fails {
        var error: IpmiError := *;
        failure := Some(error);
      }
      sent, outcomes := sent + [w], outcomes + [failure.None?];
    }
  }

  function Puts(ms: seq<Message>, s: InfoString): (ws: seq<Write>)
    requires |s.bytes| <= 255 && !s.selector.SetInProgress?
    requires forall m | m in ms :: m.PutBlock? ==> m.index < SetCount(|s.bytes|)
    ensures |ws| == |ms|
  {
    if ms == [] then [] else Puts(ms[..|ms| - 1], s) + [Put(ms[|ms| - 1], s)]
  }

  /** The messages so far are those of the machine, and it has got this far. */
  ghost predicate InStep(before: seq<Write>, after: seq<Write>, outcomes: seq<bool>, place: Place, s: InfoString,
                         mode: CommitMode)
    requires |s.bytes| <= 255 && !s.selector.SetInProgress?
  {
    var count := SetCount(|s.bytes|);
    var ms := Messages(outcomes, count, mode);
    && Play(outcomes, count, mode) == place
    && (forall m | m in ms :: m.PutBlock? ==> m.index < count)
    && after == before + Puts(ms, s)
  }

  lemma StepTaken(before: seq<Write>, after: seq<Write>, outcomes: seq<bool>, place: Place, ok: bool, s: InfoString,
                  mode: CommitMode)
    requires |s.bytes| <= 255 && !s.selector.SetInProgress?
    requires InStep(before, after, outcomes, place, s, mode) && !place.phase.Finished?
    requires place.phase.AwaitBlock? ==> place.phase.index < SetCount(|s.bytes|)
    ensures InStep(before, after + [Put(Awaited(place), s)], outcomes + [ok],
                   After(place, ok, SetCount(|s.bytes|), mode), s, mode)
  {
    var count, longer := SetCount(|s.bytes|), outcomes + [ok];
    assert longer[..|longer| - 1] == outcomes;
    var ms := Messages(outcomes, count, mode);
    var more := ms + [Awaited(place)];
    assert Messages(longer, count, mode) == more;
    assert more[..|more| - 1] == ms;
  }

  predicate FirstFailure(outcomes: seq<bool>, k: nat) {
    k < |outcomes| && !outcomes[k] && forall j | 0 <= j < k :: outcomes[j]
  }

  /**
   The guarded write. It sends what the machine sends, and reports success exactly if every message was
   acknowledged; a failed begin is not cleaned up, any other failure is.
   */
  method WriteGuarded(link: Link, s: InfoString, mode: CommitMode)
    returns (r: Result<(), GuardError<IpmiError>>, ghost outcomes: seq<bool>)
    requires |s.bytes| <= 255 && !s.selector.SetInProgress?
    modifies link
    ensures link.outcomes == old(link.outcomes) + outcomes
    ensures InStep(old(link.sent), link.sent, outcomes, Place(Finished(r.Ok?), r.Ok?), s, mode)
    ensures r.Err? && r.error.Begin? <==> |outcomes| == 1
    ensures r.Err? && r.error.Uncertain? && r.error.failedBlock.Some? ==>
              FirstFailure(outcomes, r.error.failedBlock.value.0 + 1)
  {
    hide Play, Messages, InStep;
    var writes := ToWrites(s);
    outcomes := [];
    Started(link.sent, s, mode);
    StepTaken(link.sent, link.sent, [], START, true, s, mode);
    StepTaken(link.sent, link.sent, [], START, false, s, mode);
    var failure := link.Send(Write(SetInProgress, [1]));
    outcomes := [failure.None?];
    if failure.Some? {
      assert [] + [false] == outcomes;
      return Err(Begin(failure.value)), outcomes;
    }
    assert [] + [true] == outcomes;
    var failedBlock;
    failedBlock, outcomes := WriteBlocks(link, writes, s, mode, old(link.sent), outcomes);
    var commit: Option<IpmiError> := None;
    if failedBlock.None? && mode.CommitThenComplete? {
      ghost var sent := link.sent;
      commit := link.Send(Write(SetInProgress, [2]));
      StepTaken(old(link.sent), sent, outcomes, Place(AwaitCommit, true), commit.None?, s, mode);
      outcomes := outcomes + [commit.None?];
    }
    ghost var clean, sent := failedBlock.None? && commit.None?, link.sent;
    var cleanup := link.Send(Write(SetInProgress, [0]));
    StepTaken(old(link.sent), sent, outcomes, Place(AwaitComplete, clean), cleanup.None?, s, mode);
    outcomes := outcomes + [cleanup.None?];
    r := if failedBlock.None? && commit.None? && cleanup.None? then Ok(())
         else Err(Uncertain(failedBlock, commit, cleanup));
  }

  /** Where the writer is before block `index`, or after the last one. */
  function BeforeBlock(index: nat, count: nat, mode: CommitMode): Place {
    if index < count then Place(AwaitBlock(index), true)
    else if mode.CommitThenComplete? then Place(AwaitCommit, true)
    else Place(AwaitComplete, true)
  }

  /** The blocks one after the other, up to the first that fails. */
  method WriteBlocks(link: Link, writes: seq<Write>, s: InfoString, mode: CommitMode, ghost start: seq<Write>,
                     ghost before: seq<bool>)
    returns (failedBlock: Option<(nat, IpmiError)>, ghost outcomes: seq<bool>)
    requires |s.bytes| <= 255 && !s.selector.SetInProgress? && writes == WritesOf(s)
    requires before == [true] && InStep(start, link.sent, before, BeforeBlock(0, |writes|, mode), s, mode)
    modifies link
    ensures |outcomes| >= 2 && link.outcomes == old(link.outcomes) + outcomes[1..] && outcomes[0]
    ensures InStep(start, link.sent, outcomes,
                   if failedBlock.Some? then Place(AwaitComplete, false) else BeforeBlock(|writes|, |writes|, mode), s, mode)
    ensures failedBlock.Some? ==> FirstFailure(outcomes, failedBlock.value.0 + 1)
  {
    hide Play, Messages, InStep;
    failedBlock, outcomes := None, before;
    var index := 0;
    while index < |writes|
      invariant 0 <= index <= |writes| && |outcomes| == 1 + index
      invariant link.outcomes == old(link.outcomes) + outcomes[1..]
      invariant forall k | 0 <= k <= index :: outcomes[k]
      invariant InStep(start, link.sent, outcomes, BeforeBlock(index, |writes|, mode), s, mode)
    {
      ghost var sent := link.sent;
      var failure := link.Send(writes[index]);
      StepTaken(start, sent, outcomes, Place(AwaitBlock(index), true), failure.None?, s, mode);
      outcomes := outcomes + [failure.None?];
      if failure.Some? { return Some((index, failure.value)), outcomes; }
      index := index + 1;
    }
  }

  lemma Started(sent: seq<Write>, s: InfoString, mode: CommitMode)
    requires |s.bytes| <= 255 && !s.selector.SetInProgress?
    ensures InStep(sent, sent, [], START, s, mode)
  {
    assert sent + [] == sent;
  }
}
