/**
 Any number of guarded writers against one controller. Messages of one writer arrive in the order in which
 they were sent or are lost; answers may be lost; a writer may stop waiting while its message is still
 on the way. The controller grants the lock only when nobody holds it, and otherwise checks nothing.
 */
module SystemInfoWriters {
  import opened Ipmi
  import opened SystemInfo
  import opened SystemInfoGuard

  /** Set `number` of parameter `selector`, as last written. */
  type Store = map<(Selector, nat), seq<byte>>

  /** A job for a writer: a valid string and how to finish. */
  datatype Job = Job(text: InfoString, mode: CommitMode) {
    predicate Proper() { |text.bytes| <= 255 && !text.selector.SetInProgress? }

    function Count(): (n: nat)
      requires Proper()
      ensures 0 < n <= MAX_SET + 1
    {
      SetSelectorsFit(|text.bytes|);
      SetCount(|text.bytes|)
    }
  }

  /**
   A writer: its place once it has started, its messages on the way, the answer to the last one if that has
   come, and what the store held when its Complete took effect.
   */
  datatype Writer = Writer(place: Option<Place>, queue: seq<Message>, answer: Option<bool>, kept: Option<Store>)

  /** What has happened at the controller. */
  datatype Event = Granted(writer: nat) | Landed(writer: nat, index: nat) | Completed(writer: nat)

  datatype System = System(writers: seq<Writer>, holder: Option<nat>, store: Store, log: seq<Event>)

  datatype Step =
    | Start(writer: nat)
    | Deliver(writer: nat, accept: bool)
    | Lose(writer: nat, k: nat)
    | Answer(writer: nat)
    | GiveUp(writer: nat)

  const NEW_WRITER := Writer(None, [], None, None)

  function Initial(n: nat, store: Store): System {
    System(seq(n, k => NEW_WRITER), None, store, [])
  }

  predicate Waiting(w: Writer) { w.place.Some? && !w.place.value.phase.Finished? }

  /** The writer goes on after an outcome and, unless it has finished, sends its next message. */
  function Proceed(w: Writer, ok: bool, job: Job): Writer
    requires Waiting(w) && job.Proper()
  {
    var place := After(w.place.value, ok, job.Count(), job.mode);
    w.(place := Some(place), answer := None,
       queue := w.queue + if place.phase.Finished? then [] else [Awaited(place)])
  }

  /** The writer with its oldest message taken in; an answer reaches it if that was the one it waits for. */
  function Received(w: Writer, ok: bool): Writer
    requires w.queue != []
  {
    w.(queue := w.queue[1..], answer := if Waiting(w) && w.queue[0] == Awaited(w.place.value) then Some(ok) else w.answer)
  }

  /** What the controller does with a message of writer `i`. */
  function Handled(sys: System, i: nat, m: Message, accept: bool, job: Job): System
    requires i < |sys.writers| && sys.writers[i].queue != [] && job.Proper()
    requires m.PutBlock? ==> m.index < job.Count()
  {
    var w := sys.writers[i];
    match m
    case TakeLock =>
      var granted := accept && sys.holder.None?;
      sys.(writers := sys.writers[i := Received(w, granted)],
           holder := if granted then Some(i) else sys.holder,
           log := sys.log + if granted then [Granted(i)] else [])
    case PutBlock(k) =>
      sys.(writers := sys.writers[i := Received(w, accept)],
           store := if accept then sys.store[(job.text.selector, k) := WriteOf(job.text, k).bytes] else sys.store,
           log := sys.log + if accept then [Landed(i, k)] else [])
    case CommitWrite =>
      sys.(writers := sys.writers[i := Received(w, accept)])
    case Complete =>
      var done := Received(w, accept);
      sys.(writers := sys.writers[i := if accept then done.(kept := Some(sys.store)) else done],
           holder := if accept then None else sys.holder,
           log := sys.log + if accept then [Completed(i)] else [])
  }

  /** One step; a step that is not possible changes nothing. */
  function Apply(sys: System, step: Step, jobs: seq<Job>): System
    requires |jobs| == |sys.writers| && forall j | j in jobs :: j.Proper()
  {
    var i := step.writer;
    if i >= |sys.writers| then sys
    else
      var w, job := sys.writers[i], jobs[i];
      match step
      case Start(_) =>
        if w.place.Some? then sys
        else sys.(writers := sys.writers[i := Writer(Some(START), [TakeLock], None, w.kept)])
      case Deliver(_, accept) =>
        if w.queue == [] || (w.queue[0].PutBlock? && w.queue[0].index >= job.Count()) then sys
        else Handled(sys, i, w.queue[0], accept, job)
      case Lose(_, k) =>
        if k >= |w.queue| then sys
        else sys.(writers := sys.writers[i := w.(queue := w.queue[..k] + w.queue[k + 1..])])
      case Answer(_) =>
        if !Waiting(w) || w.answer.None? then sys
        else sys.(writers := sys.writers[i := Proceed(w, w.answer.value, job)])
      case GiveUp(_) =>
        if !Waiting(w) then sys
        else sys.(writers := sys.writers[i := Proceed(w, false, job)])
  }

  function Run(sys: System, steps: seq<Step>, jobs: seq<Job>): (later: System)
    requires |jobs| == |sys.writers| && forall j | j in jobs :: j.Proper()
    ensures |later.writers| == |sys.writers|
  {
    if steps == [] then sys
    else Apply(Run(sys, steps[..|steps| - 1], jobs), steps[|steps| - 1], jobs)
  }

  // ----- What each writer can count on

  /** The first `n` sets of the text are in the store. */
  predicate Stored(store: Store, text: InfoString, n: nat)
    requires |text.bytes| <= 255 && !text.selector.SetInProgress? && n <= SetCount(|text.bytes|)
  {
    forall k | 0 <= k < n :: (text.selector, k) in store && store[(text.selector, k)] == WriteOf(text, k).bytes
  }

  /** The messages that can still be on the way. */
  predicate Orderly(w: Writer, count: nat) {
    && |w.queue| <= 2
    && (forall m | m in w.queue :: m.PutBlock? ==> m.index < count)
    && (|w.queue| == 2 ==> w.queue[1].Complete? && !w.queue[0].Complete? && !w.queue[0].TakeLock?)
    && (w.place.None? ==> w.queue == [])
    && (w.place.Some? ==>
          match w.place.value.phase
          case AwaitLock => w.queue == [] || w.queue == [TakeLock]
          case AwaitBlock(i) => i < count && (w.queue == [] || w.queue == [PutBlock(i)])
          case AwaitCommit => w.queue == [] || w.queue == [CommitWrite]
          case AwaitComplete =>
            && TakeLock !in w.queue
            && (w.place.value.clean ==> w.queue == [] || w.queue == [Complete])
          case Finished(ok) => (TakeLock in w.queue ==> |w.queue| == 1) && (ok ==> w.queue == []))
  }

  /** A writer that holds the lock, or not, in a state that can come about. */
  predicate WriterOk(w: Writer, job: Job, mine: bool, store: Store)
    requires job.Proper()
  {
    var n := job.Count();
    && Orderly(w, n)
    && (mine || forall m | m in w.queue :: m.TakeLock?)
    && (w.answer.Some? ==> Waiting(w) && w.queue == [])
    && (w.place.Some? ==>
          var clean := w.place.value.clean;
          match w.place.value.phase
          case AwaitLock => w.answer == Some(true) ==> mine
          case AwaitBlock(i) =>
            && mine && clean && Stored(store, job.text, i)
            && (w.answer == Some(true) ==> Stored(store, job.text, i + 1))
          case AwaitCommit => mine && clean && Stored(store, job.text, n)
          case AwaitComplete =>
            && (clean && mine ==> Stored(store, job.text, n))
            && (clean && w.answer == Some(true) ==> w.kept.Some? && Stored(w.kept.value, job.text, n))
            && (w.answer.None? && w.queue == [Complete] ==> mine)
          case Finished(ok) => ok ==> w.kept.Some? && Stored(w.kept.value, job.text, n))
  }

  /** Who holds the lock after these events. */
  function HolderAfter(log: seq<Event>): Option<nat> {
    if log == [] then None
    else
      match log[|log| - 1]
      case Granted(w) => Some(w)
      case Landed(_, _) => HolderAfter(log[..|log| - 1])
      case Completed(_) => None
  }

  /** Every block and every Complete comes from the holder, and the lock is granted only when it is free. */
  predicate Exclusive(log: seq<Event>) {
    log == [] || (
      var earlier, e := log[..|log| - 1], log[|log| - 1];
      && Exclusive(earlier)
      && HolderAfter(earlier) == (if e.Granted? then None else Some(e.writer)))
  }

  predicate Inv(sys: System, jobs: seq<Job>) {
    && |jobs| == |sys.writers| && (forall j | j in jobs :: j.Proper())
    && sys.holder == HolderAfter(sys.log) && Exclusive(sys.log)
    && (forall i | 0 <= i < |jobs| :: WriterOk(sys.writers[i], jobs[i], sys.holder == Some(i), sys.store))
  }

  /** Writers other than `i` do not mind what happens as long as they do not hold the lock, before or after. */
  lemma OthersUnaffected(sys: System, later: System, i: nat, jobs: seq<Job>)
    requires Inv(sys, jobs) && i < |jobs| && |later.writers| == |sys.writers|
    requires forall j | 0 <= j < |jobs| && j != i :: later.writers[j] == sys.writers[j]
    requires later.holder == HolderAfter(later.log) && Exclusive(later.log)
    requires later.store == sys.store || sys.holder == Some(i)
    requires later.holder == sys.holder || (sys.holder == None && later.holder == Some(i))
             || (sys.holder == Some(i) && later.holder == None)
    requires WriterOk(later.writers[i], jobs[i], later.holder == Some(i), later.store)
    ensures Inv(later, jobs)
  {
    hide Orderly, Stored;
    forall j | 0 <= j < |jobs|
      ensures WriterOk(later.writers[j], jobs[j], later.holder == Some(j), later.store)
    {
      if j != i {
        assert WriterOk(sys.writers[j], jobs[j], sys.holder == Some(j), sys.store);
        if sys.holder != Some(j) {
          NotMineNoMatter(sys.writers[j], jobs[j], sys.store, later.store);
        }
      }
    }
  }

  lemma NotMineNoMatter(w: Writer, job: Job, store: Store, later: Store)
    requires job.Proper() && WriterOk(w, job, false, store)
    ensures WriterOk(w, job, false, later)
  {
  }

  // ----- Every step keeps it so

  lemma ProceedOk(w: Writer, ok: bool, job: Job, mine: bool, store: Store)
    requires job.Proper() && WriterOk(w, job, mine, store) && Waiting(w) && (ok ==> w.answer == Some(true))
    ensures WriterOk(Proceed(w, ok, job), job, mine, store)
  {
    var later := Proceed(w, ok, job);
    if !later.place.value.phase.Finished? {
      assert forall m | m in later.queue :: m in w.queue || m == Awaited(later.place.value);
    }
  }

  lemma LoseOk(w: Writer, k: nat, job: Job, mine: bool, store: Store)
    requires job.Proper() && WriterOk(w, job, mine, store) && k < |w.queue|
    ensures WriterOk(w.(queue := w.queue[..k] + w.queue[k + 1..]), job, mine, store)
  {
    var left := w.queue[..k] + w.queue[k + 1..];
    assert left == [] || (|w.queue| == 2 && left == [w.queue[1 - k]]);
  }

  /** A request for the lock: granted only if nobody holds it. */
  lemma TakeLockOk(w: Writer, job: Job, mine: bool, store: Store, granted: bool)
    requires job.Proper() && WriterOk(w, job, mine, store) && w.queue != [] && w.queue[0].TakeLock?
    requires granted ==> !mine
    ensures WriterOk(Received(w, granted), job, mine || granted, store)
  {
    assert w.queue[1..] == [];
  }

  /** A block from the holder. */
  lemma PutBlockOk(w: Writer, job: Job, store: Store, k: nat, accept: bool)
    requires job.Proper() && WriterOk(w, job, true, store) && w.queue != [] && w.queue[0] == PutBlock(k)
    requires k < job.Count()
    ensures var later := if accept then store[(job.text.selector, k) := WriteOf(job.text, k).bytes] else store;
            WriterOk(Received(w, accept), job, true, later)
  {
    assert |w.queue| == 2 ==> w.queue[1..] == [Complete];
    assert |w.queue| == 1 ==> w.queue[1..] == [];
    hide WriteOf;
  }

  lemma CommitOk(w: Writer, job: Job, store: Store, accept: bool)
    requires job.Proper() && WriterOk(w, job, true, store) && w.queue != [] && w.queue[0].CommitWrite?
    ensures WriterOk(Received(w, accept), job, true, store)
  {
    assert |w.queue| == 2 ==> w.queue[1..] == [Complete];
    assert |w.queue| == 1 ==> w.queue[1..] == [];
  }

  /** Complete from the holder is the last of its messages. */
  lemma CompleteOk(w: Writer, job: Job, store: Store, accept: bool)
    requires job.Proper() && WriterOk(w, job, true, store) && w.queue != [] && w.queue[0].Complete?
    ensures var done := Received(w, accept);
            WriterOk(if accept then done.(kept := Some(store)) else done, job, !accept, store)
  {
    assert w.queue[1..] == [];
  }

  lemma ExclusiveGrows(log: seq<Event>, e: Event)
    requires Exclusive(log) && HolderAfter(log) == (if e.Granted? then None else Some(e.writer))
    ensures Exclusive(log + [e])
    ensures HolderAfter(log + [e]) == match e
                                      case Granted(w) => Some(w)
                                      case Landed(_, _) => HolderAfter(log)
                                      case Completed(_) => None
  {
    var longer := log + [e];
    assert longer[..|longer| - 1] == log && longer != [];
  }

  lemma DeliverOk(sys: System, i: nat, accept: bool, jobs: seq<Job>)
    requires Inv(sys, jobs) && i < |jobs| && sys.writers[i].queue != []
    ensures var m := sys.writers[i].queue[0];
            (m.PutBlock? ==> m.index < jobs[i].Count()) && Inv(Handled(sys, i, m, accept, jobs[i]), jobs)
  {
    hide Exclusive, HolderAfter, Orderly, Stored;
    var w, job := sys.writers[i], jobs[i];
    var m := w.queue[0];
    assert WriterOk(w, job, sys.holder == Some(i), sys.store);
    HeadIsKnown(w, job.Count());
    assert m in w.queue;
    var later := Handled(sys, i, m, accept, job);
    match m
    case TakeLock =>
      var granted := accept && sys.holder.None?;
      TakeLockOk(w, job, sys.holder == Some(i), sys.store, granted);
      if granted { ExclusiveGrows(sys.log, Granted(i)); }
      assert sys.log + [] == sys.log;
      OthersUnaffected(sys, later, i, jobs);
    case PutBlock(k) =>
      PutBlockOk(w, job, sys.store, k, accept);
      if accept { ExclusiveGrows(sys.log, Landed(i, k)); }
      assert sys.log + [] == sys.log;
      OthersUnaffected(sys, later, i, jobs);
    case CommitWrite =>
      CommitOk(w, job, sys.store, accept);
      OthersUnaffected(sys, later, i, jobs);
    case Complete =>
      CompleteOk(w, job, sys.store, accept);
      if accept { ExclusiveGrows(sys.log, Completed(i)); }
      assert sys.log + [] == sys.log;
      OthersUnaffected(sys, later, i, jobs);
  }

  lemma HeadIsKnown(w: Writer, count: nat)
    requires Orderly(w, count) && w.queue != []
    ensures w.queue[0].PutBlock? ==> w.queue[0].index < count
  {
    assert w.queue[0] in w.queue;
  }

  lemma StepKeepsInv(sys: System, step: Step, jobs: seq<Job>)
    requires Inv(sys, jobs)
    ensures Inv(Apply(sys, step, jobs), jobs)
  {
    var i := step.writer;
    if i < |sys.writers| {
      var w, job, mine := sys.writers[i], jobs[i], sys.holder == Some(i);
      assert WriterOk(w, job, mine, sys.store);
      var later := Apply(sys, step, jobs);
      match step
      case Start(_) =>
        OthersUnaffected(sys, later, i, jobs);
      case Deliver(_, accept) =>
        if w.queue != [] { DeliverOk(sys, i, accept, jobs); }
      case Lose(_, k) =>
        if k < |w.queue| {
          LoseOk(w, k, job, mine, sys.store);
          OthersUnaffected(sys, later, i, jobs);
        }
      case Answer(_) =>
        if Waiting(w) && w.answer.Some? {
          ProceedOk(w, w.answer.value, job, mine, sys.store);
          OthersUnaffected(sys, later, i, jobs);
        }
      case GiveUp(_) =>
        if Waiting(w) {
          ProceedOk(w, false, job, mine, sys.store);
          OthersUnaffected(sys, later, i, jobs);
        }
    }
  }

  lemma {:induction false} RunKeepsInv(jobs: seq<Job>, store: Store, steps: seq<Step>)
    requires forall j | j in jobs :: j.Proper()
    ensures Inv(Run(Initial(|jobs|, store), steps, jobs), jobs)
  {
    if steps != [] {
      RunKeepsInv(jobs, store, steps[..|steps| - 1]);
      StepKeepsInv(Run(Initial(|jobs|, store), steps[..|steps| - 1], jobs), steps[|steps| - 1], jobs);
    }
  }

  // ----- What the lock is for

  /** Between the grant of the lock to `w` and its Complete, only blocks of `w` land. */
  lemma {:induction false} NoForeignBlock(log: seq<Event>, j: nat, k: nat)
    requires Exclusive(log) && j < k < |log| && log[j].Granted? && log[k].Landed?
    requires forall m | j < m < k :: log[m] != Completed(log[j].writer)
    ensures log[k].writer == log[j].writer
  {
    ExclusivePrefix(log, k + 1);
    assert log[..k + 1][..k] == log[..k];
    HolderStays(log, j, k);
  }

  lemma {:induction false} ExclusivePrefix(log: seq<Event>, n: nat)
    requires Exclusive(log) && n <= |log|
    ensures Exclusive(log[..n])
    decreases |log|
  {
    if n < |log| {
      ExclusivePrefix(log[..|log| - 1], n);
      assert log[..|log| - 1][..n] == log[..n];
    } else {
      assert log[..n] == log;
    }
  }

  lemma {:induction false} HolderStays(log: seq<Event>, j: nat, k: nat)
    requires Exclusive(log) && j < k <= |log| && log[j].Granted?
    requires forall m | j < m < k :: log[m] != Completed(log[j].writer)
    ensures HolderAfter(log[..k]) == Some(log[j].writer)
    decreases k
  {
    assert log[..k][..k - 1] == log[..k - 1];
    if k > j + 1 {
      HolderStays(log, j, k - 1);
      ExclusivePrefix(log, k);
    }
  }

  /** In every run, no other writer's block lands between a writer's grant and its Complete. */
  lemma LockExcludes(jobs: seq<Job>, store: Store, steps: seq<Step>, j: nat, k: nat)
    requires forall t | t in jobs :: t.Proper()
    requires var log := Run(Initial(|jobs|, store), steps, jobs).log;
             && j < k < |log| && log[j].Granted? && log[k].Landed?
             && forall m | j < m < k :: log[m] != Completed(log[j].writer)
    ensures var log := Run(Initial(|jobs|, store), steps, jobs).log;
            log[k].writer == log[j].writer
  {
    RunKeepsInv(jobs, store, steps);
    NoForeignBlock(Run(Initial(|jobs|, store), steps, jobs).log, j, k);
  }

  /** All the sets of a text, read from a store. */
  function BlocksIn(store: Store, text: InfoString): (blocks: seq<StringBlock>)
    requires |text.bytes| <= 255 && !text.selector.SetInProgress? && Stored(store, text, SetCount(|text.bytes|))
    ensures |blocks| == SetCount(|text.bytes|)
    ensures forall k | 0 <= k < |blocks| ::
              Ok(Block(blocks[k])) == Decode(Response(REVISION, store[(text.selector, k)]), text.selector, k)
  {
    EchoedSets(text);
    seq(SetCount(|text.bytes|), k requires 0 <= k < SetCount(|text.bytes|) =>
      Decode(Response(REVISION, store[(text.selector, k)]), text.selector, k).value.block)
  }

  function Reading(store: Store, text: InfoString, utf8: seq<byte> -> bool): Result<InfoString, InfoError>
    requires |text.bytes| <= 255 && !text.selector.SetInProgress? && Stored(store, text, SetCount(|text.bytes|))
  {
    Assembled(BlocksIn(store, text), utf8)
  }

  /** In every run, a writer that reports success left sets that read back as its string when its Complete took effect. */
  lemma SuccessReadsBack(jobs: seq<Job>, store: Store, steps: seq<Step>, i: nat, utf8: seq<byte> -> bool)
    requires (forall t | t in jobs :: t.Proper()) && i < |jobs| && Valid(jobs[i].text, utf8)
    requires Run(Initial(|jobs|, store), steps, jobs).writers[i].place == Some(Place(Finished(true), true))
    ensures var w := Run(Initial(|jobs|, store), steps, jobs).writers[i];
            && w.kept.Some? && Stored(w.kept.value, jobs[i].text, SetCount(|jobs[i].text.bytes|))
            && Reading(w.kept.value, jobs[i].text, utf8) == Ok(jobs[i].text)
  {
    RunKeepsInv(jobs, store, steps);
    var sys, text := Run(Initial(|jobs|, store), steps, jobs), jobs[i].text;
    assert WriterOk(sys.writers[i], jobs[i], sys.holder == Some(i), sys.store);
    StoredReadsBack(sys.writers[i].kept.value, text, utf8);
  }

  lemma StoredReadsBack(store: Store, text: InfoString, utf8: seq<byte> -> bool)
    requires Valid(text, utf8) && Stored(store, text, SetCount(|text.bytes|))
    ensures Reading(store, text, utf8) == Ok(text)
  {
    RoundTrip(text, utf8);
    assert BlocksIn(store, text) == ReadBack(text);
  }

  // ----- Why the order of a writer's messages matters

  /** The two messages of writer `i` change places on the way. */
  function Overtaken(sys: System, i: nat): System
    requires i < |sys.writers| && |sys.writers[i].queue| == 2
  {
    var w := sys.writers[i];
    sys.(writers := sys.writers[i := w.(queue := [w.queue[1], w.queue[0]])])
  }

  /** A writer that has given up on its first block and released the lock, with both messages still on the way. */
  function TwoOnTheWay(jobs: seq<Job>): (sys: System)
    requires |jobs| == 2 && forall j | j in jobs :: j.Proper()
    ensures |sys.writers| == 2
  {
    var start := Apply(Initial(2, map[]), Start(0), jobs);
    Apply(Apply(Apply(start, Deliver(0, true), jobs), Answer(0), jobs), GiveUp(0), jobs)
  }

  /** The messages arrive; in between, the other writer takes the lock. */
  function BothArrive(sys: System, jobs: seq<Job>): System
    requires |jobs| == 2 == |sys.writers| && forall j | j in jobs :: j.Proper()
  {
    var released := Apply(sys, Deliver(0, true), jobs);
    var taken := Apply(Apply(released, Start(1), jobs), Deliver(1, true), jobs);
    Apply(taken, Deliver(0, true), jobs)
  }

  /** If messages of one writer can overtake each other, a late block lands in another writer's transaction. */
  lemma OvertakingBreaksTheLock(jobs: seq<Job>)
    requires |jobs| == 2 && forall j | j in jobs :: j.Proper()
    ensures |TwoOnTheWay(jobs).writers[0].queue| == 2
    ensures BothArrive(Overtaken(TwoOnTheWay(jobs), 0), jobs).log == [Granted(0), Completed(0), Granted(1), Landed(0, 0)]
    ensures !Exclusive(BothArrive(Overtaken(TwoOnTheWay(jobs), 0), jobs).log)
  {
    hide Run, HolderAfter, Exclusive, WriteOf;
    GaveUpWithBothSent(jobs);
    var late := Overtaken(TwoOnTheWay(jobs), 0);
    var released := Apply(late, Deliver(0, true), jobs);
    assert released.writers[0].queue == [PutBlock(0)] && released.holder == None;
    var taken := Apply(Apply(released, Start(1), jobs), Deliver(1, true), jobs);
    assert taken.log == [Granted(0), Completed(0), Granted(1)] && taken.writers[0].queue == [PutBlock(0)];
    NotExclusive(BothArrive(late, jobs).log);
  }

  lemma GaveUpWithBothSent(jobs: seq<Job>)
    requires |jobs| == 2 && forall j | j in jobs :: j.Proper()
    ensures var sys := TwoOnTheWay(jobs);
            && sys.writers[0].queue == [PutBlock(0), Complete] && sys.log == [Granted(0)] && sys.holder == Some(0)
            && sys.writers[1] == NEW_WRITER
  {
    hide WriteOf;
  }

  lemma NotExclusive(log: seq<Event>)
    requires log == [Granted(0), Completed(0), Granted(1), Landed(0, 0)]
    ensures !Exclusive(log)
  {
    assert log[..3] == [Granted(0), Completed(0), Granted(1)];
    assert HolderAfter(log[..|log| - 1]) == Some(1);
  }
}
