/**
 Which request a reply on a serial line is taken for. The sequence number has six bits, so it
 comes round again after 64 requests. Any failed exchange closes the connection, so every request but the
 last was answered; the controller may answer each request once per hop, at any time or never.
 */
module SerialCorrelation {
  import opened Ipmi
  import opened SerialFrame
  import opened SerialMessage

  const MAX_UNRELATED: nat := 32

  /** The request that awaits its answer: what the first reply, and perhaps a second, must look like. */
  datatype Pending = Pending(outer: Expected, inner: Option<Expected>)

  datatype Answer = Answer(expected: Expected, body: seq<byte>)

  /** How an answer was reached; the last three go through a bridge. */
  datatype Route = Straight | Refused | Enclosed | Relayed

  predicate Sound(p: Pending) {
    p.outer.sequence < 64 && (p.inner.Some? ==> p.inner.value.sequence < 64)
  }

  /** Frame `k` is the first from `from` on that replies to `e`, and is not too far off. */
  predicate FirstMatch(mode: SerialMode, e: Expected, frames: seq<seq<byte>>, from: nat, k: nat)
    requires e.sequence < 64
  {
    && from <= k < |frames| && k - from < MAX_UNRELATED
    && Match(mode, e, frames[k]).Some?
    && forall j | from <= j < k :: Match(mode, e, frames[j]).None?
  }

  /** The frames received make `answer` the answer: `first` is the reply to the request, `last` the one that has it. */
  predicate Answered(mode: SerialMode, p: Pending, frames: seq<seq<byte>>, first: nat, last: nat, route: Route,
                     answer: Answer)
    requires Sound(p)
  {
    && FirstMatch(mode, p.outer, frames, 0, first)
    && |frames| == last + 1
    && var body := Match(mode, p.outer, frames[first]).value;
       if p.inner.None? then route.Straight? && last == first && answer == Answer(p.outer, body)
       else
         && answer.expected == p.inner.value
         && (body[0] != 0 ==> route.Refused? && last == first && answer.body == body)
         && (body[0] == 0 ==> route.Enclosed? || route.Relayed?)
         && (route.Enclosed? ==>
               last == first && |body| >= 10 && ParseIpmb(body[2..], p.inner.value) == Some(answer.body))
         && (route.Relayed? ==>
               |body| == 1 && FirstMatch(mode, p.inner.value, frames, first + 1, last)
               && Match(mode, p.inner.value, frames[last]) == Some(answer.body))
  }

  // ----- Where the frames come from

  datatype Hop = OuterHop | InnerHop

  datatype Delivery = Noise | Reply(origin: nat, hop: Hop, body: seq<byte>)

  /** The sequence number goes up by one before each request. */
  function SequenceOf(n: nat): byte { (n + 1) % 64 }

  function Asked(requests: seq<Request>, n: nat, hop: Hop): (e: Option<Expected>)
    requires n < |requests|
    ensures e.Some? ==> e.value.sequence < 64
  {
    if hop.OuterHop? then Some(Outer(requests[n], SequenceOf(n))) else Inner(requests[n], SequenceOf(n))
  }

  function PendingOf(requests: seq<Request>): (p: Pending)
    requires requests != []
    ensures Sound(p)
  {
    var n := |requests| - 1;
    Pending(Outer(requests[n], SequenceOf(n)), Inner(requests[n], SequenceOf(n)))
  }

  /** The frame is the reply that the delivery says it is, or nothing that the pending request could be waiting for. */
  predicate Carries(mode: SerialMode, requests: seq<Request>, d: Delivery, frame: seq<byte>)
    requires requests != []
  {
    if d.Reply? then
      && d.origin < |requests| && d.body != []
      && Asked(requests, d.origin, d.hop).Some?
      && frame == ReplyFrame(mode, Asked(requests, d.origin, d.hop).value, d.body)
    else
      var p := PendingOf(requests);
      && Match(mode, p.outer, frame).None?
      && (p.inner.Some? ==> Match(mode, p.inner.value, frame).None?)
  }

  /** The hops that have given their only reply with this delivery; a bridge may enclose the reply of the far end. */
  function Uses(d: Delivery): set<(nat, Hop)> {
    if d.Noise? then {}
    else if d.hop.OuterHop? && |d.body| >= 10 && d.body[0] == 0 then {(d.origin, OuterHop), (d.origin, InnerHop)}
    else {(d.origin, d.hop)}
  }

  function Used(ds: seq<Delivery>): set<(nat, Hop)> {
    if ds == [] then {} else Used(ds[..|ds| - 1]) + Uses(ds[|ds| - 1])
  }

  /** No hop replies twice. */
  predicate AtMostOnce(used: set<(nat, Hop)>, ds: seq<Delivery>) {
    ds == [] || (AtMostOnce(used, ds[..|ds| - 1]) && Uses(ds[|ds| - 1]) !! used + Used(ds[..|ds| - 1]))
  }

  lemma {:induction false} EachOnce(used: set<(nat, Hop)>, ds: seq<Delivery>, k: nat)
    requires AtMostOnce(used, ds) && k < |ds|
    ensures Uses(ds[k]) !! used && Uses(ds[k]) <= Used(ds)
  {
    if k < |ds| - 1 {
      EachOnce(used, ds[..|ds| - 1], k);
    }
  }

  lemma {:induction false} TwiceIsTwoHops(used: set<(nat, Hop)>, ds: seq<Delivery>, j: nat, k: nat)
    requires AtMostOnce(used, ds) && j < k < |ds|
    ensures Uses(ds[j]) !! Uses(ds[k])
  {
    if k < |ds| - 1 {
      TwiceIsTwoHops(used, ds[..|ds| - 1], j, k);
    } else {
      EachOnce(used, ds[..|ds| - 1], j);
    }
  }

  // ----- One exchange

  datatype Exchange = Exchange(
    frames: seq<seq<byte>>, deliveries: seq<Delivery>, first: nat, last: nat, route: Route, answer: Answer)

  /** The last of the requests is answered like this, after the hops in `used` have replied. */
  ghost predicate Possible(mode: SerialMode, requests: seq<Request>, used: set<(nat, Hop)>, x: Exchange)
    requires requests != []
  {
    && |x.deliveries| == |x.frames|
    && (forall k | 0 <= k < |x.frames| :: Carries(mode, requests, x.deliveries[k], x.frames[k]))
    && AtMostOnce(used, x.deliveries)
    && Answered(mode, PendingOf(requests), x.frames, x.first, x.last, x.route, x.answer)
  }

  predicate Open(requests: seq<Request>, used: set<(nat, Hop)>, i: nat, hop: Hop) {
    i < |requests| && Asked(requests, i, hop).Some? && (i, hop) !in used
  }

  /** The reply of this hop would be taken for a reply to the last request. */
  predicate Mistakable(mode: SerialMode, requests: seq<Request>, i: nat, hop: Hop)
    requires i < |requests| && Asked(requests, i, hop).Some?
  {
    var p, e := PendingOf(requests), Asked(requests, i, hop).value;
    Confusable(mode, e, p.outer) || (p.inner.Some? && Confusable(mode, e, p.inner.value))
  }

  /** An earlier request has a reply outstanding that would be mistaken. */
  ghost predicate Endangered(mode: SerialMode, requests: seq<Request>, used: set<(nat, Hop)>)
    requires requests != []
  {
    exists i: nat, hop | i < |requests| - 1 && Open(requests, used, i, hop) :: Mistakable(mode, requests, i, hop)
  }

  /** Both replies that made up the answer are replies to the last request. */
  predicate Own(requests: seq<Request>, x: Exchange) {
    && x.first < |x.deliveries| && x.last < |x.deliveries|
    && x.deliveries[x.first].Reply? && x.deliveries[x.first].origin == |requests| - 1
    && x.deliveries[x.last].Reply? && x.deliveries[x.last].origin == |requests| - 1
  }

  /** A delivery that was accepted is a reply, confusable with what was expected, and accepted with its body. */
  lemma AcceptedDelivery(mode: SerialMode, requests: seq<Request>, d: Delivery, frame: seq<byte>, e: Expected)
    requires requests != [] && Carries(mode, requests, d, frame)
    requires e == PendingOf(requests).outer || PendingOf(requests).inner == Some(e)
    requires Match(mode, e, frame).Some?
    ensures d.Reply? && Match(mode, e, frame) == Some(d.body)
    ensures Confusable(mode, Asked(requests, d.origin, d.hop).value, e)
    ensures Mistakable(mode, requests, d.origin, d.hop)
  {
    if d.Reply? {
      MatchedIffConfusable(mode, Asked(requests, d.origin, d.hop).value, d.body, e);
    }
  }

  /** Unless an outstanding reply can be mistaken, the answer is a reply to the last request. */
  lemma AnswerIsOwn(mode: SerialMode, requests: seq<Request>, used: set<(nat, Hop)>, x: Exchange)
    requires requests != [] && Possible(mode, requests, used, x) && !Endangered(mode, requests, used)
    ensures Own(requests, x)
  {
    hide Match, Confusable, ReplyFrame, ParseIpmb;
    var p := PendingOf(requests);
    AcceptedDelivery(mode, requests, x.deliveries[x.first], x.frames[x.first], p.outer);
    EachOnce(used, x.deliveries, x.first);
    if x.last != x.first {
      AcceptedDelivery(mode, requests, x.deliveries[x.last], x.frames[x.last], p.inner.value);
      EachOnce(used, x.deliveries, x.last);
    }
  }

  /** A single reply that looks like the one to the last request is its answer. */
  lemma LateReplyIsTheAnswer(mode: SerialMode, requests: seq<Request>, used: set<(nat, Hop)>, i: nat, hop: Hop)
    returns (x: Exchange)
    requires requests != [] && Open(requests, used, i, hop)
    requires Confusable(mode, Asked(requests, i, hop).value, PendingOf(requests).outer)
    ensures Possible(mode, requests, used, x) && x.deliveries == [Reply(i, hop, [1])] && x.first == x.last == 0
  {
    hide Match, ReplyFrame, Confusable, Outer, Inner;
    var p, e, d := PendingOf(requests), Asked(requests, i, hop).value, Reply(i, hop, [1]);
    MatchedIffConfusable(mode, e, [1], p.outer);
    OneDelivery(used, d);
    var frames := [ReplyFrame(mode, e, [1])];
    assert FirstMatch(mode, p.outer, frames, 0, 0);
    x := if p.inner.None? then Exchange(frames, [d], 0, 0, Straight, Answer(p.outer, [1]))
         else Exchange(frames, [d], 0, 0, Refused, Answer(p.inner.value, [1]));
  }

  /** After the bridge has taken the message, a reply that looks like the one from the far end is the answer. */
  lemma LateReplyFromBeyondIsTheAnswer(mode: SerialMode, requests: seq<Request>, used: set<(nat, Hop)>, i: nat, hop: Hop)
    returns (x: Exchange)
    requires requests != [] && Open(requests, used, i, hop) && Open(requests, used, |requests| - 1, OuterHop)
    requires i < |requests| - 1 && PendingOf(requests).inner.Some?
    requires Confusable(mode, Asked(requests, i, hop).value, PendingOf(requests).inner.value)
    ensures Possible(mode, requests, used, x) && x.first == 0 && x.last == 1
    ensures x.deliveries == [Reply(|requests| - 1, OuterHop, [0]), Reply(i, hop, [1])]
  {
    hide Match, ReplyFrame, Outer, Inner;
    var n, p, e := |requests| - 1, PendingOf(requests), Asked(requests, i, hop).value;
    var own, late := Reply(n, OuterHop, [0]), Reply(i, hop, [1]);
    var frames := [ReplyFrame(mode, p.outer, [0]), ReplyFrame(mode, e, [1])];
    MatchedIffConfusable(mode, p.outer, [0], p.outer);
    MatchedIffConfusable(mode, e, [1], p.inner.value);
    hide Confusable;
    TwoDeliveries(used, [own, late]);
    assert FirstMatch(mode, p.outer, frames, 0, 0) && FirstMatch(mode, p.inner.value, frames, 1, 1);
    x := Exchange(frames, [own, late], 0, 1, Relayed, Answer(p.inner.value, [1]));
  }

  /** If an outstanding reply can be mistaken, it may come and be taken for the answer. */
  lemma StaleAnswerIsPossible(mode: SerialMode, requests: seq<Request>, used: set<(nat, Hop)>) returns (x: Exchange)
    requires requests != [] && Endangered(mode, requests, used)
    requires forall u | u in used :: u.0 < |requests| - 1
    ensures Possible(mode, requests, used, x) && !Own(requests, x)
  {
    hide Possible, Confusable, Outer, Inner;
    var i: nat, hop :| i < |requests| - 1 && Open(requests, used, i, hop) && Mistakable(mode, requests, i, hop);
    if Confusable(mode, Asked(requests, i, hop).value, PendingOf(requests).outer) {
      x := LateReplyIsTheAnswer(mode, requests, used, i, hop);
    } else {
      x := LateReplyFromBeyondIsTheAnswer(mode, requests, used, i, hop);
    }
  }

  lemma OneDelivery(used: set<(nat, Hop)>, d: Delivery)
    requires Uses(d) !! used
    ensures AtMostOnce(used, [d]) && Used([d]) == Uses(d)
  {
    var ds := [d];
    assert ds[..|ds| - 1] == [] && ds[|ds| - 1] == d;
    assert AtMostOnce(used, ds[..|ds| - 1]);
  }

  lemma TwoDeliveries(used: set<(nat, Hop)>, ds: seq<Delivery>)
    requires |ds| == 2 && Uses(ds[0]) !! used && Uses(ds[1]) !! used && Uses(ds[0]) !! Uses(ds[1])
    ensures AtMostOnce(used, ds)
  {
    OneDelivery(used, ds[0]);
    assert ds[..|ds| - 1] == [ds[0]];
  }

  /** Every possible answer is a reply to the last request exactly if no outstanding reply can be mistaken. */
  lemma AnswersAreOwnIff(mode: SerialMode, requests: seq<Request>, used: set<(nat, Hop)>)
    requires requests != [] && forall u | u in used :: u.0 < |requests| - 1
    ensures (forall x: Exchange | Possible(mode, requests, used, x) :: Own(requests, x))
            <==> !Endangered(mode, requests, used)
  {
    if Endangered(mode, requests, used) {
      var x := StaleAnswerIsPossible(mode, requests, used);
    } else {
      forall x: Exchange | Possible(mode, requests, used, x) ensures Own(requests, x) {
        AnswerIsOwn(mode, requests, used, x);
      }
    }
  }

  /** Only a request a multiple of 64 requests older can have its reply mistaken. */
  lemma OnlyAFullTurnEndangers(mode: SerialMode, requests: seq<Request>, i: nat, hop: Hop)
    requires i < |requests| && Asked(requests, i, hop).Some? && Mistakable(mode, requests, i, hop)
    ensures (|requests| - 1 - i) % 64 == 0
  {
  }

  // ----- Whole runs

  function UsedIn(run: seq<Exchange>): set<(nat, Hop)> {
    if run == [] then {} else UsedIn(run[..|run| - 1]) + Used(run[|run| - 1].deliveries)
  }

  /** All the requests were answered, one after the other. */
  ghost predicate ProperRun(mode: SerialMode, requests: seq<Request>, run: seq<Exchange>)
    decreases |run|
  {
    && |run| == |requests|
    && (run != [] ==>
          && ProperRun(mode, requests[..|requests| - 1], run[..|run| - 1])
          && Possible(mode, requests, UsedIn(run[..|run| - 1]), run[|run| - 1]))
  }

  /** The far end's reply to request `n` does not look like the bridge's. */
  predicate Plain(mode: SerialMode, requests: seq<Request>, n: nat)
    requires n < |requests|
  {
    var inner := Asked(requests, n, InnerHop);
    inner.Some? ==> !Confusable(mode, inner.value, Asked(requests, n, OuterHop).value)
  }

  /** An answer of its own leaves no reply to the request outstanding, except the far end's after a refusal. */
  lemma AnswerUsesItsHops(mode: SerialMode, requests: seq<Request>, used: set<(nat, Hop)>, x: Exchange)
    requires requests != [] && Possible(mode, requests, used, x) && Own(requests, x)
    requires Plain(mode, requests, |requests| - 1)
    ensures (|requests| - 1, OuterHop) in Used(x.deliveries)
    ensures Asked(requests, |requests| - 1, InnerHop).Some? && !x.route.Refused? ==>
              (|requests| - 1, InnerHop) in Used(x.deliveries)
  {
    hide Match, Confusable, ReplyFrame, ParseIpmb;
    var p := PendingOf(requests);
    AcceptedDelivery(mode, requests, x.deliveries[x.first], x.frames[x.first], p.outer);
    EachOnce(used, x.deliveries, x.first);
    if x.route.Relayed? {
      AcceptedDelivery(mode, requests, x.deliveries[x.last], x.frames[x.last], p.inner.value);
      EachOnce(used, x.deliveries, x.last);
      TwiceIsTwoHops(used, x.deliveries, x.first, x.last);
    }
  }

  /** Every hop of every request has replied, except perhaps the far end of those that a bridge refused. */
  ghost predicate OnlyRefusedOpen(requests: seq<Request>, run: seq<Exchange>, used: set<(nat, Hop)>) {
    && |run| == |requests|
    && forall i: nat, hop | Open(requests, used, i, hop) :: hop.InnerHop? && run[i].route.Refused?
  }

  /** None of the messages refused so far has a reply that the last request could be answered with. */
  ghost predicate NoRefusedTwin(mode: SerialMode, requests: seq<Request>, before: seq<Exchange>)
    requires requests != []
  {
    forall i | 0 <= i < |before| && i < |requests| && before[i].route.Refused? && Asked(requests, i, InnerHop).Some? ::
      !Mistakable(mode, requests, i, InnerHop)
  }

  /**
   What a sender can see to before each request: it does not look like its own bridge's reply, and no earlier
   message of the kind was refused a multiple of 64 requests ago.
   */
  ghost predicate Careful(mode: SerialMode, requests: seq<Request>, run: seq<Exchange>)
    requires |run| == |requests|
    decreases |run|
  {
    run != [] ==>
      && Careful(mode, requests[..|requests| - 1], run[..|run| - 1])
      && Plain(mode, requests, |requests| - 1)
      && NoRefusedTwin(mode, requests, run[..|run| - 1])
  }

  lemma NobodyEndangers(mode: SerialMode, requests: seq<Request>, before: seq<Exchange>, used: set<(nat, Hop)>)
    requires requests != [] && OnlyRefusedOpen(requests[..|requests| - 1], before, used)
    requires NoRefusedTwin(mode, requests, before)
    ensures !Endangered(mode, requests, used)
  {
    hide Mistakable;
    var earlier := requests[..|requests| - 1];
    assert forall i: nat, hop | i < |earlier| :: Asked(earlier, i, hop) == Asked(requests, i, hop);
    forall i: nat, hop | i < |earlier| && Open(requests, used, i, hop) ensures !Mistakable(mode, requests, i, hop) {
      assert Open(earlier, used, i, hop);
    }
  }

  lemma LastReplied(requests: seq<Request>, run: seq<Exchange>, used: set<(nat, Hop)>, more: set<(nat, Hop)>)
    requires requests != [] && |run| == |requests|
    requires OnlyRefusedOpen(requests[..|requests| - 1], run[..|run| - 1], used)
    requires (|requests| - 1, OuterHop) in more
    requires Asked(requests, |requests| - 1, InnerHop).Some? && !run[|run| - 1].route.Refused? ==>
               (|requests| - 1, InnerHop) in more
    ensures OnlyRefusedOpen(requests, run, used + more)
  {
    var n := |requests| - 1;
    var earlier, before := requests[..n], run[..n];
    assert forall i: nat, hop | i < n :: Asked(earlier, i, hop) == Asked(requests, i, hop);
    forall i: nat, hop | Open(requests, used + more, i, hop) ensures hop.InnerHop? && run[i].route.Refused? {
      if i < n {
        assert Open(earlier, used, i, hop);
        assert before[i] == run[i];
      }
    }
  }

  lemma {:induction false} OnlyRefusedStayOpen(mode: SerialMode, requests: seq<Request>, run: seq<Exchange>)
    requires ProperRun(mode, requests, run) && Careful(mode, requests, run)
    ensures OnlyRefusedOpen(requests, run, UsedIn(run))
    decreases |run|
  {
    if run != [] {
      hide Possible, Confusable, Plain, Own, OnlyRefusedOpen, Endangered, NoRefusedTwin;
      var n := |requests| - 1;
      OnlyRefusedStayOpen(mode, requests[..n], run[..n]);
      NobodyEndangers(mode, requests, run[..n], UsedIn(run[..n]));
      AnswerIsOwn(mode, requests, UsedIn(run[..n]), run[n]);
      AnswerUsesItsHops(mode, requests, UsedIn(run[..n]), run[n]);
      LastReplied(requests, run, UsedIn(run[..n]), Used(run[n].deliveries));
    } else {
      assert forall i: nat, hop :: !Open(requests, UsedIn(run), i, hop);
    }
  }

  /**
   With that care, every answer in a run of any length is a reply to its own request, however often the
   sequence number has come round.
   */
  lemma {:induction false} CarefulRunIsCorrelated(mode: SerialMode, requests: seq<Request>, run: seq<Exchange>, k: nat)
    requires ProperRun(mode, requests, run) && Careful(mode, requests, run) && k < |run|
    ensures Own(requests[..k + 1], run[k])
    decreases |run|
  {
    hide Possible, Confusable, Plain, Own, OnlyRefusedOpen, Endangered, NoRefusedTwin;
    var n := |requests| - 1;
    if k < n {
      CarefulRunIsCorrelated(mode, requests[..n], run[..n], k);
      assert requests[..n][..k + 1] == requests[..k + 1];
    } else {
      OnlyRefusedStayOpen(mode, requests[..n], run[..n]);
      NobodyEndangers(mode, requests, run[..n], UsedIn(run[..n]));
      AnswerIsOwn(mode, requests, UsedIn(run[..n]), run[n]);
      assert requests[..k + 1] == requests;
    }
  }

  /** As long as no bridge refuses a message, there is nothing else to see to. */
  lemma {:induction false} UnrefusedRunIsCareful(mode: SerialMode, requests: seq<Request>, run: seq<Exchange>)
    requires |run| == |requests| && forall k | 0 <= k < |run| :: !run[k].route.Refused?
    requires forall n | 0 <= n < |requests| :: Plain(mode, requests, n)
    ensures Careful(mode, requests, run)
    decreases |run|
  {
    if run != [] {
      hide Confusable;
      var n := |run| - 1;
      forall i | 0 <= i < n ensures Plain(mode, requests[..n], i) {
        assert Plain(mode, requests, i);
      }
      UnrefusedRunIsCareful(mode, requests[..n], run[..n]);
    }
  }

  /** Requests that do not go through a bridge are always correlated. */
  lemma DirectRunIsCorrelated(mode: SerialMode, requests: seq<Request>, run: seq<Exchange>, k: nat)
    requires ProperRun(mode, requests, run) && k < |run|
    requires forall n | 0 <= n < |requests| :: requests[n].bridge.None?
    ensures Own(requests[..k + 1], run[k])
  {
    StraightRoutes(mode, requests, run);
    hide Possible, Confusable, ProperRun;
    UnrefusedRunIsCareful(mode, requests, run);
    CarefulRunIsCorrelated(mode, requests, run, k);
  }

  lemma {:induction false} StraightRoutes(mode: SerialMode, requests: seq<Request>, run: seq<Exchange>)
    requires ProperRun(mode, requests, run)
    requires forall n | 0 <= n < |requests| :: requests[n].bridge.None?
    ensures forall k | 0 <= k < |run| :: run[k].route.Straight?
    decreases |run|
  {
    if run != [] {
      StraightRoutes(mode, requests[..|run| - 1], run[..|run| - 1]);
      assert forall k | 0 <= k < |run| - 1 :: run[k] == run[..|run| - 1][k];
    }
  }

  // ----- A refused message can come back

  const BRIDGED := Request(0x18, 0x01, Some(Bridge(0x82, 0)), [])
  const DIRECT := Request(0x18, 0x01, None, [])

  /** A bridged request that the bridge refused, and then only direct ones. */
  function RefusedThenDirect(n: nat): (requests: seq<Request>)
    requires n > 0
    ensures |requests| == n && requests[0] == BRIDGED
  {
    if n == 1 then [BRIDGED] else RefusedThenDirect(n - 1) + [DIRECT]
  }

  lemma {:induction false} RefusedThenDirectRuns(mode: SerialMode, n: nat) returns (run: seq<Exchange>)
    requires n > 0
    ensures ProperRun(mode, RefusedThenDirect(n), run)
    ensures forall u | u in UsedIn(run) :: u.0 < n && u.1 == OuterHop
  {
    hide Possible, Answered, Carries, ProperRun, UsedIn, AtMostOnce, Asked, Confusable;
    var requests := RefusedThenDirect(n);
    var before: seq<Exchange> := [];
    NoRun(mode);
    assert requests[..n - 1] == if n > 1 then RefusedThenDirect(n - 1) else [];
    if n > 1 {
      before := RefusedThenDirectRuns(mode, n - 1);
    }
    LastIsItself(mode, requests, UsedIn(before));
    var x := LateReplyIsTheAnswer(mode, requests, UsedIn(before), n - 1, OuterHop);
    run := before + [x];
    RunGoesOn(mode, requests, before, x);
    OneDelivery({}, x.deliveries[0]);
  }

  lemma NoRun(mode: SerialMode)
    ensures ProperRun(mode, [], []) && UsedIn([]) == {}
  {
  }

  lemma LastIsItself(mode: SerialMode, requests: seq<Request>, used: set<(nat, Hop)>)
    requires requests != [] && (|requests| - 1, OuterHop) !in used
    ensures Open(requests, used, |requests| - 1, OuterHop)
    ensures Confusable(mode, Asked(requests, |requests| - 1, OuterHop).value, PendingOf(requests).outer)
  {
  }

  lemma RunGoesOn(mode: SerialMode, requests: seq<Request>, before: seq<Exchange>, x: Exchange)
    requires requests != [] && ProperRun(mode, requests[..|requests| - 1], before)
    requires Possible(mode, requests, UsedIn(before), x)
    ensures ProperRun(mode, requests, before + [x])
    ensures UsedIn(before + [x]) == UsedIn(before) + Used(x.deliveries)
  {
    hide Possible;
    var run := before + [x];
    assert run[..|run| - 1] == before && run[|run| - 1] == x && run != [];
  }

  /**
   A message that a bridge refused may still get through and be replied to. When 64 requests later the same
   message is sent again, the old reply is taken for the answer.
   */
  lemma RefusedMessageIsMistaken(mode: SerialMode) returns (requests: seq<Request>, run: seq<Exchange>, x: Exchange)
    ensures |requests| == 65 && ProperRun(mode, requests[..64], run)
    ensures Possible(mode, requests, UsedIn(run), x) && x.deliveries[x.last].Reply? && x.deliveries[x.last].origin == 0
  {
    var earlier := RefusedThenDirect(64);
    run := RefusedThenDirectRuns(mode, 64);
    requests := earlier + [BRIDGED];
    assert requests[..64] == earlier;
    x := LateReplyFromBeyondIsTheAnswer(mode, requests, UsedIn(run), 0, InnerHop);
  }
}
