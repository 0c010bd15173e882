/** The signature burst of apps/worker/src/mint-tx.ts: parallel signature requests on a timer,
    answered in any order, settling one promise. Every callback is one step; the steps may
    interleave in any order a JavaScript event loop allows. */
module Burst {
  import opened Wrappers

  const PENALTY_MS := 1_500

  /** At least one API key: with none the source does not burst. */
  datatype Config = Config(keys: nat, deadline: int) {
    ghost predicate Valid() { keys >= 1 }
  }

  /** An answer, with an error's text reduced to the three tests made of it. */
  datatype Reply = Calldata | Failure(rateLimited: bool, terminal: bool, perWallet: bool) {
    predicate Aborts() { Failure? && terminal && !perWallet }

    predicate Decisive() { Calldata? || Aborts() }
  }

  /** `then` or `catch` answers an open request; `finally` then closes it. */
  datatype Progress = Open | Answered(reply: Reply) | Closed(reply: Reply)

  datatype Request = Request(key: nat, checkedAt: int, sentAt: int, progress: Progress)

  datatype Outcome =
    | Resolved(request: nat)
    | Refused(request: nat)
    | TimedOut(attempts: nat, lastFailed: Option<nat>)

  datatype State = State(settled: bool, inFlight: int, i: nat, attempts: nat, penalized: map<nat, int>,
                         lastFailed: Option<nat>, requests: seq<Request>, outcomes: seq<Outcome>)

  const START := State(false, 0, 0, 0, map[], None, [], [])

  // ----- The callbacks as functions of the state -----

  function Finish(s: State, o: Outcome): State {
    if s.settled then s else s.(settled := true, outcomes := s.outcomes + [o])
  }

  function PenalizedUntil(s: State, key: nat): int {
    if key in s.penalized then s.penalized[key] else 0
  }

  /** The interval callback; the clock is read for the deadline and again for the penalty. */
  function Fire(cfg: Config, s: State, at: int, again: int): State
    requires cfg.Valid()
  {
    if s.settled then s
    else if at > cfg.deadline then
      if s.inFlight == 0 then Finish(s, TimedOut(s.attempts, s.lastFailed)) else s
    else
      var key := s.i % cfg.keys;
      var s1 := s.(i := s.i + 1);
      if PenalizedUntil(s, key) > again then s1
      else s1.(attempts := s.attempts + 1, inFlight := s.inFlight + 1,
               requests := s.requests + [Request(key, at, again, Open)])
  }

  function Answer(s: State, r: nat, reply: Reply, at: int): State
    requires r < |s.requests|
  {
    var s1 := s.(requests := s.requests[r := s.requests[r].(progress := Answered(reply))]);
    if reply.Calldata? then Finish(s1, Resolved(r))
    else
      var s2 := s1.(lastFailed := Some(r),
                    penalized := if reply.rateLimited then s.penalized[s.requests[r].key := at + PENALTY_MS]
                                 else s.penalized);
      if reply.Aborts() then Finish(s2, Refused(r)) else s2
  }

  function Close(cfg: Config, s: State, r: nat, at: int): State
    requires r < |s.requests| && s.requests[r].progress.Answered?
  {
    var s1 := s.(requests := s.requests[r := s.requests[r].(progress := Closed(s.requests[r].progress.reply))],
                 inFlight := s.inFlight - 1);
    if !s.settled && at > cfg.deadline && s1.inFlight == 0 then Finish(s1, TimedOut(s.attempts, s.lastFailed))
    else s1
  }

  // ----- Runs -----

  datatype Event = Tick(at: int, again: int) | Replied(r: nat, reply: Reply, at: int) | Finally(r: nat, at: int)

  predicate Enabled(s: State, e: Event) {
    match e
    case Tick(at, again) => at <= again
    case Replied(r, _, _) => r < |s.requests| && s.requests[r].progress.Open?
    case Finally(r, _) => r < |s.requests| && s.requests[r].progress.Answered?
  }

  function Step(cfg: Config, s: State, e: Event): State
    requires cfg.Valid() && Enabled(s, e)
  {
    match e
    case Tick(at, again) => Fire(cfg, s, at, again)
    case Replied(r, reply, at) => Answer(s, r, reply, at)
    case Finally(r, at) => Close(cfg, s, r, at)
  }

  function ClockAfter(e: Event): int {
    if e.Tick? then e.again else e.at
  }

  /** A run the event loop can produce, with a clock that never goes back. */
  predicate Possible(cfg: Config, s: State, events: seq<Event>, since: int)
    requires cfg.Valid()
    decreases |events|
  {
    events != [] ==>
      && Enabled(s, events[0]) && since <= events[0].at
      && Possible(cfg, Step(cfg, s, events[0]), events[1..], ClockAfter(events[0]))
  }

  function Run(cfg: Config, s: State, events: seq<Event>, since: int): State
    requires cfg.Valid() && Possible(cfg, s, events, since)
    decreases |events|
  {
    if events == [] then s
    else Run(cfg, Step(cfg, s, events[0]), events[1..], ClockAfter(events[0]))
  }

  // ----- Safety -----

  function Unfinished(requests: seq<Request>): nat
    decreases |requests|
  {
    if requests == [] then 0
    else Unfinished(requests[..|requests| - 1]) + if requests[|requests| - 1].progress.Closed? then 0 else 1
  }

  lemma {:induction false} UnfinishedUpdate(requests: seq<Request>, r: nat, req: Request)
    requires r < |requests|
    ensures Unfinished(requests[r := req]) == Unfinished(requests)
            - (if requests[r].progress.Closed? then 0 else 1) + (if req.progress.Closed? then 0 else 1)
    decreases |requests|
  {
    var n := |requests| - 1;
    if r == n {
      assert requests[r := req][..n] == requests[..n];
    } else {
      UnfinishedUpdate(requests[..n], r, req);
      assert requests[r := req][..n] == requests[..n][r := req];
    }
  }

  lemma {:induction false} NoneUnfinished(requests: seq<Request>)
    ensures Unfinished(requests) == 0 <==> forall r :: 0 <= r < |requests| ==> requests[r].progress.Closed?
    decreases |requests|
  {
    if requests != [] {
      NoneUnfinished(requests[..|requests| - 1]);
    }
  }

  ghost predicate OutcomeJustified(s: State, o: Outcome) {
    match o
    case Resolved(r) => r < |s.requests| && !s.requests[r].progress.Open? && s.requests[r].progress.reply.Calldata?
    case Refused(r) => r < |s.requests| && !s.requests[r].progress.Open? && s.requests[r].progress.reply.Aborts()
    case TimedOut(n, _) =>
      && n == |s.requests|
      && forall r :: 0 <= r < |s.requests| ==>
           s.requests[r].progress.Closed? && !s.requests[r].progress.reply.Decisive()
  }

  /** One settlement at most, with its reason on record; in-flight counts the unfinished requests;
      every request passed the deadline check; an unsettled burst has had no decisive answer. */
  ghost predicate Inv(cfg: Config, s: State) {
    && |s.outcomes| <= 1
    && (s.settled <==> |s.outcomes| == 1)
    && s.attempts == |s.requests|
    && s.inFlight == Unfinished(s.requests)
    && (forall r :: 0 <= r < |s.requests| ==> s.requests[r].key < cfg.keys && s.requests[r].checkedAt <= cfg.deadline)
    && (forall r :: 0 <= r < |s.requests| && !s.requests[r].progress.Open? && !s.settled ==>
          !s.requests[r].progress.reply.Decisive())
    && (s.settled ==> OutcomeJustified(s, s.outcomes[0]))
  }

  lemma SendKeepsInv(cfg: Config, s: State, key: nat, at: int, again: int)
    requires Inv(cfg, s) && !s.settled && key < cfg.keys && at <= cfg.deadline
    ensures Inv(cfg, s.(i := s.i + 1, attempts := s.attempts + 1, inFlight := s.inFlight + 1,
                        requests := s.requests + [Request(key, at, again, Open)]))
  {
  }

  lemma FireKeepsInv(cfg: Config, s: State, at: int, again: int)
    requires cfg.Valid() && Inv(cfg, s) && at <= again
    ensures Inv(cfg, Fire(cfg, s, at, again))
  {
    if !s.settled && at <= cfg.deadline {
      SendKeepsInv(cfg, s, s.i % cfg.keys, at, again);
    } else {
      NoneUnfinished(s.requests);
    }
  }

  lemma AnswerKeepsInv(cfg: Config, s: State, r: nat, reply: Reply, at: int)
    requires cfg.Valid() && Inv(cfg, s) && r < |s.requests| && s.requests[r].progress.Open?
    ensures Inv(cfg, Answer(s, r, reply, at))
  {
    UnfinishedUpdate(s.requests, r, s.requests[r].(progress := Answered(reply)));
  }

  lemma CloseKeepsInv(cfg: Config, s: State, r: nat, at: int)
    requires cfg.Valid() && Inv(cfg, s) && r < |s.requests| && s.requests[r].progress.Answered?
    ensures Inv(cfg, Close(cfg, s, r, at))
  {
    var closed := s.requests[r].(progress := Closed(s.requests[r].progress.reply));
    UnfinishedUpdate(s.requests, r, closed);
    NoneUnfinished(s.requests[r := closed]);
  }

  lemma StepKeepsInv(cfg: Config, s: State, e: Event)
    requires cfg.Valid() && Inv(cfg, s) && Enabled(s, e)
    ensures Inv(cfg, Step(cfg, s, e))
  {
    match e
    case Tick(at, again) => FireKeepsInv(cfg, s, at, again);
    case Replied(r, reply, at) => AnswerKeepsInv(cfg, s, r, reply, at);
    case Finally(r, at) => CloseKeepsInv(cfg, s, r, at);
  }

  lemma {:induction false} RunKeepsInv(cfg: Config, s: State, events: seq<Event>, since: int)
    requires cfg.Valid() && Inv(cfg, s) && Possible(cfg, s, events, since)
    ensures Inv(cfg, Run(cfg, s, events, since))
    decreases |events|
  {
    if events != [] {
      StepKeepsInv(cfg, s, events[0]);
      RunKeepsInv(cfg, Step(cfg, s, events[0]), events[1..], ClockAfter(events[0]));
    }
  }

  /** Every reachable state: for any order of ticks and replies. */
  lemma BurstIsSafe(cfg: Config, events: seq<Event>, since: int)
    requires cfg.Valid() && Possible(cfg, START, events, since)
    ensures Inv(cfg, Run(cfg, START, events, since))
  {
    RunKeepsInv(cfg, START, events, since);
  }

  /** What was sent stays on record, and nothing is sent after settlement or the deadline. */
  lemma {:induction false} RequestsAreFinal(cfg: Config, s: State, events: seq<Event>, since: int)
    requires cfg.Valid() && Possible(cfg, s, events, since)
    ensures var s' := Run(cfg, s, events, since);
            && |s.requests| <= |s'.requests|
            && (forall r :: 0 <= r < |s.requests| ==>
                  s'.requests[r].key == s.requests[r].key && s'.requests[r].sentAt == s.requests[r].sentAt)
            && (s.settled ==> s'.settled && s'.outcomes == s.outcomes)
            && (s.settled || since > cfg.deadline ==> |s'.requests| == |s.requests|)
    decreases |events|
  {
    if events != [] {
      RequestsAreFinal(cfg, Step(cfg, s, events[0]), events[1..], ClockAfter(events[0]));
    }
  }

  // ----- Which outcome -----

  /** The settlement the first decisive reply of a run calls for. */
  function FirstDecisive(events: seq<Event>): Option<Outcome> {
    if events == [] then None
    else if events[0].Replied? && events[0].reply.Decisive() then
      Some(if events[0].reply.Calldata? then Resolved(events[0].r) else Refused(events[0].r))
    else FirstDecisive(events[1..])
  }

  lemma {:induction false} NothingRepliesAfterTimeout(cfg: Config, s: State, events: seq<Event>, since: int)
    requires cfg.Valid() && Inv(cfg, s) && Possible(cfg, s, events, since)
    requires s.settled && s.outcomes[0].TimedOut?
    ensures FirstDecisive(events).None?
    decreases |events|
  {
    if events != [] {
      StepKeepsInv(cfg, s, events[0]);
      NothingRepliesAfterTimeout(cfg, Step(cfg, s, events[0]), events[1..], ClockAfter(events[0]));
    }
  }

  lemma {:induction false} OutcomeFrom(cfg: Config, s: State, events: seq<Event>, since: int)
    requires cfg.Valid() && Inv(cfg, s) && !s.settled && Possible(cfg, s, events, since)
    ensures var s' := Run(cfg, s, events, since);
            match FirstDecisive(events)
            case Some(o) => s'.outcomes == [o]
            case None => s'.settled ==> |s'.outcomes| == 1 && s'.outcomes[0].TimedOut?
    decreases |events|
  {
    if events != [] {
      var e := events[0];
      var s1 := Step(cfg, s, e);
      StepKeepsInv(cfg, s, e);
      if !s1.settled {
        OutcomeFrom(cfg, s1, events[1..], ClockAfter(e));
      } else {
        RequestsAreFinal(cfg, s1, events[1..], ClockAfter(e));
        RunKeepsInv(cfg, s1, events[1..], ClockAfter(e));
        if s1.outcomes[0].TimedOut? {
          NothingRepliesAfterTimeout(cfg, s1, events[1..], ClockAfter(e));
        }
      }
    }
  }

  /** The first reply that carries calldata or a refusal of the whole drop decides the burst, in
      whatever order the requests were sent; per-wallet refusals and rate limits never do. Without
      such a reply the burst can only time out. */
  lemma FirstDecisiveReplyWins(cfg: Config, events: seq<Event>, since: int)
    requires cfg.Valid() && Possible(cfg, START, events, since)
    ensures var s := Run(cfg, START, events, since);
            match FirstDecisive(events)
            case Some(o) => s.outcomes == [o]
            case None => s.settled ==> |s.outcomes| == 1 && s.outcomes[0].TimedOut?
  {
    OutcomeFrom(cfg, START, events, since);
  }

  // ----- The keys take turns -----

  lemma OneTickSends(cfg: Config, s: State, tick: Event, since: int)
    requires cfg.Valid() && Enabled(s, tick) && tick.Tick? && !s.settled
    requires since <= tick.at <= cfg.deadline
    requires since >= 0 && forall key :: key in s.penalized ==> s.penalized[key] <= since
    ensures Step(cfg, s, tick) ==
            s.(i := s.i + 1, attempts := s.attempts + 1, inFlight := s.inFlight + 1,
               requests := s.requests + [Request(s.i % cfg.keys, tick.at, tick.again, Open)])
  {
  }

  /** While the burst is on and no penalty stands, every tick sends exactly one request, and the keys
      take turns. */
  lemma {:induction false} KeysTakeTurns(cfg: Config, s: State, ticks: seq<Event>, since: int)
    requires cfg.Valid() && Possible(cfg, s, ticks, since) && !s.settled
    requires forall t :: t in ticks ==> t.Tick? && t.at <= cfg.deadline
    requires since >= 0 && forall key :: key in s.penalized ==> s.penalized[key] <= since
    ensures var s' := Run(cfg, s, ticks, since);
            && |s'.requests| == |s.requests| + |ticks|
            && forall r :: |s.requests| <= r < |s'.requests| ==>
                 s'.requests[r].key == (s.i + (r - |s.requests|)) % cfg.keys
    decreases |ticks|
  {
    if ticks != [] {
      var s1 := Step(cfg, s, ticks[0]);
      OneTickSends(cfg, s, ticks[0], since);
      hide Step;
      KeysTakeTurns(cfg, s1, ticks[1..], ClockAfter(ticks[0]));
      RequestsAreFinal(cfg, s1, ticks[1..], ClockAfter(ticks[0]));
      var s' := Run(cfg, s, ticks, since);
      forall r | |s.requests| <= r < |s'.requests|
        ensures s'.requests[r].key == (s.i + (r - |s.requests|)) % cfg.keys
      {
        if r > |s.requests| {
          assert s1.i + (r - |s1.requests|) == s.i + (r - |s.requests|);
        }
      }
    }
  }

  // ----- A rate-limited key rests -----

  lemma {:induction false} PenaltyHolds(cfg: Config, s: State, events: seq<Event>, since: int, key: nat, until: int)
    requires cfg.Valid() && Possible(cfg, s, events, since)
    requires PenalizedUntil(s, key) >= until && since + PENALTY_MS >= until
    ensures var s' := Run(cfg, s, events, since);
            |s.requests| <= |s'.requests| &&
            forall r :: |s.requests| <= r < |s'.requests| && s'.requests[r].key == key ==>
              s'.requests[r].sentAt >= until
    decreases |events|
  {
    if events != [] {
      var e := events[0];
      var s1 := Step(cfg, s, e);
      RequestsAreFinal(cfg, s1, events[1..], ClockAfter(e));
      PenaltyHolds(cfg, s1, events[1..], ClockAfter(e), key, until);
      if |s1.requests| > |s.requests| {
        assert s1.requests[|s.requests|].key == key ==> s1.requests[|s.requests|].sentAt >= until;
      }
    }
  }

  /** After a rate-limit reply at time `at`, its key sends nothing for 1500 ms, whatever else
      happens in between. */
  lemma RateLimitedKeyRests(cfg: Config, s: State, r: nat, reply: Reply, at: int, events: seq<Event>)
    requires cfg.Valid() && Enabled(s, Replied(r, reply, at)) && reply.Failure? && reply.rateLimited
    requires Possible(cfg, Answer(s, r, reply, at), events, at)
    ensures var s' := Run(cfg, Answer(s, r, reply, at), events, at);
            forall q :: |s.requests| <= q < |s'.requests| && s'.requests[q].key == s.requests[r].key ==>
              s'.requests[q].sentAt >= at + PENALTY_MS
  {
    PenaltyHolds(cfg, Answer(s, r, reply, at), events, at, s.requests[r].key, at + PENALTY_MS);
  }

  // ----- Every tick takes its turn -----

  /** Ticks before the deadline. */
  function OnTime(cfg: Config, events: seq<Event>): nat
    decreases |events|
  {
    if events == [] then 0
    else
      var front, last := events[..|events| - 1], events[|events| - 1];
      OnTime(cfg, front) + if last.Tick? && last.at <= cfg.deadline then 1 else 0
  }

  /** Event i is a rate-limit reply to a request that was sent with this key. */
  predicate RateLimits(requests: seq<Request>, e: Event, key: nat) {
    && e.Replied? && e.reply.Failure? && e.reply.rateLimited
    && e.r < |requests| && requests[e.r].key == key
  }

  /** Some rate-limit reply to the key came less than 1500 ms before. */
  ghost predicate Resting(requests: seq<Request>, events: seq<Event>, key: nat, now: int) {
    exists i :: 0 <= i < |events| && RateLimits(requests, events[i], key) && now < events[i].at + 1_500
  }

  lemma {:induction false} RunSnoc(cfg: Config, s: State, events: seq<Event>, since: int)
    requires cfg.Valid() && events != [] && Possible(cfg, s, events, since)
    ensures var front, last := events[..|events| - 1], events[|events| - 1];
            && Possible(cfg, s, front, since) && Enabled(Run(cfg, s, front, since), last)
            && (if front == [] then since else ClockAfter(front[|front| - 1])) <= last.at
            && Run(cfg, s, events, since) == Step(cfg, Run(cfg, s, front, since), last)
    decreases |events|
  {
    var front := events[..|events| - 1];
    if front != [] {
      RunSnoc(cfg, Step(cfg, s, events[0]), events[1..], ClockAfter(events[0]));
      assert front[1..] == events[1..][..|events[1..]| - 1];
    } else {
      assert events == [events[0]];
    }
  }

  /** Where the counters of an undecided burst stand, told from the events alone. */
  ghost predicate Tracks(cfg: Config, s: State, events: seq<Event>, since: int) {
    var now := if events == [] then since else ClockAfter(events[|events| - 1]);
    && (s.settled ==> FirstDecisive(events).Some? || now > cfg.deadline)
    && (FirstDecisive(events).None? ==> s.i == OnTime(cfg, events))
    && (forall e :: e in events ==> e.at <= now)
    && (forall key, at: int :: at >= 0 ==> (PenalizedUntil(s, key) > at <==> Resting(s.requests, events, key, at)))
  }

  lemma {:induction false} FirstDecisiveSnoc(events: seq<Event>)
    requires events != []
    ensures var front, last := events[..|events| - 1], events[|events| - 1];
            FirstDecisive(events).None? <==> FirstDecisive(front).None? && !(last.Replied? && last.reply.Decisive())
    decreases |events|
  {
    if |events| > 1 {
      FirstDecisiveSnoc(events[1..]);
      assert events[..|events| - 1][1..] == events[1..][..|events| - 2];
    }
  }

  lemma RestingSnoc(before: seq<Request>, after: seq<Request>, events: seq<Event>, key: nat, now: int)
    requires events != [] && |before| <= |after| && forall r :: 0 <= r < |before| ==> after[r].key == before[r].key
    requires forall e :: e in events && e.Replied? ==> e.r < |before|
    ensures Resting(after, events, key, now) <==>
            || Resting(before, events[..|events| - 1], key, now)
            || (RateLimits(before, events[|events| - 1], key) && now < events[|events| - 1].at + 1_500)
  {
    var front := events[..|events| - 1];
    if Resting(before, front, key, now) {
      var i :| 0 <= i < |front| && RateLimits(before, front[i], key) && now < front[i].at + 1_500;
      assert events[i] == front[i];
    }
    if Resting(after, events, key, now) {
      var i :| 0 <= i < |events| && RateLimits(after, events[i], key) && now < events[i].at + 1_500;
      assert i < |front| ==> front[i] == events[i];
    }
  }

  /** The request of the last failed reply. */
  function LastFailure(events: seq<Event>): Option<nat>
    decreases |events|
  {
    if events == [] then None
    else
      var last := events[|events| - 1];
      if last.Replied? && last.reply.Failure? then Some(last.r) else LastFailure(events[..|events| - 1])
  }

  lemma {:induction false} LastFailureIsNoted(cfg: Config, events: seq<Event>, since: int)
    requires cfg.Valid() && Possible(cfg, START, events, since)
    ensures Run(cfg, START, events, since).lastFailed == LastFailure(events)
    decreases |events|
  {
    if events != [] {
      RunSnoc(cfg, START, events, since);
      LastFailureIsNoted(cfg, events[..|events| - 1], since);
    }
  }

  lemma TimeoutStep(cfg: Config, s: State, e: Event)
    requires cfg.Valid() && Inv(cfg, s) && Enabled(s, e)
    ensures var s' := Step(cfg, s, e);
            |s'.outcomes| >= 1 && s'.outcomes[0].TimedOut? ==>
              && !e.Replied? && |s'.requests| == |s.requests|
              && (if s.outcomes == [] then s'.outcomes == [TimedOut(|s.requests|, s.lastFailed)]
                  else s'.outcomes == s.outcomes)
  {
    StepKeepsInv(cfg, s, e);
  }

  /** A burst that times out reports the number of requests it sent, and the last failure of all. */
  lemma {:induction false} TimeoutReportsTheLastFailure(cfg: Config, events: seq<Event>, since: int)
    requires cfg.Valid() && Possible(cfg, START, events, since)
    ensures var s := Run(cfg, START, events, since);
            |s.outcomes| >= 1 && s.outcomes[0].TimedOut? ==>
              s.outcomes == [TimedOut(|s.requests|, LastFailure(events))]
    decreases |events|
  {
    if events != [] {
      hide Step, Inv, Enabled, Possible, Run;
      var front, last := events[..|events| - 1], events[|events| - 1];
      RunSnoc(cfg, START, events, since);
      TimeoutReportsTheLastFailure(cfg, front, since);
      LastFailureIsNoted(cfg, front, since);
      BurstIsSafe(cfg, front, since);
      TimeoutStep(cfg, Run(cfg, START, front, since), last);
    } else {
      assert Run(cfg, START, [], since) == START;
    }
  }

  lemma TicksStayTracked(cfg: Config, s: State, events: seq<Event>, since: int)
    requires cfg.Valid() && events != []
    requires var front, last := events[..|events| - 1], events[|events| - 1];
             && Tracks(cfg, s, front, since) && Enabled(s, last)
             && (if front == [] then since else ClockAfter(front[|front| - 1])) <= last.at
             && forall e :: e in front && e.Replied? ==> e.r < |s.requests|
    ensures Tracks(cfg, Step(cfg, s, events[|events| - 1]), events, since)
    ensures forall e :: e in events && e.Replied? ==> e.r < |Step(cfg, s, events[|events| - 1]).requests|
  {
    var front, last := events[..|events| - 1], events[|events| - 1];
    var s' := Step(cfg, s, last);
    FirstDecisiveSnoc(events);
    assert forall e :: e in events ==> e in front || e == last;
    forall key, at: int | at >= 0
      ensures PenalizedUntil(s', key) > at <==> Resting(s'.requests, events, key, at)
    {
      RestingSnoc(s.requests, s'.requests, events, key, at);
      assert PenalizedUntil(s, key) > at <==> Resting(s.requests, front, key, at);
      PenaltyStep(cfg, s, front, last, since, key, at);
    }
  }

  lemma PenaltyStep(cfg: Config, s: State, front: seq<Event>, last: Event, since: int, key: nat, at: int)
    requires cfg.Valid() && Tracks(cfg, s, front, since) && Enabled(s, last) && at >= 0
    requires (if front == [] then since else ClockAfter(front[|front| - 1])) <= last.at
    ensures PenalizedUntil(Step(cfg, s, last), key) > at <==>
            Resting(s.requests, front, key, at) || (RateLimits(s.requests, last, key) && at < last.at + 1_500)
  {
    if RateLimits(s.requests, last, key) {
      if Resting(s.requests, front, key, at) {
        var i :| 0 <= i < |front| && RateLimits(s.requests, front[i], key) && at < front[i].at + 1_500;
        assert front[i] in front;
      }
    } else {
      assert PenalizedUntil(s, key) > at <==> Resting(s.requests, front, key, at);
    }
  }

  lemma {:induction false} RunIsTracked(cfg: Config, events: seq<Event>, since: int)
    requires cfg.Valid() && Possible(cfg, START, events, since)
    ensures Tracks(cfg, Run(cfg, START, events, since), events, since)
    ensures forall e :: e in events && e.Replied? ==> e.r < |Run(cfg, START, events, since).requests|
    decreases |events|
  {
    if events != [] {
      hide Tracks;
      RunSnoc(cfg, START, events, since);
      var front := events[..|events| - 1];
      RunIsTracked(cfg, front, since);
      TicksStayTracked(cfg, Run(cfg, START, front, since), events, since);
    }
  }

  /** Over any run: the n-th on-time tick of an undecided burst, counted in the events, is the turn of
      key n modulo the number of keys. It sends exactly one request, with that key, unless a rate-limit
      reply to the key came less than 1500 ms before. Then it sends nothing, and the next key is next. */
  lemma EveryTickTakesItsTurn(cfg: Config, events: seq<Event>, since: int, at: int, again: int)
    requires cfg.Valid() && since >= 0 && Possible(cfg, START, events + [Tick(at, again)], since)
    requires at <= cfg.deadline && FirstDecisive(events).None?
    ensures Possible(cfg, START, events, since)
    ensures var s := Run(cfg, START, events, since);
            var key := OnTime(cfg, events) % cfg.keys;
            Run(cfg, START, events + [Tick(at, again)], since).requests ==
            s.requests + if Resting(s.requests, events, key, again) then [] else [Request(key, at, again, Open)]
  {
    RunSnoc(cfg, START, events + [Tick(at, again)], since);
    assert (events + [Tick(at, again)])[..|events|] == events;
    RunIsTracked(cfg, events, since);
    var s := Run(cfg, START, events, since);
    var key := OnTime(cfg, events) % cfg.keys;
    ClockStays(cfg, START, events, since);
    assert PenalizedUntil(s, key) > again <==> Resting(s.requests, events, key, again);
  }

  lemma {:induction false} ClockStays(cfg: Config, s: State, events: seq<Event>, since: int)
    requires cfg.Valid() && Possible(cfg, s, events, since)
    ensures since <= if events == [] then since else ClockAfter(events[|events| - 1])
    decreases |events|
  {
    if events != [] {
      ClockStays(cfg, Step(cfg, s, events[0]), events[1..], ClockAfter(events[0]));
    }
  }

  // ----- Progress -----

  function Closings(events: seq<Event>): nat {
    if events == [] then 0 else (if events[0].Finally? then 1 else 0) + Closings(events[1..])
  }

  /** Past the deadline nothing is sent, so each `finally` brings the burst one request nearer to
      its end, and the last one settles it. */
  lemma {:induction false} DrainsAfterDeadline(cfg: Config, s: State, events: seq<Event>, since: int)
    requires cfg.Valid() && Inv(cfg, s) && Possible(cfg, s, events, since) && since > cfg.deadline
    requires s.settled || s.inFlight > 0
    ensures var s' := Run(cfg, s, events, since);
            && s'.inFlight == s.inFlight - Closings(events)
            && (s'.inFlight == 0 ==> s'.settled)
    decreases |events|
  {
    if events != [] {
      var e := events[0];
      StepKeepsInv(cfg, s, e);
      DrainsAfterDeadline(cfg, Step(cfg, s, e), events[1..], ClockAfter(e));
    }
  }

  /** Once a tick has come after the deadline, the burst settles when its finitely many open
      requests have finished: after exactly as many further `finally` steps as are in flight. */
  lemma BurstSettles(cfg: Config, before: seq<Event>, tick: Event, after: seq<Event>, since: int)
    requires cfg.Valid() && Possible(cfg, START, before, since) && tick.Tick? && tick.at > cfg.deadline
    requires var s := Run(cfg, START, before, since);
             Enabled(s, tick) && Possible(cfg, Step(cfg, s, tick), after, tick.again)
    ensures var s := Step(cfg, Run(cfg, START, before, since), tick);
            Closings(after) == s.inFlight ==> Run(cfg, s, after, tick.again).settled
  {
    BurstIsSafe(cfg, before, since);
    var s := Run(cfg, START, before, since);
    StepKeepsInv(cfg, s, tick);
    DrainsAfterDeadline(cfg, Step(cfg, s, tick), after, tick.again);
  }

  lemma FireDoes(cfg: Config, s: State, at: int, again: int)
    requires cfg.Valid() && Inv(cfg, s) && at <= again
    ensures var s' := Fire(cfg, s, at, again);
            && Inv(cfg, s')
            && (s.settled ==> s' == s)
            && s'.requests == s.requests +
                 (if !s.settled && at <= cfg.deadline && PenalizedUntil(s, s.i % cfg.keys) <= again
                  then [Request(s.i % cfg.keys, at, again, Open)] else [])
            && (s'.settled && !s.settled <==> !s.settled && at > cfg.deadline && Unfinished(s'.requests) == 0)
  {
    FireKeepsInv(cfg, s, at, again);
  }

  // ----- The callbacks as they run -----

  /** The variables the callbacks share. Each callback keeps the invariant, extends the record of
      settlements only when none is there, and refines its step of the transition system. */
  class Shared {
    const cfg: Config
    var settled: bool
    var inFlight: int
    var i: nat
    var attempts: nat
    var penalized: map<nat, int>
    var lastFailed: Option<nat>
    var requests: seq<Request>
    var outcomes: seq<Outcome>

    constructor (cfg: Config)
      ensures this.cfg == cfg && View() == START && Inv(cfg, View())
    {
      this.cfg := cfg;
      settled, inFlight, i, attempts := false, 0, 0, 0;
      penalized, lastFailed, requests, outcomes := map[], None, [], [];
    }

    function View(): State
      reads this
    {
      State(settled, inFlight, i, attempts, penalized, lastFailed, requests, outcomes)
    }

    method Settle(o: Outcome)
      modifies this
      ensures View() == Finish(old(View()), o)
      ensures old(settled) ==> outcomes == old(outcomes)
    {
      if !settled {
        settled := true;
        outcomes := outcomes + [o];
      }
    }

    /** A tick sends at most one request: exactly one when the burst is on, in time and the next key
        rests no longer, and never otherwise. It settles only late, with nothing in flight. */
    method OnTick(at: int, again: int)
      requires cfg.Valid() && Inv(cfg, View()) && at <= again
      modifies this
      ensures Inv(cfg, View()) && View() == Fire(cfg, old(View()), at, again)
      ensures old(settled) ==> View() == old(View())
      ensures requests == old(requests) +
                if !old(settled) && at <= cfg.deadline && PenalizedUntil(old(View()), old(i) % cfg.keys) <= again
                then [Request(old(i) % cfg.keys, at, again, Open)] else []
      ensures settled && !old(settled) <==> !old(settled) && at > cfg.deadline && Unfinished(requests) == 0
    {
      FireDoes(cfg, View(), at, again);
      hide Inv, Unfinished;
      if settled {
        return;
      }
      if at > cfg.deadline {
        if inFlight == 0 {
          Settle(TimedOut(attempts, lastFailed));
        }
        return;
      }
      var key := i % cfg.keys;
      i := i + 1;
      if (if key in penalized then penalized[key] else 0) > again {
        return;
      }
      attempts := attempts + 1;
      inFlight := inFlight + 1;
      requests := requests + [Request(key, at, again, Open)];
    }

    /** Calldata settles the burst for its own request, unless it is settled already. */
    method OnThen(r: nat, at: int)
      requires cfg.Valid() && Inv(cfg, View()) && r < |requests| && requests[r].progress.Open?
      modifies this
      ensures Inv(cfg, View()) && View() == Answer(old(View()), r, Calldata, at)
      ensures outcomes == if old(settled) then old(outcomes) else [Resolved(r)]
      ensures |requests| == old(|requests|) && inFlight == old(inFlight) && penalized == old(penalized)
    {
      AnswerKeepsInv(cfg, View(), r, Calldata, at);
      requests := requests[r := requests[r].(progress := Answered(Calldata))];
      Settle(Resolved(r));
    }

    /** An error settles the burst only if it refuses the whole drop, whatever else it says; a rate
        limit rests the key it was sent with and no other. */
    method OnCatch(r: nat, error: Reply, at: int)
      requires cfg.Valid() && Inv(cfg, View()) && r < |requests| && requests[r].progress.Open? && error.Failure?
      modifies this
      ensures Inv(cfg, View()) && View() == Answer(old(View()), r, error, at)
      ensures outcomes == if !old(settled) && error.terminal && !error.perWallet then [Refused(r)] else old(outcomes)
      ensures |requests| == old(|requests|) && inFlight == old(inFlight)
      ensures forall key :: key != old(requests)[r].key || !error.rateLimited ==>
                PenalizedUntil(View(), key) == PenalizedUntil(old(View()), key)
      ensures error.rateLimited ==> PenalizedUntil(View(), old(requests)[r].key) == at + PENALTY_MS
    {
      AnswerKeepsInv(cfg, View(), r, error, at);
      requests := requests[r := requests[r].(progress := Answered(error))];
      lastFailed := Some(r);
      if error.rateLimited {
        penalized := penalized[requests[r].key := at + PENALTY_MS];
      }
      if error.terminal && !error.perWallet {
        Settle(Refused(r));
      }
    }

    /** One request fewer is unfinished; an unsettled burst is settled, as timed out, exactly when it
        is late and this was the last one. */
    method OnFinally(r: nat, at: int)
      requires cfg.Valid() && Inv(cfg, View()) && r < |requests| && requests[r].progress.Answered?
      modifies this
      ensures Inv(cfg, View()) && View() == Close(cfg, old(View()), r, at)
      ensures Unfinished(requests) == old(Unfinished(requests)) - 1
      ensures outcomes == if !old(settled) && at > cfg.deadline && Unfinished(requests) == 0
                          then [TimedOut(|requests|, old(lastFailed))] else old(outcomes)
    {
      CloseKeepsInv(cfg, View(), r, at);
      requests := requests[r := requests[r].(progress := Closed(requests[r].progress.reply))];
      inFlight := inFlight - 1;
      if !settled && at > cfg.deadline && inFlight == 0 {
        Settle(TimedOut(attempts, lastFailed));
      }
    }
  }

  lemma SettledHasOneOutcome(cfg: Config, s: State)
    requires Inv(cfg, s)
    ensures if s.settled then |s.outcomes| == 1 && OutcomeJustified(s, s.outcomes[0]) else s.outcomes == []
  {
  }

  /** The promise: the event loop delivers the callbacks in some order it can produce, and the first
      decisive reply is what the caller gets; without one, nothing yet or a timeout. */
  method BurstBuild(cfg: Config, events: seq<Event>, since: int) returns (outcome: Option<Outcome>)
    requires cfg.Valid() && Possible(cfg, START, events, since)
    ensures FirstDecisive(events).Some? ==> outcome == FirstDecisive(events)
    ensures FirstDecisive(events).None? && outcome.Some? ==> outcome.value.TimedOut?
    ensures outcome.Some? ==> OutcomeJustified(Run(cfg, START, events, since), outcome.value)
  {
    hide Fire, Answer, Close, Inv, FirstDecisive, OutcomeJustified;
    var shared := new Shared(cfg);
    var n, clock := 0, since;
    FirstDecisiveReplyWins(cfg, events, since);
    BurstIsSafe(cfg, events, since);
    while n < |events|
      invariant n <= |events| && shared.cfg == cfg && Inv(cfg, shared.View())
      invariant Possible(cfg, shared.View(), events[n..], clock)
      invariant Run(cfg, shared.View(), events[n..], clock) == Run(cfg, START, events, since)
    {
      var e := events[n];
      assert events[n..][0] == e && events[n..][1..] == events[n + 1..];
      match e {
        case Tick(at, again) => shared.OnTick(at, again);
        case Replied(r, reply, at) =>
          if reply.Calldata? {
            shared.OnThen(r, at);
          } else {
            shared.OnCatch(r, reply, at);
          }
        case Finally(r, at) => shared.OnFinally(r, at);
      }
      n, clock := n + 1, ClockAfter(e);
    }
    assert events[n..] == [];
    SettledHasOneOutcome(cfg, shared.View());
    outcome := if shared.settled then Some(shared.outcomes[0]) else None;
  }
}
