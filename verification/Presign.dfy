/** When to sign ahead of the open (packages/core/src/presign.ts), and its agreement with the fire
    schedule that consumes the signed transaction. */
module Presign {
  import opened FireSchedule
  import NonceAllocator
  import opened Wrappers

  datatype Plan = Plan(leadMs: int, ttlMs: int)

  /** A signed transaction: when, and with which nonce. */
  datatype Blob = Blob(presignedAtMs: Option<int>, presignedNonce: Option<int>)

  datatype Reason = Unsigned | Stale | NonceAdvanced

  datatype Decision = Wait(msUntilWindow: int) | Sign(reason: Reason) | Keep | Expired

  /** The schedule supplies the open, the clock offset and the grace after the open. */
  function DecidePresign(s: Schedule, plan: Plan, blob: Blob, currentNonce: Option<int>, now: int): Decision {
    var windowOpensAt := s.LocalStart() - plan.leadMs;
    if now > s.LocalStart() + s.continueForMs then Decision.Expired
    else if now < windowOpensAt then Wait(windowOpensAt - now)
    else if blob.presignedAtMs.None? || blob.presignedNonce.None? then Sign(Unsigned)
    else if currentNonce.Some? && currentNonce.value > blob.presignedNonce.value then Sign(NonceAdvanced)
    else if now - blob.presignedAtMs.value > plan.ttlMs then Sign(Stale)
    else Keep
  }

  /** Pre-signing expires exactly when firing does, at every instant, if and only if neither the hot
      phase nor the fire target lies more than a millisecond past the end of the window. */
  lemma ExpireTogether(s: Schedule, plan: Plan, blob: Blob, currentNonce: Option<int>)
    ensures (forall now ::
               DecidePresign(s, plan, blob, currentNonce, now).Expired? <==> ComputeFirePhase(s, now).Expired?)
            <==> s.leadMs + s.continueForMs >= -1 && s.leadMs + s.hotWindowMs + s.continueForMs >= -1
  {
    var next := s.ContinueUntil() + 1;
    assert DecidePresign(s, plan, blob, currentNonce, next).Expired?;
    assert ComputeFirePhase(s, next).Expired? <==>
      s.leadMs + s.continueForMs >= -1 && s.leadMs + s.hotWindowMs + s.continueForMs >= -1;
  }

  /** No tick in the hot or fire phase finds pre-signing still waiting, if and only if signing starts
      at least as early as the hot phase (for any schedule with a hot or fire phase at all). */
  lemma SignedInTime(s: Schedule, plan: Plan, blob: Blob, currentNonce: Option<int>)
    requires s.hotWindowMs >= 0 && s.leadMs + s.continueForMs >= 0
    ensures (forall now :: ComputeFirePhase(s, now).Hot? || ComputeFirePhase(s, now).Fire? ==>
               !DecidePresign(s, plan, blob, currentNonce, now).Wait?)
            <==> plan.leadMs >= s.leadMs + s.hotWindowMs
  {
    var hot := s.HotAt();
    assert ComputeFirePhase(s, hot).Hot? || ComputeFirePhase(s, hot).Fire?;
    assert DecidePresign(s, plan, blob, currentNonce, hot).Wait? <==> plan.leadMs < s.leadMs + s.hotWindowMs;
  }

  /** The returned wait ends exactly when signing may start, and inside the window a transaction is
      kept exactly while it is young enough and its nonce is not behind the chain's. */
  lemma WaitsThenKeepsWhatIsFresh(s: Schedule, plan: Plan, blob: Blob, currentNonce: Option<int>, now: int)
    ensures match DecidePresign(s, plan, blob, currentNonce, now)
            case Wait(ms) =>
              && ms > 0 && !DecidePresign(s, plan, blob, currentNonce, now + ms).Wait?
              && forall t :: now <= t < now + ms ==>
                   || DecidePresign(s, plan, blob, currentNonce, t).Wait?
                   || DecidePresign(s, plan, blob, currentNonce, t).Expired?
            case Keep =>
              && blob.presignedAtMs.Some? && now - blob.presignedAtMs.value <= plan.ttlMs
              && blob.presignedNonce.Some? && (currentNonce.Some? ==> currentNonce.value <= blob.presignedNonce.value)
            case Sign(reason) =>
              var signed := blob.presignedAtMs.Some? && blob.presignedNonce.Some?;
              var passed := signed && currentNonce.Some? && currentNonce.value > blob.presignedNonce.value;
              && (reason.Unsigned? <==> !signed)
              && (reason.NonceAdvanced? <==> passed)
              && (reason.Stale? <==> signed && !passed && now - blob.presignedAtMs.value > plan.ttlMs)
            case Expired => forall t :: t >= now ==> DecidePresign(s, plan, blob, currentNonce, t).Expired?
  {
  }

  // ----- The passes that act on the decision -----

  /** A running pass: its tick, the blob it read, and how many signings had been saved by then. */
  datatype Pass = Pass(now: int, blob: Blob, seen: nat)

  /** A saved signing: the tick and the report it was decided on, the nonce reserved, when it was
      saved, and how many signings its pass had seen. */
  datatype Signing = Signing(now: int, report: int, nonce: int, at: int, seen: nat)

  /** The plan's row, its signings so far, and the passes in flight: every tick starts one without
      waiting for the others. */
  datatype World = World(blob: Blob, log: seq<Signing>, passes: map<nat, Pass>)

  const NOTHING_SIGNED := World(Blob(None, None), [], map[])

  /** A pass reads the row; then it fails somewhere (no RPC, no calldata, over the ceiling,
      underfunded, no key), finds nothing to sign, or signs with a reserved nonce and saves. */
  datatype Event =
    | Read(id: nat, now: int)
    | Fail(id: nat)
    | Kept(id: nat, report: int)
    | Save(id: nat, report: int, nonce: int, at: int)

  predicate Enabled(s: Schedule, plan: Plan, w: World, e: Event) {
    match e
    case Read(id, _) => id !in w.passes
    case Fail(id) => id in w.passes
    case Kept(id, report) =>
      id in w.passes && !DecidePresign(s, plan, w.passes[id].blob, Some(report), w.passes[id].now).Sign?
    case Save(id, report, nonce, at) =>
      id in w.passes && DecidePresign(s, plan, w.passes[id].blob, Some(report), w.passes[id].now).Sign? &&
      report <= nonce && w.passes[id].now <= at
  }

  function Step(w: World, e: Event): World
    requires !e.Read? ==> e.id in w.passes
  {
    match e
    case Read(id, now) => w.(passes := w.passes[id := Pass(now, w.blob, |w.log|)])
    case Fail(id) => w.(passes := w.passes - {id})
    case Kept(id, _) => w.(passes := w.passes - {id})
    case Save(id, report, nonce, at) =>
      World(Blob(Some(at), Some(nonce)),
            w.log + [Signing(w.passes[id].now, report, nonce, at, w.passes[id].seen)], w.passes - {id})
  }

  /** A run in which saves happen at instants that never go back. */
  predicate Possible(s: Schedule, plan: Plan, w: World, events: seq<Event>)
    decreases |events|
  {
    events != [] ==>
      && Enabled(s, plan, w, events[0])
      && (events[0].Save? && w.log != [] ==> w.log[|w.log| - 1].at <= events[0].at)
      && Possible(s, plan, Step(w, events[0]), events[1..])
  }

  function Run(s: Schedule, plan: Plan, w: World, events: seq<Event>): World
    requires Possible(s, plan, w, events)
    decreases |events|
  {
    if events == [] then w else Run(s, plan, Step(w, events[0]), events[1..])
  }

  function LastSaved(log: seq<Signing>): Blob {
    if log == [] then Blob(None, None) else Blob(Some(log[|log| - 1].at), Some(log[|log| - 1].nonce))
  }

  predicate InWindow(s: Schedule, plan: Plan, now: int) {
    s.LocalStart() - plan.leadMs <= now <= s.LocalStart() + s.continueForMs
  }

  /** Signing number j was due on what its pass had seen: it was the first, or the chain had passed the
      last nonce seen, or the last blob seen was older than its time to live. */
  ghost predicate Due(plan: Plan, log: seq<Signing>, j: nat)
    requires j < |log|
  {
    var seen := log[j].seen;
    && seen <= j
    && (seen > 0 ==> log[j].report > log[seen - 1].nonce || log[j].now - log[seen - 1].at > plan.ttlMs)
  }

  ghost predicate LogInv(s: Schedule, plan: Plan, log: seq<Signing>) {
    && (forall i, j :: 0 <= i < j < |log| ==> log[i].at <= log[j].at)
    && (forall j :: 0 <= j < |log| ==>
          && InWindow(s, plan, log[j].now) && log[j].now <= log[j].at
          && log[j].report <= log[j].nonce
          && Due(plan, log, j))
  }

  /** The pass read the row as it was after the signings it has seen. */
  ghost predicate ReadFrom(pass: Pass, log: seq<Signing>) {
    pass.seen <= |log| && pass.blob == LastSaved(log[..pass.seen])
  }

  ghost predicate Inv(s: Schedule, plan: Plan, w: World) {
    && w.blob == LastSaved(w.log)
    && LogInv(s, plan, w.log)
    && (forall id :: id in w.passes ==> ReadFrom(w.passes[id], w.log))
  }

  lemma LogGrows(s: Schedule, plan: Plan, log: seq<Signing>, entry: Signing, pass: Pass)
    requires LogInv(s, plan, log) && ReadFrom(pass, log)
    requires log != [] ==> log[|log| - 1].at <= entry.at
    requires entry.now == pass.now && entry.seen == pass.seen && entry.now <= entry.at && entry.report <= entry.nonce
    requires DecidePresign(s, plan, pass.blob, Some(entry.report), pass.now).Sign?
    ensures LogInv(s, plan, log + [entry])
  {
    var log' := log + [entry];
    forall j | 0 <= j < |log'|
      ensures Due(plan, log', j)
    {
      if j < |log| {
        assert Due(plan, log, j);
      } else if pass.seen > 0 {
        assert log[..pass.seen][pass.seen - 1] == log[pass.seen - 1];
      }
    }
  }

  lemma ReadStays(pass: Pass, log: seq<Signing>, entry: Signing)
    requires ReadFrom(pass, log)
    ensures ReadFrom(pass, log + [entry])
  {
    assert (log + [entry])[..pass.seen] == log[..pass.seen];
  }

  lemma SaveKeepsInv(s: Schedule, plan: Plan, w: World, e: Event)
    requires Inv(s, plan, w) && e.Save? && Enabled(s, plan, w, e)
    requires w.log != [] ==> w.log[|w.log| - 1].at <= e.at
    ensures Inv(s, plan, Step(w, e))
  {
    hide LogInv, ReadFrom, DecidePresign;
    var pass := w.passes[e.id];
    var entry := Signing(pass.now, e.report, e.nonce, e.at, pass.seen);
    LogGrows(s, plan, w.log, entry, pass);
    forall id | id in Step(w, e).passes
      ensures ReadFrom(w.passes[id], w.log + [entry])
    {
      ReadStays(w.passes[id], w.log, entry);
    }
  }

  lemma StepKeepsInv(s: Schedule, plan: Plan, w: World, e: Event)
    requires Inv(s, plan, w) && Enabled(s, plan, w, e)
    requires e.Save? && w.log != [] ==> w.log[|w.log| - 1].at <= e.at
    ensures Inv(s, plan, Step(w, e))
  {
    if e.Save? {
      SaveKeepsInv(s, plan, w, e);
    } else {
      assert w.log[..|w.log|] == w.log;
    }
  }

  lemma {:induction false} RunKeepsInv(s: Schedule, plan: Plan, w: World, events: seq<Event>)
    requires Inv(s, plan, w) && Possible(s, plan, w, events)
    ensures Inv(s, plan, Run(s, plan, w, events))
    decreases |events|
  {
    if events != [] {
      StepKeepsInv(s, plan, w, events[0]);
      RunKeepsInv(s, plan, Step(w, events[0]), events[1..]);
    }
  }

  /** Over every interleaving of passes and failures: each signing was decided inside the window, with
      a nonce the chain had not passed, and it repeats an earlier one only if the chain had passed the
      last nonce its pass saw, or more than the time to live after every signing its pass saw. */
  lemma SigningsAreDueAndSpaced(s: Schedule, plan: Plan, events: seq<Event>)
    requires Possible(s, plan, NOTHING_SIGNED, events)
    ensures var w := Run(s, plan, NOTHING_SIGNED, events);
            && w.blob == LastSaved(w.log)
            && forall j :: 0 <= j < |w.log| ==>
                 && InWindow(s, plan, w.log[j].now) && w.log[j].report <= w.log[j].nonce && w.log[j].seen <= j
                 && forall i :: 0 <= i < w.log[j].seen ==>
                      w.log[j].report > w.log[w.log[j].seen - 1].nonce || w.log[j].now > w.log[i].at + plan.ttlMs
  {
    RunKeepsInv(s, plan, NOTHING_SIGNED, events);
    var w := Run(s, plan, NOTHING_SIGNED, events);
    forall j, i | 0 <= j < |w.log| && 0 <= i < w.log[j].seen
      ensures w.log[j].report > w.log[w.log[j].seen - 1].nonce || w.log[j].now > w.log[i].at + plan.ttlMs
    {
      assert Due(plan, w.log, j);
      assert i < w.log[j].seen - 1 ==> w.log[i].at <= w.log[w.log[j].seen - 1].at;
    }
    forall j | 0 <= j < |w.log|
      ensures w.log[j].seen <= j
    {
      assert Due(plan, w.log, j);
    }
  }

  /** After a pass of a hot or fire tick that did not fail there is a blob, no older than its time to
      live at that tick; if the pass signed, or no other pass has saved since it read, its nonce is
      not behind the pass's report. Other passes may have run, failed and saved in between. */
  lemma PassLeavesAFreshBlob(s: Schedule, plan: Plan, events: seq<Event>, e: Event)
    requires s.hotWindowMs >= 0 && s.leadMs + s.continueForMs >= 0
    requires plan.leadMs >= s.leadMs + s.hotWindowMs && plan.ttlMs >= 0
    requires Possible(s, plan, NOTHING_SIGNED, events)
    requires var w := Run(s, plan, NOTHING_SIGNED, events);
             && (e.Kept? || e.Save?) && Enabled(s, plan, w, e)
             && (e.Save? && w.log != [] ==> w.log[|w.log| - 1].at <= e.at)
             && var now := w.passes[e.id].now; ComputeFirePhase(s, now).Hot? || ComputeFirePhase(s, now).Fire?
    ensures var w := Run(s, plan, NOTHING_SIGNED, events);
            var pass, blob := w.passes[e.id], Step(w, e).blob;
            && blob.presignedAtMs.Some? && blob.presignedNonce.Some?
            && pass.now - blob.presignedAtMs.value <= plan.ttlMs
            && (e.Save? || pass.seen == |w.log| ==>
                  && e.report <= blob.presignedNonce.value
                  && DecidePresign(s, plan, blob, Some(e.report), pass.now) == Keep)
  {
    RunKeepsInv(s, plan, NOTHING_SIGNED, events);
    var w := Run(s, plan, NOTHING_SIGNED, events);
    var pass := w.passes[e.id];
    SignedInTime(s, plan, pass.blob, Some(e.report));
    assert !DecidePresign(s, plan, pass.blob, Some(e.report), pass.now).Wait?;
    if e.Kept? {
      assert DecidePresign(s, plan, pass.blob, Some(e.report), pass.now).Keep?;
      assert w.log[..pass.seen][pass.seen - 1] == w.log[pass.seen - 1];
      assert w.log[..|w.log|] == w.log;
    }
  }

  // ----- What a fire decision reads -----

  lemma {:induction false} RowOnlyGetsNewer(s: Schedule, plan: Plan, w: World, events: seq<Event>)
    requires Inv(s, plan, w) && Possible(s, plan, w, events) && w.log != []
    ensures var blob := Run(s, plan, w, events).blob;
            && blob.presignedAtMs.Some? && blob.presignedNonce.Some?
            && blob.presignedAtMs.value >= w.blob.presignedAtMs.value
    decreases |events|
  {
    if events != [] {
      StepKeepsInv(s, plan, w, events[0]);
      RowOnlyGetsNewer(s, plan, Step(w, events[0]), events[1..]);
    }
  }

  lemma {:induction false} RunThen(s: Schedule, plan: Plan, w: World, events: seq<Event>, e: Event, rest: seq<Event>)
    requires Possible(s, plan, w, events + [e] + rest)
    ensures Possible(s, plan, w, events)
    ensures var w1 := Run(s, plan, w, events);
            && Enabled(s, plan, w1, e) && (e.Save? && w1.log != [] ==> w1.log[|w1.log| - 1].at <= e.at)
            && Possible(s, plan, Step(w1, e), rest)
            && Run(s, plan, w, events + [e] + rest) == Run(s, plan, Step(w1, e), rest)
    decreases |events|
  {
    var all := events + [e] + rest;
    if events == [] {
      assert all[0] == e && all[1..] == rest;
    } else {
      assert all[0] == events[0] && all[1..] == events[1..] + [e] + rest;
      RunThen(s, plan, Step(w, events[0]), events[1..], e, rest);
    }
  }

  /** A fire decision does not wait for the pass of its own tick: it reads the row as earlier passes
      left it. Once a pass of a hot or fire tick has ended without failing, then at every later instant,
      after whatever passes and failures, the row holds a transaction that is older than its time to
      live by no more than the time since that tick. */
  lemma RowAgesFromTheLastGoodPass(s: Schedule, plan: Plan, events: seq<Event>, e: Event, rest: seq<Event>, now: int)
    requires s.hotWindowMs >= 0 && s.leadMs + s.continueForMs >= 0
    requires plan.leadMs >= s.leadMs + s.hotWindowMs && plan.ttlMs >= 0
    requires Possible(s, plan, NOTHING_SIGNED, events + [e] + rest) && (e.Kept? || e.Save?)
    requires Possible(s, plan, NOTHING_SIGNED, events)
    requires var passes := Run(s, plan, NOTHING_SIGNED, events).passes;
             && e.id in passes && passes[e.id].now <= now
             && var phase := ComputeFirePhase(s, passes[e.id].now); phase.Hot? || phase.Fire?
    ensures var passes := Run(s, plan, NOTHING_SIGNED, events).passes;
            var blob := Run(s, plan, NOTHING_SIGNED, events + [e] + rest).blob;
            && blob.presignedAtMs.Some? && blob.presignedNonce.Some?
            && now - blob.presignedAtMs.value <= plan.ttlMs + (now - passes[e.id].now)
  {
    RunThen(s, plan, NOTHING_SIGNED, events, e, rest);
    PassLeavesAFreshBlob(s, plan, events, e);
    RunKeepsInv(s, plan, NOTHING_SIGNED, events);
    var w := Run(s, plan, NOTHING_SIGNED, events);
    StepKeepsInv(s, plan, w, e);
    RowOnlyGetsNewer(s, plan, Step(w, e), rest);
  }

  /** No row that a fire decision reads is ever too old, whatever the passes do, if and only if the
      whole window for signing is no longer than the time to live. */
  lemma NoFireReadsAStaleRowIff(s: Schedule, plan: Plan)
    requires s.hotWindowMs >= 0 && s.leadMs + s.continueForMs >= 0 && plan.ttlMs >= 0
    ensures (forall events, now | Possible(s, plan, NOTHING_SIGNED, events) && ComputeFirePhase(s, now).Fire? ::
               var blob := Run(s, plan, NOTHING_SIGNED, events).blob;
               blob.presignedAtMs.Some? ==> now - blob.presignedAtMs.value <= plan.ttlMs)
            <==> plan.leadMs + s.continueForMs <= plan.ttlMs
  {
    if plan.leadMs + s.continueForMs <= plan.ttlMs {
      forall events, now | Possible(s, plan, NOTHING_SIGNED, events) && ComputeFirePhase(s, now).Fire?
        ensures var blob := Run(s, plan, NOTHING_SIGNED, events).blob;
                blob.presignedAtMs.Some? ==> now - blob.presignedAtMs.value <= plan.ttlMs
      {
        RunKeepsInv(s, plan, NOTHING_SIGNED, events);
      }
    } else {
      var events := SignedAt(s, plan, s.LocalStart() - plan.leadMs);
      assert ComputeFirePhase(s, s.ContinueUntil()).Fire?;
    }
  }

  lemma SignedAt(s: Schedule, plan: Plan, now: int) returns (events: seq<Event>)
    requires InWindow(s, plan, now)
    ensures Possible(s, plan, NOTHING_SIGNED, events)
    ensures Run(s, plan, NOTHING_SIGNED, events).blob == Blob(Some(now), Some(0))
  {
    var a, b := Read(0, now), Save(0, 0, 0, now);
    events := [a, b];
    var w1 := Step(NOTHING_SIGNED, a);
    assert w1.passes == map[0 := Pass(now, Blob(None, None), 0)];
    assert [a, b][1..] == [b] && [b][1..] == [];
    assert Possible(s, plan, Step(w1, b), []) && Possible(s, plan, w1, [b]);
    assert Run(s, plan, w1, [b]) == Run(s, plan, Step(w1, b), []);
  }

  // ----- Passes one at a time -----

  /** No pass reads while another is in flight. */
  predicate OneAtATime(s: Schedule, plan: Plan, w: World, events: seq<Event>)
    requires Possible(s, plan, w, events)
    decreases |events|
  {
    events != [] ==>
      && (events[0].Read? ==> w.passes == map[])
      && OneAtATime(s, plan, Step(w, events[0]), events[1..])
  }

  ghost predicate UpToDate(w: World) {
    && (forall j :: 0 <= j < |w.log| ==> w.log[j].seen == j)
    && (forall id :: id in w.passes ==> w.passes[id].seen == |w.log| && w.passes.Keys == {id})
  }

  lemma {:induction false} StaysUpToDate(s: Schedule, plan: Plan, w: World, events: seq<Event>)
    requires Possible(s, plan, w, events) && OneAtATime(s, plan, w, events) && UpToDate(w)
    ensures UpToDate(Run(s, plan, w, events))
    decreases |events|
  {
    if events != [] {
      StaysUpToDate(s, plan, Step(w, events[0]), events[1..]);
    }
  }

  /** When passes do not overlap, the plan is re-signed at most once per time to live unless its nonce
      was passed: n signings without that fit in the window with n - 1 full lifetimes between them. */
  lemma AtMostOneSigningPerLifetime(s: Schedule, plan: Plan, events: seq<Event>)
    requires plan.ttlMs >= 0
    requires Possible(s, plan, NOTHING_SIGNED, events) && OneAtATime(s, plan, NOTHING_SIGNED, events)
    requires var log := Run(s, plan, NOTHING_SIGNED, events).log;
             log != [] && forall j :: 0 < j < |log| ==> log[j].report <= log[j - 1].nonce
    ensures (|Run(s, plan, NOTHING_SIGNED, events).log| - 1) * (plan.ttlMs + 1) <= plan.leadMs + s.continueForMs
  {
    RunKeepsInv(s, plan, NOTHING_SIGNED, events);
    StaysUpToDate(s, plan, NOTHING_SIGNED, events);
    var w := Run(s, plan, NOTHING_SIGNED, events);
    LifetimesAddUp(s, plan, w, |w.log| - 1);
  }

  lemma OneLifetimeApart(s: Schedule, plan: Plan, w: World, j: nat)
    requires Inv(s, plan, w) && UpToDate(w) && 0 < j < |w.log|
    requires w.log[j].report <= w.log[j - 1].nonce
    ensures w.log[j].now >= w.log[j - 1].now + (plan.ttlMs + 1)
  {
    assert Due(plan, w.log, j);
    assert w.log[j - 1].now <= w.log[j - 1].at;
  }

  lemma {:induction false} LifetimesAddUp(s: Schedule, plan: Plan, w: World, j: nat)
    requires Inv(s, plan, w) && UpToDate(w) && j < |w.log|
    requires forall k :: 0 < k < |w.log| ==> w.log[k].report <= w.log[k - 1].nonce
    ensures w.log[j].now >= s.LocalStart() - plan.leadMs + j * (plan.ttlMs + 1)
  {
    if j > 0 {
      hide Inv, UpToDate;
      LifetimesAddUp(s, plan, w, j - 1);
      OneLifetimeApart(s, plan, w, j);
      var step := plan.ttlMs + 1;
      assert j * step == (j - 1) * step + step;
    }
  }

  /** Overlapping passes do sign twice: both read the row before either has saved. */
  lemma OverlappingPassesSignTwice(s: Schedule, plan: Plan, now: int)
    requires InWindow(s, plan, now)
    ensures var events := [Read(0, now), Read(1, now), Save(0, 5, 5, now), Save(1, 5, 6, now)];
            && Possible(s, plan, NOTHING_SIGNED, events)
            && |Run(s, plan, NOTHING_SIGNED, events).log| == 2
  {
    var a, b, c, d := Read(0, now), Read(1, now), Save(0, 5, 5, now), Save(1, 5, 6, now);
    var w1 := Step(NOTHING_SIGNED, a);
    var w2 := Step(w1, b);
    var w3 := Step(w2, c);
    var pass := Pass(now, Blob(None, None), 0);
    assert w1.passes == map[0 := pass] && Enabled(s, plan, w1, b);
    assert w2.passes == map[0 := pass, 1 := pass] && Enabled(s, plan, w2, c);
    assert w3.passes == map[1 := pass] && w3.log[0].at == now && |w3.log| == 1;
    assert [a, b, c, d][1..] == [b, c, d] && [b, c, d][1..] == [c, d] && [c, d][1..] == [d];
    assert Enabled(s, plan, w3, d) && Possible(s, plan, Step(w3, d), []);
    assert Possible(s, plan, w3, [d]);
    assert Possible(s, plan, w2, [c, d]);
    assert Possible(s, plan, w1, [b, c, d]);
    assert Run(s, plan, w2, [c, d]) == Run(s, plan, w3, [d]) == Step(w3, d);
    assert Run(s, plan, w1, [b, c, d]) == Run(s, plan, w2, [c, d]);
  }

  // ----- The nonce of a re-signing -----

  /** A lone plan that re-signs for age gets its own nonce back, rather than the next one with the old
      one left unused, if and only if the time to live is at least the expiry of a reservation. */
  lemma ResigningKeepsTheNonceIff(plan: Plan, report: nat, reservedAt: int)
    requires plan.ttlMs >= 0
    ensures var w := NonceAllocator.ReserveStep(NonceAllocator.UNTOUCHED, report, reservedAt).1;
            (forall again :: again - reservedAt > plan.ttlMs ==>
               NonceAllocator.ReserveStep(w, report, again).0 == report)
            <==> plan.ttlMs >= 60_000
  {
    var w := NonceAllocator.ReserveStep(NonceAllocator.UNTOUCHED, report, reservedAt).1;
    var again := reservedAt + plan.ttlMs + 1;
    assert plan.ttlMs < NonceAllocator.RESERVATION_TTL_MS ==>
      NonceAllocator.ReserveStep(w, report, again).0 == report + 1;
  }
}
