/** When to sleep, spin, fire or give up (packages/core/src/fire-schedule.ts), over whole
    sequences of ticks. */
module FireSchedule {
  import opened Arithmetic

  function ChainTimeToLocalMs(chainMs: int, clockOffsetMs: int): int {
    chainMs + clockOffsetMs
  }

  datatype Schedule = Schedule(stageStartChainMs: int, clockOffsetMs: int, hotWindowMs: int, leadMs: int,
                               continueForMs: int) {
    function LocalStart(): int { ChainTimeToLocalMs(stageStartChainMs, clockOffsetMs) }

    function FireAt(): int { LocalStart() - leadMs }

    function HotAt(): int { FireAt() - hotWindowMs }

    function ContinueUntil(): int { LocalStart() + continueForMs }
  }

  datatype FirePhase =
    | Waiting(msUntilHotWindow: int)
    | Hot(msUntilFire: int)
    | Fire(msSinceFireTarget: int)
    | Expired

  function ComputeFirePhase(s: Schedule, now: int): FirePhase {
    if now < s.HotAt() then Waiting(s.HotAt() - now)
    else if now < s.FireAt() then Hot(s.FireAt() - now)
    else if now <= s.ContinueUntil() then Fire(now - s.FireAt())
    else Expired
  }

  function Rank(p: FirePhase): nat {
    match p
    case Waiting(_) => 0
    case Hot(_) => 1
    case Fire(_) => 2
    case Expired => 3
  }

  /** Phases only move forward, for any parameters. */
  lemma PhasesOnlyAdvance(s: Schedule, earlier: int, later: int)
    requires earlier <= later
    ensures Rank(ComputeFirePhase(s, earlier)) <= Rank(ComputeFirePhase(s, later))
  {
  }

  /** A sleep of the returned length ends exactly where the phase changes: never a millisecond
      late, and on the phase that follows whenever that phase is not empty. A fire tick counts from
      the fire target, and expiry is for good. */
  lemma CountdownsLandOnTheNextPhase(s: Schedule, now: int)
    ensures match ComputeFirePhase(s, now)
            case Waiting(ms) =>
              && ms > 0
              && (forall t :: now <= t < now + ms ==> ComputeFirePhase(s, t).Waiting?)
              && !ComputeFirePhase(s, now + ms).Waiting?
              && (ComputeFirePhase(s, now + ms) == Hot(s.hotWindowMs) <==> s.hotWindowMs > 0)
            case Hot(ms) =>
              && ms > 0
              && (forall t :: now <= t < now + ms ==> ComputeFirePhase(s, t).Hot?)
              && !ComputeFirePhase(s, now + ms).Hot?
              && (ComputeFirePhase(s, now + ms) == Fire(0) <==> s.leadMs + s.continueForMs >= 0)
            case Fire(ms) => s.hotWindowMs >= 0 ==> ms >= 0 && ComputeFirePhase(s, now - ms) == Fire(0)
            case Expired => forall t :: t >= now ==> ComputeFirePhase(s, t).Expired?
  {
  }

  // ----- Ticks -----

  /** Consecutive ticks are at most `gap` apart. */
  ghost predicate Ticking(ticks: seq<int>, gap: int) {
    forall i :: 0 <= i < |ticks| - 1 ==> ticks[i] <= ticks[i + 1] <= ticks[i] + gap
  }

  function FireTicks(s: Schedule, ticks: seq<int>): nat {
    if ticks == [] then 0
    else (if ComputeFirePhase(s, ticks[0]).Fire? then 1 else 0) + FireTicks(s, ticks[1..])
  }

  lemma TickingTail(ticks: seq<int>, gap: int)
    requires Ticking(ticks, gap) && ticks != []
    ensures Ticking(ticks[1..], gap)
  {
  }

  lemma {:induction false} FromInsideTheWindow(s: Schedule, ticks: seq<int>, gap: int)
    requires Ticking(ticks, gap) && gap >= 1 && ticks != [] && s.hotWindowMs >= 0
    requires s.FireAt() <= ticks[0] && s.ContinueUntil() < ticks[|ticks| - 1]
    ensures FireTicks(s, ticks) * gap >= s.ContinueUntil() - ticks[0] + 1
    decreases |ticks|
  {
    if ticks[0] <= s.ContinueUntil() {
      TickingTail(ticks, gap);
      assert ticks[1] <= ticks[0] + gap;
      FromInsideTheWindow(s, ticks[1..], gap);
      assert FireTicks(s, ticks) * gap == gap + FireTicks(s, ticks[1..]) * gap;
    } else {
      assert FireTicks(s, ticks) * gap >= 0;
    }
  }

  lemma {:induction false} FromBeforeTheWindow(s: Schedule, ticks: seq<int>, gap: int)
    requires Ticking(ticks, gap) && gap >= 1 && ticks != [] && s.hotWindowMs >= 0
    requires ticks[0] <= s.FireAt() && s.ContinueUntil() < ticks[|ticks| - 1]
    requires s.FireAt() <= s.ContinueUntil()
    ensures FireTicks(s, ticks) * gap >= s.ContinueUntil() - s.FireAt() + 2 - gap
    decreases |ticks|
  {
    if ticks[0] == s.FireAt() {
      FromInsideTheWindow(s, ticks, gap);
    } else {
      TickingTail(ticks, gap);
      assert ticks[1] <= ticks[0] + gap;
      if ticks[1] <= s.FireAt() {
        FromBeforeTheWindow(s, ticks[1..], gap);
      } else {
        FromInsideTheWindow(s, ticks[1..], gap);
      }
    }
  }

  /** Ticks that start no later than the fire target, run past the end of the window and are at
      most `gap` apart fire at least floor((lead + continue + 1) / gap) times. */
  lemma TheWindowIsFiredIn(s: Schedule, ticks: seq<int>, gap: int)
    requires Ticking(ticks, gap) && gap >= 1 && ticks != [] && s.hotWindowMs >= 0
    requires ticks[0] <= s.FireAt() && s.ContinueUntil() < ticks[|ticks| - 1]
    ensures FireTicks(s, ticks) >= (s.leadMs + s.continueForMs + 1) / gap
  {
    var width := s.leadMs + s.continueForMs;
    if width >= 0 {
      FromBeforeTheWindow(s, ticks, gap);
      CeilingOfQuotient(FireTicks(s, ticks), gap, width + 1);
    }
  }

  lemma CeilingOfQuotient(n: int, gap: int, w: int)
    requires gap >= 1 && n * gap >= w + 1 - gap
    ensures n >= w / gap
  {
    var q := w / gap;
    assert q * gap <= w;
    assert (n + 1) * gap == n * gap + gap;
    CancelMul(q, n + 1, gap);
  }
}
