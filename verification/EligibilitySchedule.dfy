/** The cadence of eligibility re-checks (packages/core/src/schedule.ts) followed over a whole run,
    from far ahead of a stage to its open. */
module EligibilitySchedule {
  import opened Stages
  import opened Status
  import opened Wrappers

  const MINUTE := 60_000
  const HOUR := 60 * MINUTE
  const FAR := 6 * HOUR
  const NEAR := 30 * MINUTE
  const IMMINENT := 5 * MINUTE

  function EligibilityRetryDelayMs(stages: seq<StageView>, lifecycle: LifecycleStatus, now: int,
                                   currentlyEligible: bool): Option<int> {
    if lifecycle == ENDED || lifecycle == SOLD_OUT then None
    else
      var stage := RelevantStage(stages, now);
      if stage.None? then (if lifecycle == UNKNOWN then Some(NEAR) else None)
      else
        var start := stage.value.startsAt;
        if start <= now && (stage.value.endsAt.None? || now < stage.value.endsAt.value) then
          Some(if currentlyEligible then NEAR else IMMINENT)
        else if start - now > 24 * HOUR then Some(FAR)
        else if start - now > HOUR then Some(NEAR)
        else Some(IMMINENT)
  }

  function NextEligibilityDueAt(stages: seq<StageView>, lifecycle: LifecycleStatus, now: int,
                                currentlyEligible: bool): Option<int> {
    var delay := EligibilityRetryDelayMs(stages, lifecycle, now, currentlyEligible);
    if delay.None? then None else Some(now + delay.value)
  }

  function Delay(left: int): int {
    if left > 24 * HOUR then FAR else if left > HOUR then NEAR else IMMINENT
  }

  /** With nothing paused, the status alone says whether checks go on, and how often: they stop
      exactly when the drop has ended or sold out. */
  lemma DelayFollowsLifecycle(stages: seq<StageView>, now: int, paused: Option<bool>, supply: SupplyFacts,
                              eligible: bool)
    requires paused != Some(true) && forall s :: s in stages ==> !s.paused
    ensures var lifecycle := ComputeLifecycle(stages, now, paused, supply);
            EligibilityRetryDelayMs(stages, lifecycle, now, eligible) ==
            match lifecycle
            case LIVE => Some(if eligible then 1_800_000 else 300_000)
            case NEXT =>
              var next := NextStage(stages, now);
              if next.None? then None
              else
                var left := next.value.startsAt - now;
                Some(if left > 86_400_000 then 21_600_000 else if left > 3_600_000 then 1_800_000 else 300_000)
            case UNKNOWN => Some(1_800_000)
            case _ => None
  {
    if !SoldOut(supply) {
      LifecycleAgreesWithSelectors(stages, now, paused, supply);
    }
    CurrentStageIsRunning(stages, now);
    NextStageIsTheEarliest(stages, now);
  }

  // ----- A run of checks up to an open -----

  /** `open` is the start of the next unpaused stage after t0, and no unpaused stage is live at t0. */
  ghost predicate OpensNext(stages: seq<StageView>, t0: int, open: int) {
    && (exists s :: s in stages && Upcoming(s, t0) && s.startsAt == open)
    && (forall s :: s in stages ==> !Running(s, t0))
    && (forall s :: s in stages && Upcoming(s, t0) ==> open <= s.startsAt)
  }

  /** What a checker learns at each instant; it never learns that the drop is over before the open. */
  datatype Seen = Seen(lifecycle: LifecycleStatus, eligible: bool)

  /** The instants of the checks made at `checks[0]`, `checks[1]`, ..., each due when the one before
      it said; the last is the first at or after the open. */
  ghost predicate FollowsSchedule(stages: seq<StageView>, seen: seq<Seen>, checks: seq<int>, open: int) {
    && |checks| >= 1 && |seen| == |checks|
    && (forall i :: 0 <= i < |checks| - 1 ==>
          && checks[i] < open
          && seen[i].lifecycle != ENDED && seen[i].lifecycle != SOLD_OUT
          && NextEligibilityDueAt(stages, seen[i].lifecycle, checks[i], seen[i].eligible) == Some(checks[i + 1]))
    && checks[|checks| - 1] >= open
  }

  /** Until the open, the delay depends on nothing but the time left. */
  lemma DelayBeforeOpen(stages: seq<StageView>, t0: int, open: int, now: int, lifecycle: LifecycleStatus,
                        eligible: bool)
    requires OpensNext(stages, t0, open) && t0 <= now < open
    requires lifecycle != ENDED && lifecycle != SOLD_OUT
    ensures NextEligibilityDueAt(stages, lifecycle, now, eligible) == Some(now + Delay(open - now))
  {
    CurrentStageIsRunning(stages, now);
    NextStageIsTheEarliest(stages, now);
    forall s | s in stages
      ensures !Running(s, now)
    {
      assert !Running(s, t0);
      assert Upcoming(s, t0) ==> open <= s.startsAt;
    }
    var first :| first in stages && Upcoming(first, t0) && first.startsAt == open;
    assert Upcoming(first, now);
    var next := NextStage(stages, now).value;
    assert Upcoming(next, t0);
    assert next.startsAt == open;
  }

  /** The checks with `left` between 0 (excluded) and `bound` before the open. */
  function CountWithin(checks: seq<int>, open: int, bound: int): nat {
    if checks == [] then 0
    else (if 0 < open - checks[0] <= bound then 1 else 0) + CountWithin(checks[1..], open, bound)
  }

  function CountBefore(checks: seq<int>, open: int): nat {
    if checks == [] then 0 else (if checks[0] < open then 1 else 0) + CountBefore(checks[1..], open)
  }

  /** Each check follows its predecessor by the delay for the time left. */
  ghost predicate Paced(checks: seq<int>, open: int) {
    && |checks| >= 1
    && (forall i :: 0 <= i < |checks| - 1 ==> checks[i] < open && checks[i + 1] == checks[i] + Delay(open - checks[i]))
    && checks[|checks| - 1] >= open
  }

  lemma PacedTail(checks: seq<int>, open: int)
    requires Paced(checks, open) && checks[0] < open
    ensures |checks| >= 2 && Paced(checks[1..], open) && checks[1] == checks[0] + Delay(open - checks[0])
  {
  }

  lemma {:induction false} ScheduleIsPaced(stages: seq<StageView>, seen: seq<Seen>, checks: seq<int>, open: int,
                                           t0: int)
    requires OpensNext(stages, t0, open) && FollowsSchedule(stages, seen, checks, open) && t0 <= checks[0]
    ensures Paced(checks, open)
    decreases |checks|
  {
    forall i | 0 <= i < |checks| - 1
      ensures checks[i + 1] == checks[i] + Delay(open - checks[i])
    {
      ChecksAdvance(stages, seen, checks, open, t0, i);
      DelayBeforeOpen(stages, t0, open, checks[i], seen[i].lifecycle, seen[i].eligible);
    }
  }

  lemma {:induction false} ChecksAdvance(stages: seq<StageView>, seen: seq<Seen>, checks: seq<int>, open: int, t0: int,
                                         i: nat)
    requires OpensNext(stages, t0, open) && FollowsSchedule(stages, seen, checks, open) && t0 <= checks[0]
    requires i < |checks|
    ensures t0 <= checks[i]
  {
    if i > 0 {
      ChecksAdvance(stages, seen, checks, open, t0, i - 1);
      DelayBeforeOpen(stages, t0, open, checks[i - 1], seen[i - 1].lifecycle, seen[i - 1].eligible);
    }
  }

  /** From at most an hour left, checks come every five minutes: as many as five-minute steps fit
      before the open, and the last one less than five minutes after it. */
  lemma {:induction false} LastHour(checks: seq<int>, open: int)
    requires Paced(checks, open) && open - checks[0] <= HOUR
    requires checks[0] < open + IMMINENT
    ensures var left := open - checks[0];
            && open <= checks[|checks| - 1] < open + IMMINENT
            && left <= CountWithin(checks, open, HOUR) * IMMINENT < left + IMMINENT
            && CountBefore(checks, open) == CountWithin(checks, open, HOUR)
    decreases |checks|
  {
    if checks[0] < open {
      PacedTail(checks, open);
      LastHour(checks[1..], open);
    } else {
      assert |checks| == 1;
      assert checks[1..] == [];
    }
  }

  /** From at most a day left: half-hour steps down to more than half an hour, then the last hour. */
  lemma {:induction false} LastDay(checks: seq<int>, open: int)
    requires Paced(checks, open) && HOUR - NEAR < open - checks[0] <= 24 * HOUR
    ensures open <= checks[|checks| - 1] < open + IMMINENT
    ensures CountWithin(checks, open, HOUR) >= 7
    ensures var left := open - checks[0];
            (CountBefore(checks, open) - 12) * NEAR < if left <= HOUR then NEAR else left - HOUR + NEAR
    decreases |checks|
  {
    var left := open - checks[0];
    if left <= HOUR {
      LastHour(checks, open);
    } else {
      PacedTail(checks, open);
      LastDay(checks[1..], open);
    }
  }

  /** From any distance: six-hour steps down to a day, then the last day. */
  lemma {:induction false} FromAfar(checks: seq<int>, open: int)
    requires Paced(checks, open) && open - checks[0] > 3_600_000
    ensures open <= checks[|checks| - 1] < open + 300_000
    ensures CountWithin(checks, open, 3_600_000) >= 7
    ensures var left := open - checks[0];
            left > 24 * HOUR ==> (CountBefore(checks, open) - 58) * FAR < left - 24 * HOUR + FAR
    decreases |checks|
  {
    var left := open - checks[0];
    if left <= 24 * HOUR {
      LastDay(checks, open);
    } else {
      PacedTail(checks, open);
      var left' := open - checks[1];
      if left' > 24 * HOUR {
        FromAfar(checks[1..], open);
      } else {
        LastDay(checks[1..], open);
        assert CountBefore(checks[1..], open) <= 58;
      }
    }
  }

  /** Following the schedule from more than an hour before the next open, with nothing live earlier:
      at least seven checks fall in the last hour, the first check not before the open comes less
      than five minutes after it, and starting D > 24 h ahead takes at most ceil((D - 24 h) / 6 h) + 58
      checks before the open. */
  lemma CadenceAroundTheOpen(stages: seq<StageView>, seen: seq<Seen>, checks: seq<int>, open: int)
    requires |checks| >= 1 && OpensNext(stages, checks[0], open)
    requires FollowsSchedule(stages, seen, checks, open) && open - checks[0] > 3_600_000
    ensures open <= checks[|checks| - 1] < open + 300_000
    ensures CountWithin(checks, open, 3_600_000) >= 7
    ensures var left := open - checks[0];
            left > 86_400_000 ==>
              CountBefore(checks, open) <= 58 + (left - 86_400_000 + 21_600_000 - 1) / 21_600_000
  {
    ScheduleIsPaced(stages, seen, checks, open, checks[0]);
    FromAfar(checks, open);
  }
}
