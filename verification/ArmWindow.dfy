/** How long a special mint is armed for (`specialMintArmWindow` in apps/web/src/app/actions.ts),
    and why the first fire tick then finds the window still open. */
module ArmWindow {
  import opened Arithmetic
  import Execution
  import opened FireSchedule
  import opened Wrappers

  const MINUTE := 60_000
  const SPECIAL_MINT_MAX_ARM_MINUTES := 24 * 60
  const MAX_WINDOW_MS := SPECIAL_MINT_MAX_ARM_MINUTES * MINUTE
  const MANUAL_FIRE_ARM_TAIL_MS := 4 * 60 * 60 * 1000

  /** The time value of a date or a parsed string; an unparsable one is NaN, and every comparison
      with NaN is false. */
  datatype Ms = NaN | At(ms: int) {
    predicate AtMost(t: int) { At? && ms <= t }

    predicate After(t: int) { At? && ms > t }

    function Plus(d: int): Ms { if At? then At(ms + d) else NaN }
  }

  datatype Stage = Stage(startsAt: Ms, endsAt: Option<Ms>)

  datatype ArmWindowResult = Armed(minutes: int) | NoFireInstant | FireBeyondArmWindow | FireTimePassed

  predicate StageOpen(now: int, stage: Option<Stage>) {
    stage.Some? && stage.value.startsAt.AtMost(now) &&
    (stage.value.endsAt.None? || stage.value.endsAt.value.After(now))
  }

  function FireTarget(fireAt: Option<Ms>, stage: Option<Stage>): Option<Ms> {
    if fireAt.Some? then fireAt else if stage.None? then None else Some(stage.value.startsAt)
  }

  /** Math.ceil(d / 60_000). */
  function CeilMinutes(d: int): int {
    -((-d) / MINUTE)
  }

  function SpecialMintArmWindow(now: int, fireAt: Option<Ms>, stage: Option<Stage>): ArmWindowResult {
    var stageOpen := StageOpen(now, stage);
    var target := FireTarget(fireAt, stage);
    if target.None? || target.value.NaN? then NoFireInstant
    else if target.value.ms - now > MAX_WINDOW_MS then FireBeyondArmWindow
    else if target.value.ms <= now && !stageOpen then FireTimePassed
    else
      var planned :=
        if fireAt.Some? then fireAt.value.Plus(MANUAL_FIRE_ARM_TAIL_MS)
        else if stage.None? then NaN
        else if stage.value.endsAt.Some? then stage.value.endsAt.value
        else stage.value.startsAt.Plus(MANUAL_FIRE_ARM_TAIL_MS);
      var until :=
        if planned.At? && planned.ms - now < MINUTE && stageOpen then
          (if stage.value.endsAt.None? then At(now + MANUAL_FIRE_ARM_TAIL_MS) else stage.value.endsAt.value)
        else planned;
      if until.NaN? || CeilMinutes(until.ms - now) < 1 then FireTimePassed
      else Armed(if CeilMinutes(until.ms - now) < SPECIAL_MINT_MAX_ARM_MINUTES then CeilMinutes(until.ms - now)
                 else SPECIAL_MINT_MAX_ARM_MINUTES)
  }

  /** A stage that opens before it closes. */
  ghost predicate Sane(stage: Option<Stage>) {
    stage.Some? ==>
      stage.value.startsAt.At? && (stage.value.endsAt.Some? ==> stage.value.endsAt.value.After(stage.value.startsAt.ms))
  }

  /** A window is granted exactly when there is a fire target at most 24 hours away that is in the
      future or whose stage is open; each refusal names the part that fails. */
  lemma ArmsExactlyWhenTheTargetIsReachable(now: int, fireAt: Option<Ms>, stage: Option<Stage>)
    requires Sane(stage)
    ensures FireTarget(fireAt, stage) ==
            match (fireAt, stage) case (Some(at), _) => Some(at) case (None, Some(s)) => Some(s.startsAt) case _ => None
    ensures StageOpen(now, stage) <==>
            && stage.Some? && stage.value.startsAt.At? && stage.value.startsAt.ms <= now
            && (stage.value.endsAt.Some? ==> stage.value.endsAt.value.At? && now < stage.value.endsAt.value.ms)
    ensures SpecialMintArmWindow(now, fireAt, stage).Armed? <==>
            var target := FireTarget(fireAt, stage);
            && target.Some? && target.value.At?
            && target.value.ms - now <= 86_400_000
            && (target.value.ms > now || StageOpen(now, stage))
    ensures var target := FireTarget(fireAt, stage);
            match SpecialMintArmWindow(now, fireAt, stage)
            case Armed(_) => true
            case NoFireInstant => target.None? || target.value.NaN?
            case FireBeyondArmWindow => target.value.ms - now > 86_400_000
            case FireTimePassed => target.value.ms <= now && !StageOpen(now, stage)
  {
  }

  /** A granted window is 1 to 1440 minutes long and reaches the fire target. */
  lemma ArmedWindowReachesTheTarget(now: int, fireAt: Option<Ms>, stage: Option<Stage>)
    requires Sane(stage) && SpecialMintArmWindow(now, fireAt, stage).Armed?
    ensures var minutes := SpecialMintArmWindow(now, fireAt, stage).minutes;
            && 1 <= minutes <= 1440
            && now + minutes * 60_000 >= FireTarget(fireAt, stage).value.ms
  {
  }

  /** A whole number of minutes that covers d with less than a minute to spare, or the cap. */
  predicate Fits(minutes: int, d: int) {
    (minutes - 1) * 60_000 < d && (d <= minutes * 60_000 || minutes == 1440)
  }

  /** The window is no longer than it has to be: up to the end of an auto-detected phase (or four
      hours, when it has none), or four hours past a manual fire time; a late join to an open phase
      lasts until that phase ends. */
  lemma ArmedWindowFits(now: int, fireAt: Option<Ms>, stage: Option<Stage>)
    requires Sane(stage) && SpecialMintArmWindow(now, fireAt, stage).Armed?
    ensures var minutes := SpecialMintArmWindow(now, fireAt, stage).minutes;
            var target := FireTarget(fireAt, stage).value.ms;
            var tail := target + 14_400_000 - now;
            if fireAt.None? && stage.value.endsAt.Some? then Fits(minutes, stage.value.endsAt.value.ms - now)
            else if tail >= 60_000 || !StageOpen(now, stage) then Fits(minutes, tail)
            else if stage.value.endsAt.Some? then Fits(minutes, stage.value.endsAt.value.ms - now)
            else minutes == 240
  {
  }

  // ----- The window meets the fire schedule -----

  /** The first tick of the fire phase. */
  ghost predicate FirstFire(s: Schedule, ticks: seq<int>, i: nat) {
    && i < |ticks| && ComputeFirePhase(s, ticks[i]).Fire?
    && forall j :: 0 <= j < i ==> !ComputeFirePhase(s, ticks[j]).Fire?
  }

  lemma FirstFireIsPrompt(s: Schedule, ticks: seq<int>, gap: int, i: nat)
    requires Ticking(ticks, gap) && gap >= 1 && s.hotWindowMs >= 0
    requires FirstFire(s, ticks, i) && ticks[0] <= s.FireAt()
    ensures ticks[i] <= s.FireAt() + gap - 1
  {
    if i > 0 {
      assert ticks[i - 1] <= ticks[i] <= ticks[i - 1] + gap;
      PhasesOnlyAdvance(s, ticks[i - 1], ticks[i]);
      assert !ComputeFirePhase(s, ticks[i - 1]).Fire?;
    }
  }

  /** The latest instant at which the first fire tick can come. */
  function LatestFirstFire(s: Schedule, gap: int): int {
    Min(s.FireAt() + gap - 1, s.ContinueUntil())
  }

  /** Ticks at most `gap` apart that are running before the fire target. */
  ghost predicate Early(s: Schedule, ticks: seq<int>, gap: int) {
    ticks != [] && Ticking(ticks, gap) && ticks[0] <= s.FireAt()
  }

  /** Every way of ticking finds its first fire tick before the window ends, if and only if the latest
      possible one does. */
  lemma FirstFireIsInTheWindowIff(s: Schedule, gap: int, armedUntil: int)
    requires s.hotWindowMs >= 0 && gap >= 1 && s.leadMs + s.continueForMs >= 0
    ensures (forall ticks, i: nat :: Early(s, ticks, gap) && FirstFire(s, ticks, i) ==> ticks[i] < armedUntil)
            <==> LatestFirstFire(s, gap) < armedUntil
  {
    var latest := LatestFirstFire(s, gap);
    forall ticks, i: nat | Early(s, ticks, gap) && FirstFire(s, ticks, i)
      ensures ticks[i] <= latest
    {
      FirstFireIsPrompt(s, ticks, gap, i);
    }
    var worst := [s.FireAt() - 1, latest];
    assert Early(s, worst, gap) && FirstFire(s, worst, 1) && worst[1] == latest;
  }

  /** What the plan may still spend on this transaction. */
  predicate Affordable(check: Execution.FireCheck) {
    && 0 < check.perPlanCeilingWei <= check.signerCeilingWei
    && check.spentWei < check.perPlanCeilingWei && check.spentWei + check.txValueWei <= check.perPlanCeilingWei
  }

  /** A plan that was running before its target may fire at its first fire tick, however the ticks
      fall, if and only if its window outlasts the latest one: past the target by the clock offset
      minus the lead plus one tick gap, or past the end of the fire window when that comes first. */
  lemma FirstFireTickIsAllowedIff(s: Schedule, gap: int, check: Execution.FireCheck)
    requires s.hotWindowMs >= 0 && gap >= 1 && s.leadMs + s.continueForMs >= 0
    requires check.status == Execution.Armed && check.armedUntil.Some? && Affordable(check)
    ensures (forall ticks, i: nat :: Early(s, ticks, gap) && FirstFire(s, ticks, i) ==>
               Execution.CanFireMintPlan(check, ticks[i]).None?)
            <==> || check.armedUntil.value - s.stageStartChainMs >= s.clockOffsetMs - s.leadMs + gap
                 || check.armedUntil.value > s.ContinueUntil()
  {
    FirstFireIsInTheWindowIff(s, gap, check.armedUntil.value);
    forall ticks, i: nat | Early(s, ticks, gap) && FirstFire(s, ticks, i)
      ensures Execution.CanFireMintPlan(check, ticks[i]).None? <==> ticks[i] < check.armedUntil.value
    {
    }
  }

  /** The same for a granted window and one sequence of ticks, whatever the money says. */
  lemma FirstFireTickIsAllowed(now: int, fireAt: Option<Ms>, stage: Option<Stage>, armedAt: int,
                               s: Schedule, ticks: seq<int>, gap: int, i: nat, check: Execution.FireCheck)
    requires Sane(stage) && SpecialMintArmWindow(now, fireAt, stage).Armed? && armedAt >= now
    requires s.stageStartChainMs == FireTarget(fireAt, stage).value.ms && s.hotWindowMs >= 0
    requires gap >= 1 && Early(s, ticks, gap) && FirstFire(s, ticks, i)
    requires check.status == Execution.Armed
    requires check.armedUntil == Some(armedAt + SpecialMintArmWindow(now, fireAt, stage).minutes * 60_000)
    requires check.armedUntil.value - s.stageStartChainMs >= s.clockOffsetMs - s.leadMs + gap
    ensures Execution.CanFireMintPlan(check, ticks[i]).None? <==> Affordable(check)
  {
    FirstFireIsPrompt(s, ticks, gap, i);
  }

  /** A late join: the plan is armed when its fire target has already passed, and the loop sees it
      within one tick gap. If it fires at all, it fires at that first tick, and with ticks less than a
      minute apart the window, which lasts a minute at least, is then still open. */
  lemma LateJoinFiresAtOnce(now: int, fireAt: Option<Ms>, stage: Option<Stage>, armedAt: int,
                            s: Schedule, ticks: seq<int>, gap: int, i: nat, check: Execution.FireCheck)
    requires Sane(stage) && SpecialMintArmWindow(now, fireAt, stage).Armed?
    requires Ticking(ticks, gap) && s.hotWindowMs >= 0 && FirstFire(s, ticks, i)
    requires s.FireAt() < ticks[0] && armedAt <= ticks[0] <= armedAt + gap
    requires check.status == Execution.Armed
    requires check.armedUntil == Some(armedAt + SpecialMintArmWindow(now, fireAt, stage).minutes * 60_000)
    ensures i == 0
    ensures gap < 60_000 ==> (Execution.CanFireMintPlan(check, ticks[0]).None? <==> Affordable(check))
  {
    ArmedWindowReachesTheTarget(now, fireAt, stage);
    TicksAscend(ticks, gap, i);
    PhasesOnlyAdvance(s, ticks[0], ticks[i]);
  }

  lemma {:induction false} TicksAscend(ticks: seq<int>, gap: int, i: nat)
    requires Ticking(ticks, gap) && i < |ticks|
    ensures ticks[0] <= ticks[i]
  {
    if i > 0 {
      TicksAscend(ticks, gap, i - 1);
      assert ticks[i - 1] <= ticks[i - 1 + 1];
    }
  }

  /** Every late join is allowed, wherever its first tick falls, if and only if the window outlasts
      the tick gap or the whole fire window. */
  lemma LateJoinIsAllowedIff(s: Schedule, gap: int, armedAt: int, check: Execution.FireCheck)
    requires s.hotWindowMs >= 0 && gap >= 0 && s.FireAt() <= armedAt <= s.ContinueUntil()
    requires check.status == Execution.Armed && check.armedUntil.Some? && Affordable(check)
    ensures (forall t :: armedAt <= t <= armedAt + gap && ComputeFirePhase(s, t).Fire? ==>
               Execution.CanFireMintPlan(check, t).None?)
            <==> armedAt + gap < check.armedUntil.value || s.ContinueUntil() < check.armedUntil.value
  {
    var latest := Min(armedAt + gap, s.ContinueUntil());
    assert ComputeFirePhase(s, latest).Fire?;
  }

  /** A window without margin occurs: a target exactly 24 hours away is armed for a window that ends
      on the target itself, and a tick at the target is refused. */
  lemma TargetAtTheCapIsRefusedOnTime(now: int, check: Execution.FireCheck)
    requires check.status == Execution.Armed
    requires check.armedUntil == Some(now + 1440 * 60_000)
    ensures SpecialMintArmWindow(now, Some(At(now + 86_400_000)), None) == Armed(1440)
    ensures Execution.CanFireMintPlan(check, now + 86_400_000) == Some(Execution.WindowExpired)
  {
  }
}
