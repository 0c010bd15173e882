/** Lifecycle status of a drop (packages/core/src/status.ts) and its agreement with the stage
    selectors. */
module Status {
  import opened Stages
  import opened Wrappers

  datatype LifecycleStatus = LIVE | NEXT | ENDED | SOLD_OUT | PAUSED | UNKNOWN

  datatype SupplyFacts = SupplyFacts(minted: Option<int>, maxSupply: Option<int>, verified: bool)

  predicate SoldOut(supply: SupplyFacts) {
    supply.verified && supply.minted.Some? && supply.maxSupply.Some? && supply.minted.value >= supply.maxSupply.value
  }

  /** The first listed stage that is live, paused or not. */
  function FirstLive(stages: seq<StageView>, now: int): Option<StageView> {
    if stages == [] then None
    else if IsStageLive(stages[0], now) then Some(stages[0])
    else FirstLive(stages[1..], now)
  }

  predicate HasFutureStage(stages: seq<StageView>, now: int) {
    exists w :: w in WindowedStages(stages, now) && w.msUntilStart > 0
  }

  predicate AllEnded(stages: seq<StageView>, now: int) {
    forall s :: s in stages ==> s.endsAt.Some? && s.endsAt.value <= now
  }

  function ComputeLifecycle(stages: seq<StageView>, now: int, paused: Option<bool>, supply: SupplyFacts)
    : LifecycleStatus
  {
    if stages == [] && paused != Some(true) then UNKNOWN
    else if SoldOut(supply) then SOLD_OUT
    else
      var live := FirstLive(stages, now);
      if live.Some? then
        if live.value.paused || paused == Some(true) then PAUSED
        else if SoldOut(supply) then SOLD_OUT
        else LIVE
      else
        var future := HasFutureStage(stages, now);
        if paused == Some(true) then (if future then PAUSED else ENDED)
        else if future then NEXT
        else if AllEnded(stages, now) then ENDED
        else UNKNOWN
  }

  lemma {:induction false} FirstLiveFinds(stages: seq<StageView>, now: int)
    ensures var live := FirstLive(stages, now);
            && (live.None? <==> forall s :: s in stages ==> !IsStageLive(s, now))
            && (live.Some? ==> live.value in stages && IsStageLive(live.value, now))
  {
    if stages != [] {
      FirstLiveFinds(stages[1..], now);
      assert stages == [stages[0]] + stages[1..];
    }
  }

  lemma FutureStageExists(stages: seq<StageView>, now: int)
    ensures HasFutureStage(stages, now) <==> exists s :: s in stages && s.startsAt > now
  {
    SortedWindows(stages, now);
    if s :| s in stages && s.startsAt > now {
      assert Window(s, now) in WindowedStages(stages, now);
    }
  }

  lemma Facts(stages: seq<StageView>, now: int)
    ensures FirstLive(stages, now).None? <==> forall s :: s in stages ==> !IsStageLive(s, now)
    ensures FirstLive(stages, now).Some? ==>
              FirstLive(stages, now).value in stages && IsStageLive(FirstLive(stages, now).value, now)
    ensures HasFutureStage(stages, now) <==> exists s :: s in stages && s.startsAt > now
    ensures FirstLive(stages, now).None? && !HasFutureStage(stages, now) ==> AllEnded(stages, now)
  {
    FirstLiveFinds(stages, now);
    FutureStageExists(stages, now);
    if FirstLive(stages, now).None? && !HasFutureStage(stages, now) {
      forall s | s in stages
        ensures s.endsAt.Some? && s.endsAt.value <= now
      {
        assert !IsStageLive(s, now) && s.startsAt <= now;
      }
    }
  }

  /** UNKNOWN means exactly: no stages, and not reported paused. The final fallback to UNKNOWN is
      never reached. */
  lemma UnknownMeansNoStages(stages: seq<StageView>, now: int, paused: Option<bool>, supply: SupplyFacts)
    ensures ComputeLifecycle(stages, now, paused, supply) == UNKNOWN <==> stages == [] && paused != Some(true)
  {
    Facts(stages, now);
  }

  /** Verified supply that is used up outranks everything but the lack of any stage. */
  lemma SoldOutWins(stages: seq<StageView>, now: int, paused: Option<bool>, supply: SupplyFacts)
    ensures ComputeLifecycle(stages, now, paused, supply) == SOLD_OUT <==>
            && supply.verified && supply.minted.Some? && supply.maxSupply.Some?
            && supply.minted.value >= supply.maxSupply.value
            && (stages != [] || paused == Some(true))
  {
  }

  /** For fixed facts a drop that has ended stays ended. */
  lemma EndedIsPermanent(stages: seq<StageView>, now: int, later: int, paused: Option<bool>, supply: SupplyFacts)
    requires now <= later && ComputeLifecycle(stages, now, paused, supply) == ENDED
    ensures ComputeLifecycle(stages, later, paused, supply) == ENDED
  {
    Facts(stages, now);
    Facts(stages, later);
    forall s | s in stages
      ensures !IsStageLive(s, later) && s.startsAt <= later
    {
      assert s.endsAt.Some? && s.endsAt.value <= now;
    }
  }

  /** With nothing paused and supply left, the status and the selectors tell the same story. */
  lemma LifecycleAgreesWithSelectors(stages: seq<StageView>, now: int, paused: Option<bool>, supply: SupplyFacts)
    requires paused != Some(true) && !SoldOut(supply)
    requires forall s :: s in stages ==> !s.paused
    ensures ComputeLifecycle(stages, now, paused, supply) ==
            if stages == [] then UNKNOWN
            else if CurrentStage(stages, now).Some? then LIVE
            else if NextStage(stages, now).Some? then NEXT
            else ENDED
  {
    Facts(stages, now);
    CurrentStageIsRunning(stages, now);
    NextStageIsTheEarliest(stages, now);
    assert forall s :: s in stages ==>
             (Running(s, now) <==> IsStageLive(s, now)) && (Upcoming(s, now) <==> s.startsAt > now);
  }

  /** A drop reported paused stays PAUSED as long as any stage is live or ahead, and has ended
      otherwise. */
  lemma PausedUntilNothingIsLeft(stages: seq<StageView>, now: int, supply: SupplyFacts)
    requires !SoldOut(supply)
    ensures ComputeLifecycle(stages, now, Some(true), supply) ==
            if exists s :: s in stages && (IsStageLive(s, now) || s.startsAt > now) then PAUSED else ENDED
  {
    Facts(stages, now);
  }

  /** The stage at i is live, and no earlier one in the listing is. */
  ghost predicate IsFirstLive(stages: seq<StageView>, now: int, i: int) {
    && 0 <= i < |stages| && IsStageLive(stages[i], now)
    && forall j :: 0 <= j < i ==> !IsStageLive(stages[j], now)
  }

  lemma {:induction false} FirstLiveAt(stages: seq<StageView>, now: int)
    requires FirstLive(stages, now).Some?
    ensures exists i :: IsFirstLive(stages, now, i)
    ensures forall i :: IsFirstLive(stages, now, i) ==> stages[i] == FirstLive(stages, now).value
  {
    if IsStageLive(stages[0], now) {
      assert IsFirstLive(stages, now, 0);
    } else {
      FirstLiveAt(stages[1..], now);
      var k :| IsFirstLive(stages[1..], now, k);
      assert IsFirstLive(stages, now, k + 1);
      forall i | IsFirstLive(stages, now, i)
        ensures stages[i] == FirstLive(stages, now).value
      {
        assert stages[1..][i - 1] == stages[i];
        assert IsFirstLive(stages[1..], now, i - 1);
      }
    }
  }

  /** With paused stages they can differ: LIVE, documented for a stage that has started, has not ended
      and is not paused, fails exactly when the first live stage in listing order is a paused one and
      another is running. */
  lemma LiveDisagreesExactlyBehindAPausedStage(stages: seq<StageView>, now: int, paused: Option<bool>,
                                               supply: SupplyFacts)
    requires paused != Some(true) && !SoldOut(supply)
    ensures (ComputeLifecycle(stages, now, paused, supply) == LIVE <==> CurrentStage(stages, now).Some?) <==>
            !(CurrentStage(stages, now).Some? && exists i :: IsFirstLive(stages, now, i) && stages[i].paused)
  {
    if FirstLive(stages, now).Some? {
      FirstLiveAt(stages, now);
    }
    Facts(stages, now);
    CurrentStageIsRunning(stages, now);
    if FirstLive(stages, now).Some? && !FirstLive(stages, now).value.paused {
      assert Running(FirstLive(stages, now).value, now);
    }
    if CurrentStage(stages, now).Some? {
      assert Running(CurrentStage(stages, now).value, now);
    }
  }

  /** Such a drop: a superseded, paused row listed before the stage that is really open. */
  lemma PausedRowHidesALiveStage(now: int)
    ensures var stages := [StageView([], now - 1, None, true), StageView([], now - 1, None, false)];
            && CurrentStage(stages, now).Some?
            && ComputeLifecycle(stages, now, None, SupplyFacts(None, None, false)) == PAUSED
  {
    var stages := [StageView([], now - 1, None, true), StageView([], now - 1, None, false)];
    CurrentStageIsRunning(stages, now);
    assert Running(stages[1], now) && stages[1] in stages;
  }
}
