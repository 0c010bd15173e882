/** Stage boundaries and the selectors built on them (packages/core/src/stages.ts). Timestamps are
    the milliseconds they parse to; all windows are half-open. */
module Stages {
  import opened StableSort
  import opened Text
  import opened Wrappers

  datatype StageView = StageView(stageLabel: JsString, startsAt: int, endsAt: Option<int>, paused: bool)

  predicate IsStageLive(stage: StageView, now: int) {
    stage.startsAt <= now && !(stage.endsAt.Some? && stage.endsAt.value <= now)
  }

  datatype WindowedStage = WindowedStage(stage: StageView, msUntilStart: int, msUntilEnd: Option<int>)

  function Window(stage: StageView, now: int): WindowedStage {
    WindowedStage(stage, stage.startsAt - now, if stage.endsAt.None? then None else Some(stage.endsAt.value - now))
  }

  function Windows(stages: seq<StageView>, now: int): seq<WindowedStage> {
    if stages == [] then [] else [Window(stages[0], now)] + Windows(stages[1..], now)
  }

  function UntilStart(w: WindowedStage): int { w.msUntilStart }

  function WindowedStages(stages: seq<StageView>, now: int): seq<WindowedStage> {
    SortBy(Windows(stages, now), UntilStart)
  }

  function Find<T>(xs: seq<T>, p: T -> bool): Option<T> {
    if xs == [] then None else if p(xs[0]) then Some(xs[0]) else Find(xs[1..], p)
  }

  function Filter<T>(xs: seq<T>, p: T -> bool): seq<T> {
    if xs == [] then [] else (if p(xs[0]) then [xs[0]] else []) + Filter(xs[1..], p)
  }

  predicate IsCurrent(w: WindowedStage) {
    w.msUntilStart <= 0 && (w.msUntilEnd.None? || w.msUntilEnd.value > 0) && !w.stage.paused
  }

  predicate IsUpcoming(w: WindowedStage) {
    w.msUntilStart > 0 && !w.stage.paused
  }

  function StageOf(w: Option<WindowedStage>): Option<StageView> {
    if w.None? then None else Some(w.value.stage)
  }

  function CurrentStage(stages: seq<StageView>, now: int): Option<StageView> {
    StageOf(Find(WindowedStages(stages, now), IsCurrent))
  }

  function NextStage(stages: seq<StageView>, now: int): Option<StageView> {
    var candidates := Filter(WindowedStages(stages, now), IsUpcoming);
    if candidates == [] then None else Some(candidates[0].stage)
  }

  function RelevantStage(stages: seq<StageView>, now: int): Option<StageView> {
    if CurrentStage(stages, now).Some? then CurrentStage(stages, now) else NextStage(stages, now)
  }

  // ----- Searching a sorted list -----

  lemma {:induction false} FindInAscending<T>(xs: seq<T>, p: T -> bool, key: T -> int)
    requires Ascending(xs, key)
    ensures var found := Find(xs, p);
            && (found.None? <==> forall x :: x in xs ==> !p(x))
            && (found.Some? ==>
                  && found.value in xs && p(found.value)
                  && forall x :: x in xs && p(x) ==> key(found.value) <= key(x))
  {
    if xs != [] && !p(xs[0]) {
      FindInAscending(xs[1..], p, key);
      assert xs == [xs[0]] + xs[1..];
    } else if xs != [] {
      assert xs[0] in xs;
      forall x | x in xs
        ensures key(xs[0]) <= key(x)
      {
        var i :| 0 <= i < |xs| && xs[i] == x;
      }
    }
  }

  lemma {:induction false} FilterStartsWithFind<T>(xs: seq<T>, p: T -> bool)
    ensures Find(xs, p) == if Filter(xs, p) == [] then None else Some(Filter(xs, p)[0])
  {
    if xs != [] {
      FilterStartsWithFind(xs[1..], p);
    }
  }

  lemma {:induction false} WindowsMembers(stages: seq<StageView>, now: int, w: WindowedStage)
    ensures w in Windows(stages, now) <==> w.stage in stages && w == Window(w.stage, now)
  {
    if stages != [] {
      WindowsMembers(stages[1..], now, w);
      assert stages == [stages[0]] + stages[1..];
    }
  }

  lemma SortedWindows(stages: seq<StageView>, now: int)
    ensures Ascending(WindowedStages(stages, now), UntilStart)
    ensures forall w :: w in WindowedStages(stages, now) <==> w.stage in stages && w == Window(w.stage, now)
  {
    SortBySorts(Windows(stages, now), UntilStart);
    forall w
      ensures w in WindowedStages(stages, now) <==> w.stage in stages && w == Window(w.stage, now)
    {
      SortByMembers(Windows(stages, now), UntilStart, w);
      WindowsMembers(stages, now, w);
    }
  }

  predicate Upcoming(stage: StageView, now: int) {
    stage.startsAt > now && !stage.paused
  }

  predicate Running(stage: StageView, now: int) {
    IsStageLive(stage, now) && !stage.paused
  }

  /** The next stage is an unpaused future stage with the least start; there is none exactly when
      no stage qualifies. */
  lemma NextStageIsTheEarliest(stages: seq<StageView>, now: int)
    ensures var next := NextStage(stages, now);
            && (next.None? <==> forall s :: s in stages ==> !Upcoming(s, now))
            && (next.Some? ==>
                  && next.value in stages && Upcoming(next.value, now)
                  && forall s :: s in stages && Upcoming(s, now) ==> next.value.startsAt <= s.startsAt)
  {
    var sorted := WindowedStages(stages, now);
    SortedWindows(stages, now);
    FindInAscending(sorted, IsUpcoming, UntilStart);
    FilterStartsWithFind(sorted, IsUpcoming);
    forall s | s in stages
      ensures Window(s, now) in sorted && (IsUpcoming(Window(s, now)) <==> Upcoming(s, now))
    {
    }
  }

  /** The current stage is an unpaused live stage with the least start; there is none exactly when
      no stage qualifies. */
  lemma CurrentStageIsRunning(stages: seq<StageView>, now: int)
    ensures var current := CurrentStage(stages, now);
            && (current.None? <==> forall s :: s in stages ==> !Running(s, now))
            && (current.Some? ==>
                  && current.value in stages && Running(current.value, now)
                  && forall s :: s in stages && Running(s, now) ==> current.value.startsAt <= s.startsAt)
  {
    var sorted := WindowedStages(stages, now);
    SortedWindows(stages, now);
    FindInAscending(sorted, IsCurrent, UntilStart);
    forall s | s in stages
      ensures Window(s, now) in sorted && (IsCurrent(Window(s, now)) <==> Running(s, now))
    {
    }
  }

  // ----- Ties -----

  /** The first listed unpaused stage with this start. */
  function FirstListed(stages: seq<StageView>, start: int): Option<StageView> {
    if stages == [] then None
    else if stages[0].startsAt == start && !stages[0].paused then Some(stages[0])
    else FirstListed(stages[1..], start)
  }

  lemma {:induction false} FindAmongEqualKeys<T>(xs: seq<T>, p: T -> bool, key: T -> int)
    requires Find(xs, p).Some?
    ensures Find(WithKey(xs, key, key(Find(xs, p).value)), p) == Find(xs, p)
  {
    var k := key(Find(xs, p).value);
    if p(xs[0]) {
      assert WithKey(xs, key, k) == [xs[0]] + WithKey(xs[1..], key, k);
    } else {
      FindAmongEqualKeys(xs[1..], p, key);
      assert key(xs[0]) == k ==> WithKey(xs, key, k)[1..] == WithKey(xs[1..], key, k);
      assert key(xs[0]) != k ==> WithKey(xs, key, k) == WithKey(xs[1..], key, k);
    }
  }

  lemma {:induction false} FirstListedIsFound(stages: seq<StageView>, now: int, start: int)
    requires start > now
    ensures StageOf(Find(WithKey(Windows(stages, now), UntilStart, start - now), IsUpcoming)) ==
            FirstListed(stages, start)
  {
    if stages != [] {
      FirstListedIsFound(stages[1..], now, start);
      var w, rest := Window(stages[0], now), WithKey(Windows(stages[1..], now), UntilStart, start - now);
      assert Windows(stages, now)[1..] == Windows(stages[1..], now);
      if w.msUntilStart == start - now {
        assert WithKey(Windows(stages, now), UntilStart, start - now) == [w] + rest;
        assert ([w] + rest)[1..] == rest;
      } else {
        assert WithKey(Windows(stages, now), UntilStart, start - now) == rest;
      }
    }
  }

  /** Stages that start together are announced in listing order: the label, which the selector's
      comment names as the tie-breaker, plays no part. */
  lemma TiesFollowTheListing(stages: seq<StageView>, now: int)
    requires NextStage(stages, now).Some?
    ensures NextStage(stages, now) == FirstListed(stages, NextStage(stages, now).value.startsAt)
  {
    hide WithKey, SortBy, Windows, FirstListed, Find, Upcoming;
    var sorted := WindowedStages(stages, now);
    var start := NextStage(stages, now).value.startsAt;
    FilterStartsWithFind(sorted, IsUpcoming);
    NextStageIsTheEarliest(stages, now);
    SortedWindows(stages, now);
    FindInAscending(sorted, IsUpcoming, UntilStart);
    FindAmongEqualKeys(sorted, IsUpcoming, UntilStart);
    SortByStable(Windows(stages, now), UntilStart, start - now);
    FirstListedIsFound(stages, now, start);
  }

  /** The first listed unpaused live stage with this start. */
  function FirstRunning(stages: seq<StageView>, start: int, now: int): Option<StageView> {
    if stages == [] then None
    else if stages[0].startsAt == start && Running(stages[0], now) then Some(stages[0])
    else FirstRunning(stages[1..], start, now)
  }

  lemma {:induction false} FirstRunningIsFound(stages: seq<StageView>, now: int, start: int)
    ensures StageOf(Find(WithKey(Windows(stages, now), UntilStart, start - now), IsCurrent)) ==
            FirstRunning(stages, start, now)
  {
    if stages != [] {
      FirstRunningIsFound(stages[1..], now, start);
      var w, rest := Window(stages[0], now), WithKey(Windows(stages[1..], now), UntilStart, start - now);
      assert Windows(stages, now)[1..] == Windows(stages[1..], now);
      if w.msUntilStart == start - now {
        assert WithKey(Windows(stages, now), UntilStart, start - now) == [w] + rest;
        assert ([w] + rest)[1..] == rest;
      } else {
        assert WithKey(Windows(stages, now), UntilStart, start - now) == rest;
      }
    }
  }

  /** The same for the current stage. */
  lemma CurrentTiesFollowTheListing(stages: seq<StageView>, now: int)
    requires CurrentStage(stages, now).Some?
    ensures CurrentStage(stages, now) == FirstRunning(stages, CurrentStage(stages, now).value.startsAt, now)
  {
    hide WithKey, SortBy, Windows, FirstRunning, Find, Running;
    var sorted := WindowedStages(stages, now);
    var start := CurrentStage(stages, now).value.startsAt;
    SortedWindows(stages, now);
    FindInAscending(sorted, IsCurrent, UntilStart);
    FindAmongEqualKeys(sorted, IsCurrent, UntilStart);
    SortByStable(Windows(stages, now), UntilStart, start - now);
    FirstRunningIsFound(stages, now, start);
  }

  /** Lexicographic order of labels, unit by unit. */
  predicate LabelAtMost(a: JsString, b: JsString) {
    a == [] || (b != [] && (a[0] < b[0] || (a[0] == b[0] && LabelAtMost(a[1..], b[1..]))))
  }

  /** The stage a tie-break by label would announce among those that start with it. */
  ghost predicate LeastLabelled(stages: seq<StageView>, stage: StageView) {
    forall s :: s in stages && s.startsAt == stage.startsAt && !s.paused ==> LabelAtMost(stage.stageLabel, s.stageLabel)
  }

  /** The documented tie-break is kept exactly when the listing already puts the least label first
      among the stages that start next. */
  lemma LabelBreaksTiesIff(stages: seq<StageView>, now: int, start: int)
    requires exists s :: s in stages && Upcoming(s, now) && s.startsAt == start
    requires forall s :: s in stages && Upcoming(s, now) ==> start <= s.startsAt
    ensures NextStage(stages, now).Some? && FirstListed(stages, start).Some?
    ensures LeastLabelled(stages, NextStage(stages, now).value) <==>
            LeastLabelled(stages, FirstListed(stages, start).value)
  {
    NextStageIsTheEarliest(stages, now);
    TiesFollowTheListing(stages, now);
  }

  /** A listing for which it is not kept: of stages "b" and "a" that start together, "b" is announced. */
  lemma LabelDoesNotBreakATie(now: int)
    ensures var b, a := StageView(Lit("b"), now + 1, None, false), StageView(Lit("a"), now + 1, None, false);
            && NextStage([b, a], now) == Some(b)
            && !LabelAtMost(b.stageLabel, a.stageLabel)
  {
    var b, a := StageView(Lit("b"), now + 1, None, false), StageView(Lit("a"), now + 1, None, false);
    assert b in [b, a] && Upcoming(b, now);
    NextStageIsTheEarliest([b, a], now);
    TiesFollowTheListing([b, a], now);
  }
}
