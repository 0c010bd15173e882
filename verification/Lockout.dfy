/** The sign-in lockout state machine (packages/auth/src/lockout.ts) and the amortised bound on how
    many failures it records. What that means for the passwords tried is in `SignIns`. */
module Lockout {
  import opened Arithmetic

  const LOCKOUT_THRESHOLD := 5
  const LOCKOUT_DURATIONS_MS: seq<int> := [60_000, 300_000, 900_000, 3_600_000]
  const LOCKOUT_DECAY_MS := 3_600_000

  datatype LockoutState = LockoutState(failures: int, level: int, lockedUntil: int, lastFailureAt: int)

  const INITIAL := LockoutState(0, 0, 0, 0)

  predicate IsLocked(state: LockoutState, now: int) {
    now < state.lockedUntil
  }

  function LockDurationForLevel(level: int): int {
    LOCKOUT_DURATIONS_MS[Min(Max(level, 1), |LOCKOUT_DURATIONS_MS|) - 1]
  }

  function RecordFailure(state: LockoutState, now: int): LockoutState {
    if IsLocked(state, now) then state
    else
      var decay := state.lastFailureAt != 0 && now - state.lastFailureAt > LOCKOUT_DECAY_MS;
      var failures := (if decay then 0 else state.failures) + 1;
      var level := if decay then 0 else state.level;
      if failures >= LOCKOUT_THRESHOLD then
        LockoutState(0, level + 1, now + LockDurationForLevel(level + 1), now)
      else
        LockoutState(failures, level, 0, now)
  }

  /** What every recorded state satisfies: it remembers a failure, has fewer than the threshold
      pending, and is locked exactly from the failure that completed a streak. */
  ghost predicate Recorded(s: LockoutState) {
    && s.lastFailureAt > 0
    && 0 <= s.failures < LOCKOUT_THRESHOLD
    && 0 <= s.level
    && (s.failures == 0 ==>
      s.level >= 1 && s.lockedUntil == s.lastFailureAt + LockDurationForLevel(s.level))
    && (s.failures > 0 ==> s.lockedUntil == 0)
  }

  ghost predicate Valid(s: LockoutState) {
    s == INITIAL || Recorded(s)
  }

  lemma RecordFailureKeepsValid(s: LockoutState, now: int)
    requires Valid(s) && s.lastFailureAt <= now && now > 0
    ensures Recorded(RecordFailure(s, now))
    ensures !IsLocked(s, now) ==> RecordFailure(s, now).lastFailureAt == now
    ensures RecordFailure(s, now).lastFailureAt <= now
  {
  }

  // ----- The state as a function of the history -----

  /** The state after failed attempts at `times`, none of them a success. */
  function RunFailures(times: seq<int>): LockoutState
    decreases |times|
  {
    if times == [] then INITIAL else RecordFailure(RunFailures(times[..|times| - 1]), times[|times| - 1])
  }

  /** The failures that found the identifier unlocked, and so were recorded. */
  function Tried(times: seq<int>): seq<int>
    decreases |times|
  {
    if times == [] then []
    else
      var front, last := times[..|times| - 1], times[|times| - 1];
      Tried(front) + if IsLocked(RunFailures(front), last) then [] else [last]
  }

  /** How many of the last tries have no idle gap of more than an hour between them. */
  function StreakLength(tries: seq<int>): (n: nat)
    ensures n <= |tries| && (tries != [] ==> n >= 1)
    decreases |tries|
  {
    var n := |tries|;
    if n == 0 then 0
    else if n == 1 || tries[n - 1] - tries[n - 2] > LOCKOUT_DECAY_MS then 1
    else StreakLength(tries[..n - 1]) + 1
  }

  /** Every fifth try of a streak locks, the k-th time for the k-th duration of the ladder. */
  function ByHistory(tries: seq<int>): LockoutState {
    if tries == [] then INITIAL
    else
      var n, last := StreakLength(tries), tries[|tries| - 1];
      LockoutState(n % LOCKOUT_THRESHOLD, n / LOCKOUT_THRESHOLD,
                   if n % LOCKOUT_THRESHOLD == 0 then last + LockDurationForLevel(n / LOCKOUT_THRESHOLD) else 0, last)
  }

  lemma NextTry(tries: seq<int>, now: int)
    requires now > 0 && (tries != [] ==> 0 < tries[|tries| - 1] <= now)
    requires !IsLocked(ByHistory(tries), now)
    ensures RecordFailure(ByHistory(tries), now) == ByHistory(tries + [now])
  {
  }

  /** However the attempts fall, locked or not, the state is the one the history of recorded failures
      calls for: attempts during a lock leave no trace. */
  lemma {:induction false} StateIsItsHistory(times: seq<int>)
    requires Clock(times, 0)
    ensures RunFailures(times) == ByHistory(Tried(times))
    ensures Tried(times) != [] ==> 0 < Tried(times)[|Tried(times)| - 1] <= times[|times| - 1]
    decreases |times|
  {
    if times != [] {
      var front, last := times[..|times| - 1], times[|times| - 1];
      StateIsItsHistory(front);
      if !IsLocked(RunFailures(front), last) {
        NextTry(Tried(front), last);
      } else {
        assert Tried(times) == Tried(front);
      }
    }
  }

  /** Every fifth recorded failure of a streak locks, for one minute, then five, then fifteen, and from
      then on for an hour; in between nothing is locked. */
  lemma EveryFifthFailureLocks(times: seq<int>)
    requires Clock(times, 0) && Tried(times) != []
    ensures var tries := Tried(times);
            var streak, last := StreakLength(tries), tries[|tries| - 1];
            RunFailures(times).lockedUntil ==
            if streak % 5 != 0 then 0
            else last + if streak == 5 then 60_000 else if streak == 10 then 300_000
                        else if streak == 15 then 900_000 else 3_600_000
  {
    StateIsItsHistory(times);
  }

  // ----- Runs without a success -----

  ghost predicate Clock(times: seq<int>, since: int) {
    && (forall i :: 0 <= i < |times| ==> since <= times[i] && 0 < times[i])
    && (forall i, j :: 0 <= i < j < |times| ==> times[i] <= times[j])
  }

  /** The instants, among failed attempts at `times`, of those that found the identifier unlocked:
      the recorded failures. */
  function Counted(s: LockoutState, times: seq<int>): seq<int>
    decreases |times|
  {
    if times == [] then []
    else
      (if IsLocked(s, times[0]) then [] else [times[0]]) +
      Counted(RecordFailure(s, times[0]), times[1..])
  }

  /** Recorded failures, priced at 243,000 ms each (81 minutes / 20), that a recorded state may be ahead of
      the clock. Each lock pays back its own duration; the worst state is the one that has just
      opened the fourth lock. */
  ghost function Potential(s: LockoutState): int {
    243_000 * s.failures +
    (if s.level == 0 then 0
     else if s.level == 1 then (if s.failures == 0 then 1_215_000 else 1_155_000)
     else if s.level == 2 then (if s.failures == 0 then 2_370_000 else 2_070_000)
     else if s.level == 3 then (if s.failures == 0 then 3_285_000 else 2_385_000)
     else if s.level == 4 && s.failures == 0 then 3_600_000
     else if s.failures == 0 then 1_215_000
     else 0)
  }

  lemma PotentialRange(s: LockoutState)
    requires Recorded(s)
    ensures 243_000 <= Potential(s) <= 3_600_000
  {
  }

  /** One recorded failure costs its price, less the time that passed since the one before. */
  lemma CountedStepPays(s: LockoutState, now: int)
    requires Recorded(s) && s.lastFailureAt <= now && !IsLocked(s, now)
    ensures Potential(s) + 243_000 - (now - s.lastFailureAt) <= Potential(RecordFailure(s, now))
  {
  }

  lemma {:induction false} AmortisedFrom(s: LockoutState, times: seq<int>, n: nat, first: int)
    requires Recorded(s) && Clock(times, s.lastFailureAt)
    requires 243_000 * n <= s.lastFailureAt - first + Potential(s)
    ensures var c := Counted(s, times);
            243_000 * (n + |c|) <= (if c == [] then s.lastFailureAt else c[|c| - 1]) - first + 3_600_000
    decreases |times|
  {
    PotentialRange(s);
    if times != [] {
      var now := times[0];
      var s' := RecordFailure(s, now);
      RecordFailureKeepsValid(s, now);
      if IsLocked(s, now) {
        AmortisedFrom(s, times[1..], n, first);
      } else {
        CountedStepPays(s, now);
        AmortisedFrom(s', times[1..], n + 1, first);
        assert Counted(s, times) == [now] + Counted(s', times[1..]);
      }
    }
  }

  /** Twenty recorded failures per 81 minutes, whatever the timing: in every stretch without a success,
      from any valid state (so in every window of a run), n recorded failures, spread over T ms,
      satisfy 4,860,000 n <= 20 T + 72,000,000. */
  lemma {:induction false} AmortisedLockoutBound(s: LockoutState, times: seq<int>)
    requires Valid(s) && Clock(times, s.lastFailureAt)
    ensures var c := Counted(s, times);
            c != [] ==> 4_860_000 * |c| <= 20 * (c[|c| - 1] - c[0]) + 72_000_000
    decreases |times|
  {
    if times != [] {
      var now := times[0];
      var s' := RecordFailure(s, now);
      RecordFailureKeepsValid(s, now);
      assert IsLocked(s, now) ==> s' == s;
      hide RecordFailure, Recorded, Potential;
      if IsLocked(s, now) {
        AmortisedLockoutBound(s, times[1..]);
      } else {
        PotentialRange(s');
        AmortisedFrom(s', times[1..], 1, now);
        assert Counted(s, times) == [now] + Counted(s', times[1..]);
      }
    }
  }

  // ----- The bound is attained -----

  /** The instant of failure number i when each comes as early as the locks allow. */
  function Greedy(t: int, i: nat): int {
    if i < 5 then t else if i < 10 then t + 60_000 else if i < 15 then t + 360_000 else t + 1_260_000
  }

  ghost function AfterGreedy(t: int, i: nat): LockoutState {
    if i == 0 then INITIAL
    else LockoutState(i % 5, i / 5,
                      if i % 5 == 0 then Greedy(t, i - 1) + LockDurationForLevel(i / 5) else 0,
                      Greedy(t, i - 1))
  }

  lemma {:induction false} GreedyAllCounted(t: int, times: seq<int>, i: nat)
    requires t > 0 && i <= |times| <= 20
    requires forall k :: 0 <= k < |times| ==> times[k] == Greedy(t, k)
    ensures Counted(AfterGreedy(t, i), times[i..]) == times[i..]
    decreases |times| - i
  {
    if i < |times| {
      GreedyAllCounted(t, times, i + 1);
      assert times[i] == Greedy(t, i);
      assert RecordFailure(AfterGreedy(t, i), times[i]) == AfterGreedy(t, i + 1);
      assert times[i..][1..] == times[i + 1..];
      assert times[i..] == [times[i]] + times[i + 1..];
    }
  }

  /** Twenty recorded failures in 21 minutes meet the bound with equality, so no smaller constant would do. */
  lemma BoundIsTight(t: int) returns (times: seq<int>)
    requires t > 0
    ensures Clock(times, 0) && Counted(INITIAL, times) == times
    ensures |times| == 20 && 4_860_000 * |times| == 20 * (times[19] - times[0]) + 72_000_000
  {
    times := seq(20, i requires 0 <= i => Greedy(t, i));
    GreedyAllCounted(t, times, 0);
    assert times[0..] == times;
  }
}
