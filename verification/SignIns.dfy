/** Guesses at a password, request by request (packages/auth/src/auth.ts): a password is tried after
    the before hook of its request finds the identifier unlocked, and recorded only by the after hook.
    Requests overlap, so a guess can reach its after hook during a lock that others opened. */
module SignIns {
  import opened Arithmetic
  import opened Lockout
  import opened Wrappers
  import LockoutStore

  /** The two hooks of a sign-in request. A request rejected by its before hook has no after hook. */
  datatype Hook =
    | Arrive(id: nat, key: string, now: int)
    | Leave(id: nat, key: string, newSession: bool, now: int)

  /** One identifier: its lockout entry, the guesses let through and not yet answered, and which of
      these were open when a lock was opened. What is counted: guesses let through; failures recorded,
      with their instants; failures that found a lock and left no trace; successes; locks opened. */
  datatype Gate = Gate(entry: LockoutState, open: set<nat>, caught: set<nat>, passed: nat, counted: seq<int>,
                       missed: nat, succeeded: nat, locks: nat)

  const START := Gate(INITIAL, {}, {}, 0, [], 0, 0, 0)

  /** This failure completes a streak. */
  predicate Opens(entry: LockoutState, now: int) {
    !IsLocked(entry, now) && IsLocked(RecordFailure(entry, now), now)
  }

  function Fail(g: Gate, id: nat, now: int): Gate {
    var open := g.open - {id};
    if IsLocked(g.entry, now) then g.(open := open, caught := g.caught - {id}, missed := g.missed + 1)
    else
      g.(entry := RecordFailure(g.entry, now), open := open, counted := g.counted + [now],
         caught := if Opens(g.entry, now) then open else g.caught - {id},
         locks := g.locks + if Opens(g.entry, now) then 1 else 0)
  }

  function Step(key: string, g: Gate, h: Hook): Gate {
    if h.key != key then g
    else
      match h
      case Arrive(id, _, now) =>
        if IsLocked(g.entry, now) then g else g.(open := g.open + {id}, passed := g.passed + 1)
      case Leave(id, _, newSession, now) =>
        if newSession then
          g.(entry := INITIAL, open := g.open - {id}, caught := g.caught - {id}, succeeded := g.succeeded + 1)
        else Fail(g, id, now)
  }

  predicate Succeeds(key: string, h: Hook) { h.key == key && h.Leave? && h.newSession }

  predicate Fails(key: string, h: Hook) { h.key == key && h.Leave? && !h.newSession }

  /** Each request of the key arrives once and leaves only if it was let through. */
  predicate Possible(key: string, g: Gate, hooks: seq<Hook>)
    decreases |hooks|
  {
    hooks != [] ==>
      && (hooks[0].key == key ==> (hooks[0].Arrive? <==> hooks[0].id !in g.open))
      && Possible(key, Step(key, g, hooks[0]), hooks[1..])
  }

  function Run(key: string, g: Gate, hooks: seq<Hook>): Gate
    decreases |hooks|
  {
    if hooks == [] then g else Run(key, Step(key, g, hooks[0]), hooks[1..])
  }

  ghost predicate Clocked(hooks: seq<Hook>, since: int) {
    && (forall i :: 0 <= i < |hooks| ==> since <= hooks[i].now && 0 < hooks[i].now)
    && (forall i, j :: 0 <= i < j < |hooks| ==> hooks[i].now <= hooks[j].now)
  }

  // ----- The gate is what the pruning store does to one key -----

  function EventOf(h: Hook): LockoutStore.Event {
    match h
    case Arrive(_, key, now) => LockoutStore.Before(Some(key), now)
    case Leave(_, key, newSession, now) => LockoutStore.After(Some(key), newSession, now)
  }

  function EventsOf(hooks: seq<Hook>): (events: seq<LockoutStore.Event>)
    ensures |events| == |hooks| && forall i :: 0 <= i < |hooks| ==> events[i] == EventOf(hooks[i])
  {
    if hooks == [] then [] else [EventOf(hooks[0])] + EventsOf(hooks[1..])
  }

  lemma {:induction false} FollowsFullStore(key: string, g: Gate, store: LockoutStore.Entries, hooks: seq<Hook>, n: nat)
    requires g.entry == LockoutStore.Lookup(store, key) && Possible(key, g, hooks)
    requires n < |hooks| && hooks[n].Arrive? && hooks[n].key == key
    ensures |LockoutStore.Trace(store, EventsOf(hooks), false)| == |hooks|
    ensures LockoutStore.Trace(store, EventsOf(hooks), false)[n] ==
            LockoutStore.Decision(IsLocked(Run(key, g, hooks[..n]).entry, hooks[n].now))
    decreases |hooks|
  {
    var events := EventsOf(hooks);
    assert events[1..] == EventsOf(hooks[1..]);
    TraceLength(store, events);
    if n > 0 {
      var g', store' := Step(key, g, hooks[0]), LockoutStore.Step(store, events[0], false);
      assert g'.entry == LockoutStore.Lookup(store', key);
      FollowsFullStore(key, g', store', hooks[1..], n - 1);
      assert hooks[..n][1..] == hooks[1..][..n - 1];
    }
  }

  lemma {:induction false} TraceLength(store: LockoutStore.Entries, events: seq<LockoutStore.Event>)
    ensures |LockoutStore.Trace(store, events, false)| == |events|
    decreases |events|
  {
    if events != [] {
      TraceLength(LockoutStore.Step(store, events[0], false), events[1..]);
    }
  }

  /** Whatever happens to other identifiers and whatever is pruned, a request of this one is rejected
      exactly when the gate, which sees its own hooks alone, is locked. */
  lemma DecidedByItsGate(key: string, hooks: seq<Hook>, n: nat)
    requires Clocked(hooks, 0) && Possible(key, START, hooks)
    requires n < |hooks| && hooks[n].Arrive? && hooks[n].key == key
    ensures var trace := LockoutStore.Trace(map[], EventsOf(hooks), true);
            && |trace| == |hooks|
            && trace[n] == LockoutStore.Decision(IsLocked(Run(key, START, hooks[..n]).entry, hooks[n].now))
  {
    LockoutStore.PruningIsInvisible(EventsOf(hooks));
    FollowsFullStore(key, START, map[], hooks, n);
  }

  // ----- Which guesses leave no trace -----

  /** Between its own hooks i and j, a failure opens a lock that lasts until hook j, with no success to
      clear it. */
  ghost predicate Overtaken(key: string, g: Gate, hooks: seq<Hook>, i: nat, j: nat)
    requires j < |hooks|
  {
    exists m :: i < m < j && OpensUntil(key, g, hooks, m, j)
  }

  ghost predicate OpensUntil(key: string, g: Gate, hooks: seq<Hook>, m: nat, j: nat)
    requires m < j < |hooks|
  {
    var entry := Run(key, g, hooks[..m]).entry;
    && Fails(key, hooks[m])
    && Opens(entry, hooks[m].now)
    && hooks[j].now < RecordFailure(entry, hooks[m].now).lockedUntil
    && forall x :: m < x < j ==> !Succeeds(key, hooks[x])
  }

  lemma {:induction false} RunSnoc(key: string, g: Gate, hooks: seq<Hook>)
    requires hooks != []
    ensures Run(key, g, hooks) == Step(key, Run(key, g, hooks[..|hooks| - 1]), hooks[|hooks| - 1])
    decreases |hooks|
  {
    if |hooks| > 1 {
      RunSnoc(key, Step(key, g, hooks[0]), hooks[1..]);
      assert hooks[..|hooks| - 1][1..] == hooks[1..][..|hooks| - 2];
    } else {
      assert hooks[1..] == [] && hooks[..0] == [];
    }
  }

  lemma NextEntry(key: string, g: Gate, hooks: seq<Hook>, n: nat)
    requires n < |hooks|
    ensures Run(key, g, hooks[..n + 1]) == Step(key, Run(key, g, hooks[..n]), hooks[n])
  {
    RunSnoc(key, g, hooks[..n + 1]);
    assert hooks[..n + 1][..n] == hooks[..n];
  }

  /** A lock that stands at hook j, and did not at hook i, was opened in between. */
  lemma {:induction false} LockHasAnOpening(key: string, g: Gate, hooks: seq<Hook>, i: nat, x: nat, j: nat)
    requires i <= x <= j < |hooks| && Clocked(hooks, 0)
    requires !IsLocked(Run(key, g, hooks[..i]).entry, hooks[i].now)
    requires IsLocked(Run(key, g, hooks[..x]).entry, hooks[j].now)
    requires forall y :: x <= y < j ==> !Succeeds(key, hooks[y])
    ensures exists m :: i <= m < x && OpensUntil(key, g, hooks, m, j)
    decreases x
  {
    if x == i {
      assert false;
    } else {
      NextEntry(key, g, hooks, x - 1);
      var before := Run(key, g, hooks[..x - 1]);
      if IsLocked(before.entry, hooks[j].now) && !Succeeds(key, hooks[x - 1]) {
        LockHasAnOpening(key, g, hooks, i, x - 1, j);
      } else {
        assert OpensUntil(key, g, hooks, x - 1, j);
      }
    }
  }

  /** ... and a lock opened in between stands as long as nothing clears it. */
  lemma {:induction false} LockStands(key: string, g: Gate, hooks: seq<Hook>, m: nat, x: nat, j: nat)
    requires m < x <= j < |hooks| && Clocked(hooks, 0) && OpensUntil(key, g, hooks, m, j)
    ensures Run(key, g, hooks[..x]).entry == RecordFailure(Run(key, g, hooks[..m]).entry, hooks[m].now)
    decreases x
  {
    NextEntry(key, g, hooks, x - 1);
    if x - 1 > m {
      LockStands(key, g, hooks, m, x - 1, j);
    }
  }

  /** Exactly when a failed guess goes unrecorded: another request's failure opens a lock between its
      hooks, and the lock still stands at its after hook. */
  lemma UncountedIffOvertaken(key: string, g: Gate, hooks: seq<Hook>, i: nat, j: nat)
    requires Clocked(hooks, 0) && i < j < |hooks|
    requires hooks[i].Arrive? && hooks[i].key == key && !IsLocked(Run(key, g, hooks[..i]).entry, hooks[i].now)
    requires hooks[j] == Leave(hooks[i].id, key, false, hooks[j].now)
    ensures var before, after := Run(key, g, hooks[..j]), Run(key, g, hooks[..j + 1]);
            && (after.missed == before.missed + 1 <==> Overtaken(key, g, hooks, i, j))
            && (after.counted == before.counted + [hooks[j].now] <==> !Overtaken(key, g, hooks, i, j))
  {
    NextEntry(key, g, hooks, j);
    if IsLocked(Run(key, g, hooks[..j]).entry, hooks[j].now) {
      LockHasAnOpening(key, g, hooks, i, j, j);
      var m :| i <= m < j && OpensUntil(key, g, hooks, m, j);
    } else if Overtaken(key, g, hooks, i, j) {
      var m :| i < m < j && OpensUntil(key, g, hooks, m, j);
      LockStands(key, g, hooks, m, j, j);
    }
  }

  // ----- How many there can be -----

  /** At most c guesses are ever open at once. */
  predicate AtMost(c: nat, key: string, g: Gate, hooks: seq<Hook>)
    decreases |hooks|
  {
    |g.open| <= c && (hooks != [] ==> AtMost(c, key, Step(key, g, hooks[0]), hooks[1..]))
  }

  /** No guess is lost between the counters, and the ones a standing lock did not catch came after it. */
  ghost predicate Inv(g: Gate, now: int) {
    && Valid(g.entry) && g.entry.lastFailureAt <= now
    && g.caught <= g.open
    && (IsLocked(g.entry, now) ==> g.caught == g.open)
    && g.passed == |g.open| + |g.counted| + g.missed + g.succeeded
  }

  lemma StepKeepsInv(key: string, g: Gate, h: Hook, since: int)
    requires Inv(g, since) && since <= h.now && h.now > 0 && Possible(key, g, [h])
    ensures Inv(Step(key, g, h), h.now)
  {
    RecordFailureKeepsValid(g.entry, h.now);
  }

  lemma CaughtAtMost(c: nat, key: string, g: Gate, h: Hook)
    requires Possible(key, g, [h]) && |g.open| <= c && g.caught <= g.open
    ensures |g.caught| < c ==> |Step(key, g, h).caught| < c
    ensures h.key == key && h.Leave? && !h.newSession && Opens(g.entry, h.now) ==> |Step(key, g, h).caught| <= c - 1
  {
    hide RecordFailure, IsLocked;
    if h.key == key && h.Leave? {
      assert |g.open - {h.id}| == |g.open| - 1;
      assert |g.caught - {h.id}| <= |g.caught|;
    }
  }

  /** Every lock excuses at most the guesses that were open besides the one that opened it. */
  lemma StepCharges(c: nat, key: string, g: Gate, h: Hook, since: int)
    requires c >= 1 && Inv(g, since) && since <= h.now && Possible(key, g, [h]) && |g.open| <= c
    ensures var g' := Step(key, g, h);
            g'.missed + |g'.caught| - (c - 1) * g'.locks <= g.missed + |g.caught| - (c - 1) * g.locks
  {
    CaughtAtMost(c, key, g, h);
    assert IsLocked(g.entry, h.now) ==> g.caught == g.open;
    hide RecordFailure, Opens, Valid;
    if h.key == key && h.Leave? {
      if h.id in g.caught {
        assert |g.caught - {h.id}| == |g.caught| - 1;
      }
      Distribute(c - 1, g.locks + 1, g.locks);
    }
  }

  lemma StepLocks(key: string, g: Gate, h: Hook)
    requires Valid(g.entry)
    ensures 5 * Step(key, g, h).locks + Step(key, g, h).entry.failures - |Step(key, g, h).counted| <=
            5 * g.locks + g.entry.failures - |g.counted|
  {
  }

  lemma {:induction false} RunCharges(c: nat, key: string, g: Gate, hooks: seq<Hook>, since: int)
    requires c >= 1 && Inv(g, since) && Clocked(hooks, since) && Possible(key, g, hooks) && AtMost(c, key, g, hooks)
    ensures var g' := Run(key, g, hooks);
            && Inv(g', if hooks == [] then since else hooks[|hooks| - 1].now)
            && |g'.open| <= c && (|g.caught| < c ==> |g'.caught| < c)
            && g'.missed + |g'.caught| - (c - 1) * g'.locks <= g.missed + |g.caught| - (c - 1) * g.locks
            && 5 * g'.locks + g'.entry.failures - |g'.counted| <= 5 * g.locks + g.entry.failures - |g.counted|
    decreases |hooks|
  {
    if hooks != [] {
      var h := hooks[0];
      assert Possible(key, g, [h]);
      StepKeepsInv(key, g, h, since);
      StepCharges(c, key, g, h, since);
      CaughtAtMost(c, key, g, h);
      StepLocks(key, g, h);
      hide Step, Inv;
      RunCharges(c, key, Step(key, g, h), hooks[1..], h.now);
    }
  }

  /** The instants of the key's failures, in order. */
  function Failures(key: string, hooks: seq<Hook>): seq<int>
    decreases |hooks|
  {
    if hooks == [] then []
    else
      (if Fails(key, hooks[0]) then [hooks[0].now] else []) +
      Failures(key, hooks[1..])
  }

  predicate NoSuccess(key: string, hooks: seq<Hook>) {
    forall h :: h in hooks ==> !Succeeds(key, h)
  }

  lemma CountedStep(key: string, g: Gate, h: Hook, rest: seq<int>)
    requires !Succeeds(key, h)
    ensures var g' := Step(key, g, h);
            var times := Failures(key, [h]) + rest;
            g'.counted + Counted(g'.entry, rest) == g.counted + Counted(g.entry, times)
  {
    if h.key == key && h.Leave? {
      assert Failures(key, [h]) == [h.now] && ([h.now] + rest)[1..] == rest;
    } else {
      assert Failures(key, [h]) + rest == rest;
    }
  }

  lemma {:induction false} CountedAreTheRecorded(key: string, g: Gate, hooks: seq<Hook>)
    requires NoSuccess(key, hooks)
    ensures Run(key, g, hooks).counted == g.counted + Counted(g.entry, Failures(key, hooks))
    decreases |hooks|
  {
    if hooks != [] {
      hide Step, Counted;
      assert hooks[0] in hooks;
      CountedAreTheRecorded(key, Step(key, g, hooks[0]), hooks[1..]);
      CountedStep(key, g, hooks[0], Failures(key, hooks[1..]));
    } else {
      assert Counted(g.entry, []) == [];
    }
  }

  lemma {:induction false} FailuresAreClocked(key: string, hooks: seq<Hook>, since: int)
    requires Clocked(hooks, since)
    ensures Clock(Failures(key, hooks), since)
    ensures forall t :: t in Failures(key, hooks) ==> hooks != [] && hooks[0].now <= t <= hooks[|hooks| - 1].now
    decreases |hooks|
  {
    if hooks != [] {
      FailuresAreClocked(key, hooks[1..], hooks[0].now);
    }
  }

  lemma {:induction false} CountedAreAmong(s: LockoutState, times: seq<int>)
    ensures forall t :: t in Counted(s, times) ==> t in times
    decreases |times|
  {
    if times != [] {
      CountedAreAmong(RecordFailure(s, times[0]), times[1..]);
    }
  }

  /** A state that guesses on this key can lead to, with at most c of them open at once. */
  ghost predicate Reached(c: nat, g: Gate, now: int) {
    Inv(g, now) && |g.open| <= c && |g.caught| < c
  }

  lemma RunsReach(c: nat, key: string, hooks: seq<Hook>)
    requires c >= 1 && Clocked(hooks, 0) && Possible(key, START, hooks) && AtMost(c, key, START, hooks) && hooks != []
    ensures Reached(c, Run(key, START, hooks), hooks[|hooks| - 1].now)
  {
    RunCharges(c, key, START, hooks, 0);
  }

  lemma RecordedAreFew(key: string, g: Gate, hooks: seq<Hook>, since: int)
    requires Inv(g, since) && hooks != [] && Clocked(hooks, since) && NoSuccess(key, hooks)
    ensures 4_860_000 * (|Run(key, g, hooks).counted| - |g.counted|) <=
            20 * (hooks[|hooks| - 1].now - hooks[0].now) + 72_000_000
  {
    hide Counted, Failures, Run;
    CountedAreTheRecorded(key, g, hooks);
    var times := Failures(key, hooks);
    FailuresAreClocked(key, hooks, since);
    CountedAreAmong(g.entry, times);
    AmortisedLockoutBound(g.entry, times);
    var recorded := Counted(g.entry, times);
    if recorded != [] {
      assert recorded[0] in times && recorded[|recorded| - 1] in times;
    }
  }

  /** In every stretch without a success, with at most c guesses open at once: the failures recorded
      obey the amortised bound; those that are not number at most c - 1 a lock, and c - 1 more left over
      from before; and every fifth recorded failure opens at most one lock. */
  lemma UncountedGuessesAreFew(c: nat, key: string, g: Gate, hooks: seq<Hook>, since: int)
    requires c >= 1 && Reached(c, g, since) && hooks != [] && Clocked(hooks, since)
    requires Possible(key, g, hooks) && AtMost(c, key, g, hooks) && NoSuccess(key, hooks)
    ensures var g' := Run(key, g, hooks);
            var recorded, locks := |g'.counted| - |g.counted|, g'.locks - g.locks;
            && 4_860_000 * recorded <= 20 * (hooks[|hooks| - 1].now - hooks[0].now) + 72_000_000
            && g'.missed - g.missed <= (c - 1) * locks + |g.caught|
            && 5 * locks <= recorded + 4
            && g'.succeeded == g.succeeded && |g'.open| <= c
            && g'.passed - g.passed == recorded + (g'.missed - g.missed) + (|g'.open| - |g.open|)
  {
    hide AtMost, Possible, Run, Clocked, NoSuccess;
    RunCharges(c, key, g, hooks, since);
    NoneSucceed(key, g, hooks);
    RecordedAreFew(key, g, hooks, since);
    Distribute(c - 1, Run(key, g, hooks).locks, g.locks);
  }

  lemma {:induction false} NoneSucceed(key: string, g: Gate, hooks: seq<Hook>)
    requires NoSuccess(key, hooks)
    ensures Run(key, g, hooks).succeeded == g.succeeded
    decreases |hooks|
  {
    if hooks != [] {
      assert hooks[0] in hooks;
      NoneSucceed(key, Step(key, g, hooks[0]), hooks[1..]);
    }
  }

  /** The bound for guesses: n failed ones, spread over T ms with at most c open at once. When requests
      do not overlap (c = 1), it is that of the recorded failures, and every failure is recorded. */
  lemma AmortisedGuessBound(c: nat, key: string, g: Gate, hooks: seq<Hook>, since: int)
    requires c >= 1 && Reached(c, g, since) && hooks != [] && Clocked(hooks, since)
    requires Possible(key, g, hooks) && AtMost(c, key, g, hooks) && NoSuccess(key, hooks)
    ensures var g' := Run(key, g, hooks);
            var n := |g'.counted| - |g.counted| + g'.missed - g.missed;
            var spread := hooks[|hooks| - 1].now - hooks[0].now;
            && 24_300_000 * n <= (c + 4) * (20 * spread + 72_000_000) + (c - 1) * 43_740_000
            && (c == 1 ==> g'.missed == g.missed && 4_860_000 * n <= 20 * spread + 72_000_000)
  {
    hide AtMost, Possible, Run, Clocked, NoSuccess;
    UncountedGuessesAreFew(c, key, g, hooks, since);
    MissedGrows(key, g, hooks);
    var g' := Run(key, g, hooks);
    assert |g.caught| <= c - 1;
    var recorded, locks, missed := |g'.counted| - |g.counted|, g'.locks - g.locks, g'.missed - g.missed;
    var budget := 20 * (hooks[|hooks| - 1].now - hooks[0].now) + 72_000_000;
    Combine(c, recorded, locks, missed, budget);
  }

  lemma {:induction false} MissedGrows(key: string, g: Gate, hooks: seq<Hook>)
    ensures Run(key, g, hooks).missed >= g.missed
    decreases |hooks|
  {
    if hooks != [] {
      MissedGrows(key, Step(key, g, hooks[0]), hooks[1..]);
    }
  }

  lemma Distribute(a: int, x: int, y: int)
    ensures a * x - a * y == a * (x - y)
  {
  }

  lemma Scale(a: nat, x: int, y: int)
    requires x <= y
    ensures a * x <= a * y
  {
  }

  lemma Combine(c: nat, recorded: int, locks: int, missed: int, budget: int)
    requires c >= 1 && missed <= (c - 1) * locks + (c - 1) && 5 * locks <= recorded + 4
    requires 4_860_000 * recorded <= budget
    ensures 24_300_000 * (recorded + missed) <= (c + 4) * budget + (c - 1) * 43_740_000
  {
    Scale(c - 1, 5 * locks, recorded + 4);
    assert (c - 1) * (5 * locks) == 5 * ((c - 1) * locks);
    assert (c - 1) * (recorded + 4) == (c - 1) * recorded + 4 * (c - 1);
    Scale(c + 4, 4_860_000 * recorded, budget);
    assert (c + 4) * (4_860_000 * recorded) == 4_860_000 * ((c - 1) * recorded + 5 * recorded);
  }

  // ----- Guesses all at once -----

  /** Requests a to n - 1 arrive at one instant; then requests l to n - 1 fail at that instant. */
  function Rush(key: string, a: nat, l: nat, n: nat, t: int): (hooks: seq<Hook>)
    requires a <= n && l <= n
    ensures |hooks| == n - a + n - l
    ensures forall i :: 0 <= i < n - a ==> hooks[i] == Arrive(a + i, key, t)
    ensures forall i :: n - a <= i < |hooks| ==> hooks[i] == Leave(l + i - (n - a), key, false, t)
    decreases n - a + n - l
  {
    if a < n then [Arrive(a, key, t)] + Rush(key, a + 1, l, n, t)
    else if l < n then [Leave(l, key, false, t)] + Rush(key, a, l + 1, n, t)
    else []
  }

  /** How many of k failures at one instant find a lock. */
  function FindLocked(entry: LockoutState, k: int, t: int): int {
    if IsLocked(entry, t) then k else Max(k - (LOCKOUT_THRESHOLD - entry.failures), 0)
  }

  function NewLocks(entry: LockoutState, k: int, t: int): int {
    if !IsLocked(entry, t) && k >= LOCKOUT_THRESHOLD - entry.failures then 1 else 0
  }

  function Ids(l: nat, a: nat): (ids: set<nat>)
    requires l <= a
    ensures |ids| == a - l && forall i :: i in ids <==> l <= i < a
    decreases a - l
  {
    if l == a then {} else {l} + Ids(l + 1, a)
  }

  ghost predicate Fresh(entry: LockoutState, t: int) {
    Valid(entry) && t > 0 && (entry == INITIAL || entry.lastFailureAt <= t <= entry.lastFailureAt + LOCKOUT_DECAY_MS)
  }

  lemma OneFailure(entry: LockoutState, k: int, t: int)
    requires Fresh(entry, t) && k >= 1 && !IsLocked(entry, t)
    ensures var entry' := RecordFailure(entry, t);
            && Fresh(entry', t)
            && FindLocked(entry', k - 1, t) == FindLocked(entry, k, t)
            && NewLocks(entry', k - 1, t) + (if Opens(entry, t) then 1 else 0) == NewLocks(entry, k, t)
  {
  }

  ghost predicate RushEnds(key: string, g: Gate, a: nat, l: nat, n: nat, t: int)
    requires l <= a <= n
  {
    var hooks, g' := Rush(key, a, l, n, t), Run(key, g, Rush(key, a, l, n, t));
    && Possible(key, g, hooks) && AtMost(n, key, g, hooks)
    && g'.passed == g.passed + n - a && g'.missed == g.missed + FindLocked(g.entry, n - l, t)
    && |g'.counted| == |g.counted| + (n - l) - FindLocked(g.entry, n - l, t)
    && g'.locks == g.locks + NewLocks(g.entry, n - l, t)
  }

  lemma ArriveFirst(key: string, g: Gate, a: nat, l: nat, n: nat, t: int)
    requires l <= a < n && !IsLocked(g.entry, t) && g.open == Ids(l, a)
    requires RushEnds(key, Step(key, g, Arrive(a, key, t)), a + 1, l, n, t)
    ensures RushEnds(key, g, a, l, n, t)
  {
    hide RecordFailure, IsLocked, FindLocked, NewLocks;
    assert Rush(key, a, l, n, t) == [Arrive(a, key, t)] + Rush(key, a + 1, l, n, t);
  }

  lemma LeaveFirst(key: string, g: Gate, l: nat, n: nat, t: int)
    requires l < n && Fresh(g.entry, t) && g.open == Ids(l, n)
    requires RushEnds(key, Step(key, g, Leave(l, key, false, t)), n, l + 1, n, t)
    ensures RushEnds(key, g, n, l, n, t)
  {
    var h := Leave(l, key, false, t);
    assert Rush(key, n, l, n, t) == [h] + Rush(key, n, l + 1, n, t);
    var g1 := Step(key, g, h);
    assert |g1.counted| + g1.missed == |g.counted| + g.missed + 1;
    if !IsLocked(g.entry, t) {
      OneFailure(g.entry, n - l, t);
    }
    hide RecordFailure, Fresh, Rush;
  }

  lemma {:induction false} RushRuns(key: string, g: Gate, a: nat, l: nat, n: nat, t: int)
    requires l <= a <= n && (l > 0 ==> a == n) && Fresh(g.entry, t)
    requires a < n ==> !IsLocked(g.entry, t)
    requires g.open == Ids(l, a)
    ensures RushEnds(key, g, a, l, n, t)
    decreases n - a + n - l
  {
    hide RushEnds, Fresh, Step, Ids;
    if a < n {
      ArriveOpens(key, g, a, l, t);
      RushRuns(key, Step(key, g, Arrive(a, key, t)), a + 1, l, n, t);
      ArriveFirst(key, g, a, l, n, t);
    } else if l < n {
      LeaveCloses(key, g, l, n, t);
      RushRuns(key, Step(key, g, Leave(l, key, false, t)), a, l + 1, n, t);
      LeaveFirst(key, g, l, n, t);
    } else {
      NoneLeft(key, g, n, t);
    }
  }

  lemma ArriveOpens(key: string, g: Gate, a: nat, l: nat, t: int)
    requires l <= a && !IsLocked(g.entry, t) && g.open == Ids(l, a)
    ensures var g' := Step(key, g, Arrive(a, key, t)); g'.entry == g.entry && g'.open == Ids(l, a + 1)
  {
    assert Ids(l, a) + {a} == Ids(l, a + 1);
  }

  lemma LeaveCloses(key: string, g: Gate, l: nat, n: nat, t: int)
    requires l < n && Fresh(g.entry, t) && g.open == Ids(l, n)
    ensures var g' := Step(key, g, Leave(l, key, false, t)); Fresh(g'.entry, t) && g'.open == Ids(l + 1, n)
  {
    assert Ids(l, n) - {l} == Ids(l + 1, n);
    if !IsLocked(g.entry, t) {
      OneFailure(g.entry, 1, t);
    }
  }

  lemma NoneLeft(key: string, g: Gate, n: nat, t: int)
    requires g.open == Ids(n, n) && Fresh(g.entry, t)
    ensures RushEnds(key, g, n, n, n, t)
  {
  }

  lemma NobodyRejected(key: string, n: nat, t: int, i: nat)
    requires t > 0 && i < n && Possible(key, START, Rush(key, 0, 0, n, t))
    ensures var trace := LockoutStore.Trace(map[], EventsOf(Rush(key, 0, 0, n, t)), true);
            i < |trace| && trace[i] == LockoutStore.Decision(false)
  {
    var hooks := Rush(key, 0, 0, n, t);
    assert Clocked(hooks, 0) && hooks[i] == Arrive(i, key, t) && !IsLocked(INITIAL, t);
    hide Run, Possible, Clocked, Rush, IsLocked, LockoutStore.Trace;
    DecidedByItsGate(key, hooks, i);
    StaysUnlocked(key, hooks, i);
  }

  /** n guesses get through at one instant, for every n, although the lock is five failures away: the
      recorded failures are at most five, and all others leave no trace. */
  lemma AllPassAtOnce(key: string, n: nat, t: int)
    requires t > 0
    ensures var hooks := Rush(key, 0, 0, n, t);
            var trace := LockoutStore.Trace(map[], EventsOf(hooks), true);
            var g := Run(key, START, hooks);
            && Clocked(hooks, 0) && Possible(key, START, hooks) && |trace| == |hooks| == 2 * n
            && (forall i :: 0 <= i < n ==> hooks[i] == Arrive(i, key, t) && trace[i] == LockoutStore.Decision(false))
            && (forall i :: 0 <= i < n ==> hooks[n + i] == Leave(i, key, false, t))
            && g.passed == n && |g.counted| == Min(n, 5) && g.missed == Max(n - 5, 0)
  {
    hide Run, Possible, IsLocked, LockoutStore.Trace;
    RushCounts(key, n, t);
    LockoutStore.PruningIsInvisible(EventsOf(Rush(key, 0, 0, n, t)));
    TraceLength(map[], EventsOf(Rush(key, 0, 0, n, t)));
    forall i | 0 <= i < n
      ensures LockoutStore.Trace(map[], EventsOf(Rush(key, 0, 0, n, t)), true)[i] == LockoutStore.Decision(false)
    {
      NobodyRejected(key, n, t, i);
    }
  }

  lemma RushCounts(key: string, n: nat, t: int)
    requires t > 0
    ensures var hooks := Rush(key, 0, 0, n, t);
            var g := Run(key, START, hooks);
            && Possible(key, START, hooks)
            && g.passed == n && |g.counted| == Min(n, 5) && g.missed == Max(n - 5, 0)
  {
    assert RushEnds(key, START, 0, 0, n, t) by { RushRuns(key, START, 0, 0, n, t); }
  }

  lemma {:induction false} StaysUnlocked(key: string, hooks: seq<Hook>, i: nat)
    requires i <= |hooks| && forall x :: 0 <= x < i ==> hooks[x].Arrive?
    ensures Run(key, START, hooks[..i]).entry == INITIAL
  {
    if i > 0 {
      StaysUnlocked(key, hooks, i - 1);
      NextEntry(key, START, hooks, i - 1);
    }
  }

  /** The charge of c - 1 unrecorded guesses a lock is attained, for every c: one failure short of a
      lock, c guesses at once leave c - 1 unrecorded. */
  lemma OverlapIsTight(key: string, c: nat, t: int) returns (g: Gate, hooks: seq<Hook>)
    requires c >= 1 && t > 0
    ensures Reached(c, g, t) && g.caught == {} && Clocked(hooks, t)
    ensures Possible(key, g, hooks) && AtMost(c, key, g, hooks) && NoSuccess(key, hooks)
    ensures var g' := Run(key, g, hooks);
            g'.locks == g.locks + 1 && g'.missed - g.missed == (c - 1) * (g'.locks - g.locks)
  {
    g := START.(entry := LockoutState(4, 0, 0, t), passed := 4, counted := [t, t, t, t]);
    hooks := Rush(key, 0, 0, c, t);
    RushRuns(key, g, 0, 0, c, t);
  }
}
