/** The in-memory lockout store behind the sign-in hooks (packages/auth/src/auth.ts).
    Pruning bounds its size; the main result is that nobody can observe the pruning. */
module LockoutStore {
  import opened Lockout
  import opened Wrappers

  type Entries = map<string, LockoutState>

  const PRUNE_AT := 1000
  const IDLE_MS := 3_600_000

  function Lookup(store: Entries, key: string): LockoutState {
    if key in store then store[key] else INITIAL
  }

  predicate Idle(state: LockoutState, now: int) {
    !IsLocked(state, now) && now - state.lastFailureAt > IDLE_MS
  }

  function Pruned(store: Entries, now: int): Entries {
    if |store| < PRUNE_AT then store
    else map key | key in store && !Idle(store[key], now) :: store[key]
  }

  function AfterHook(store: Entries, key: Option<string>, newSession: bool, now: int, pruning: bool): Entries {
    if key.None? then store
    else
      var updated := if newSession then store - {key.value}
                     else store[key.value := RecordFailure(Lookup(store, key.value), now)];
      if pruning then Pruned(updated, now) else updated
  }

  /** A store of fewer than 1000 entries is left alone; of a larger one, exactly the locked entries and
      those that failed within the last hour stay, unchanged. */
  lemma PrunesExactly(store: Entries, now: int)
    ensures |store| < 1000 ==> Pruned(store, now) == store
    ensures |store| >= 1000 ==>
              forall key, state ::
                key in Pruned(store, now) && Pruned(store, now)[key] == state <==>
                && key in store && store[key] == state
                && (now < state.lockedUntil || now - state.lastFailureAt <= 3_600_000)
  {
  }

  // ----- Runs -----

  /** Hooks of concurrent requests interleave freely; each reads the clock once. */
  datatype Event =
    | Before(key: Option<string>, now: int)
    | After(key: Option<string>, newSession: bool, now: int)

  /** What a request can learn or leave behind. */
  datatype Seen = Decision(rejected: bool) | Recording(state: LockoutState) | Nothing

  function Step(store: Entries, e: Event, pruning: bool): Entries {
    match e
    case Before(_, _) => store
    case After(key, newSession, now) => AfterHook(store, key, newSession, now, pruning)
  }

  function Observe(store: Entries, e: Event): Seen {
    match e
    case Before(key, now) => Decision(key.Some? && IsLocked(Lookup(store, key.value), now))
    case After(key, newSession, now) =>
      if key.None? || newSession then Nothing
      else Recording(RecordFailure(Lookup(store, key.value), now))
  }

  function Run(store: Entries, events: seq<Event>, pruning: bool): Entries
    decreases |events|
  {
    if events == [] then store else Run(Step(store, events[0], pruning), events[1..], pruning)
  }

  function Trace(store: Entries, events: seq<Event>, pruning: bool): seq<Seen>
    decreases |events|
  {
    if events == [] then []
    else [Observe(store, events[0])] + Trace(Step(store, events[0], pruning), events[1..], pruning)
  }

  ghost predicate Clocked(events: seq<Event>, since: int) {
    && (forall i :: 0 <= i < |events| ==> since <= events[i].now && 0 < events[i].now)
    && (forall i, j :: 0 <= i < j < |events| ==> events[i].now <= events[j].now)
  }

  ghost predicate Wf(store: Entries, now: int) {
    forall key :: key in store ==> Recorded(store[key]) && store[key].lastFailureAt <= now
  }

  /** The pruned store is the full one minus entries that have gone idle. */
  ghost predicate PrunedFrom(pruned: Entries, full: Entries, now: int) {
    && (forall key :: key in pruned ==> key in full && pruned[key] == full[key])
    && (forall key :: key in full && key !in pruned ==> Idle(full[key], now))
  }

  /** A forgotten entry and a fresh one behave identically. */
  lemma IdleActsFresh(s: LockoutState, now: int)
    requires Recorded(s) && Idle(s, now) && now > 0
    ensures IsLocked(s, now) == IsLocked(INITIAL, now)
    ensures RecordFailure(s, now) == RecordFailure(INITIAL, now)
  {
  }

  lemma StepKeepsWf(store: Entries, e: Event, since: int, pruning: bool)
    requires Wf(store, since) && since <= e.now && e.now > 0
    ensures Wf(Step(store, e, pruning), e.now)
  {
    if e.After? && e.key.Some? {
      RecordFailureKeepsValid(Lookup(store, e.key.value), e.now);
    }
  }

  lemma IdlenessLasts(pruned: Entries, full: Entries, since: int, now: int)
    requires PrunedFrom(pruned, full, since) && since <= now
    ensures PrunedFrom(pruned, full, now)
  {
  }

  lemma SameFailureRecorded(pruned: Entries, full: Entries, key: string, now: int)
    requires Wf(full, now) && PrunedFrom(pruned, full, now) && now > 0
    ensures IsLocked(Lookup(pruned, key), now) == IsLocked(Lookup(full, key), now)
    ensures RecordFailure(Lookup(pruned, key), now) == RecordFailure(Lookup(full, key), now)
  {
  }

  lemma PruningOnlyForgetsIdle(pruned: Entries, full: Entries, now: int)
    requires PrunedFrom(pruned, full, now)
    ensures PrunedFrom(Pruned(pruned, now), full, now)
  {
  }

  lemma StepsAgree(pruned: Entries, full: Entries, e: Event, since: int)
    requires Wf(full, since) && PrunedFrom(pruned, full, since) && since <= e.now && e.now > 0
    ensures Observe(pruned, e) == Observe(full, e)
    ensures PrunedFrom(Step(pruned, e, true), Step(full, e, false), e.now)
  {
    IdlenessLasts(pruned, full, since, e.now);
    if e.key.Some? {
      var key := e.key.value;
      SameFailureRecorded(pruned, full, key, e.now);
      if e.After? {
        var recorded := RecordFailure(Lookup(full, key), e.now);
        var pruned' := if e.newSession then pruned - {key} else pruned[key := recorded];
        var full' := if e.newSession then full - {key} else full[key := recorded];
        assert PrunedFrom(pruned', full', e.now);
        PruningOnlyForgetsIdle(pruned', full', e.now);
      }
    }
  }

  lemma {:induction false} RunsAgree(pruned: Entries, full: Entries, events: seq<Event>, since: int)
    requires Wf(full, since) && PrunedFrom(pruned, full, since) && Clocked(events, since)
    ensures Trace(pruned, events, true) == Trace(full, events, false)
    ensures PrunedFrom(Run(pruned, events, true), Run(full, events, false),
                       if events == [] then since else events[|events| - 1].now)
    decreases |events|
  {
    if events != [] {
      var e := events[0];
      StepsAgree(pruned, full, e, since);
      StepKeepsWf(full, e, since, false);
      RunsAgree(Step(pruned, e, true), Step(full, e, false), events[1..], e.now);
    }
  }

  /** Over every interleaving of hooks on any number of keys, the store that prunes rejects the same
      requests and records the same states as one that never forgets. */
  lemma PruningIsInvisible(events: seq<Event>)
    requires Clocked(events, 0)
    ensures Trace(map[], events, true) == Trace(map[], events, false)
  {
    RunsAgree(map[], map[], events, 0);
  }

  /** ... and it keeps the store small: past the pruning size, only identifiers that failed within
      the last hour survive a sign-in. */
  lemma {:induction false} FootprintIsBounded(store: Entries, key: string, newSession: bool, now: int)
    requires Wf(store, now) && now > 0
    ensures var store' := AfterHook(store, Some(key), newSession, now, true);
            |store'| < 1000 || forall k :: k in store' ==> now - store'[k].lastFailureAt <= 3_600_000
  {
  }

  // ----- The hooks as they run -----

  /** The store and its hooks as the server runs them, beside a ghost record that is never pruned.
      A `None` key is a request without an e-mail address. */
  class Store {
    var entries: Entries
    ghost var full: Entries
    ghost var clock: int

    ghost predicate Valid()
      reads this
    {
      Wf(full, clock) && PrunedFrom(entries, full, clock)
    }

    constructor ()
      ensures Valid() && entries == full == map[] && clock == 0
    {
      entries, full, clock := map[], map[], 0;
    }

    method Prune(now: int)
      modifies `entries
      ensures entries == Pruned(old(entries), now)
    {
      if |entries| < PRUNE_AT {
        return;
      }
      var pending := entries.Keys;
      while pending != {}
        invariant pending <= entries.Keys <= old(entries).Keys
        invariant forall key :: key in entries ==> entries[key] == old(entries)[key]
        invariant forall key :: key in old(entries) && key !in entries ==> Idle(old(entries)[key], now)
        invariant forall key :: key in entries && key !in pending ==> !Idle(entries[key], now)
        decreases pending
      {
        var key :| key in pending;
        if Idle(entries[key], now) {
          entries := entries - {key};
        }
        pending := pending - {key};
      }
    }

    /** The decision is the one the complete record calls for, although the store may have forgotten
        the identifier. */
    method BeforeSignIn(key: Option<string>, now: int) returns (rejected: bool)
      requires Valid() && clock <= now && now > 0
      ensures rejected <==> key.Some? && IsLocked(Lookup(full, key.value), now)
    {
      rejected := false;
      if key.Some? {
        IdlenessLasts(entries, full, clock, now);
        SameFailureRecorded(entries, full, key.value, now);
        var state := Lookup(entries, key.value);
        rejected := IsLocked(state, now);
      }
    }

    /** The record is updated as if nothing had ever been pruned, and the store still agrees with it. */
    method AfterSignIn(key: Option<string>, newSession: bool, now: int)
      requires Valid() && clock <= now && now > 0
      modifies this
      ensures Valid() && clock == now
      ensures entries == AfterHook(old(entries), key, newSession, now, true)
      ensures full == AfterHook(old(full), key, newSession, now, false)
      ensures key.Some? && !newSession ==> full[key.value] == RecordFailure(Lookup(old(full), key.value), now)
    {
      ghost var e := After(key, newSession, now);
      StepsAgree(entries, full, e, clock);
      StepKeepsWf(full, e, clock, false);
      full := AfterHook(full, key, newSession, now, false);
      clock := now;
      if key.Some? {
        if newSession {
          entries := entries - {key.value};
        } else {
          entries := entries[key.value := RecordFailure(Lookup(entries, key.value), now)];
        }
        Prune(now);
      }
    }
  }
}
