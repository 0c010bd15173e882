/** Mints in flight: a plan's precheck reads the contract, and the transaction it sizes lands seconds
    later, with other plans checked and landing in between (apps/worker/src/workers/execution.ts).
    What the prechecks guarantee about transactions the contract will not refuse. */
module Minting {
  import opened Allowance
  import opened Arithmetic
  import opened Wrappers

  /** A sized request, in flight while it is open. */
  datatype Grant = Grant(wallet: nat, quantity: nat, cap: Option<int>, open: bool)

  datatype Sale = Sale(drop: Drop, grants: seq<Grant>)

  /** A precheck; the landing of a grant, perhaps at a smaller quantity after refusals by the builder;
      or its end without a transaction. */
  datatype Event =
    | Check(request: Request)
    | Land(grant: nat, quantity: nat)
    | Fail(grant: nat)

  function Sized(d: Drop, r: Request, maxSupply: nat): nat {
    Max(0, Quantity(Allowance.Check(d, r, maxSupply)))
  }

  predicate Enabled(s: Sale, e: Event) {
    match e
    case Check(_) => true
    case Land(i, q) => i < |s.grants| && s.grants[i].open && 1 <= q <= s.grants[i].quantity
    case Fail(i) => i < |s.grants| && s.grants[i].open
  }

  function Step(s: Sale, e: Event, maxSupply: nat): Sale
    requires Enabled(s, e)
  {
    match e
    case Check(r) =>
      var q := Sized(s.drop, r, maxSupply);
      if q == 0 then s else s.(grants := s.grants + [Grant(r.wallet, q, r.cap, true)])
    case Land(i, q) =>
      var g := s.grants[i];
      Sale(Drop(s.drop.minted[g.wallet := MintedBy(s.drop, g.wallet) + q], s.drop.supply + q),
           s.grants[i := g.(open := false)])
    case Fail(i) => s.(grants := s.grants[i := s.grants[i].(open := false)])
  }

  predicate Possible(s: Sale, events: seq<Event>, maxSupply: nat)
    decreases |events|
  {
    events != [] ==> Enabled(s, events[0]) && Possible(Step(s, events[0], maxSupply), events[1..], maxSupply)
  }

  function Run(s: Sale, events: seq<Event>, maxSupply: nat): Sale
    requires Possible(s, events, maxSupply)
    decreases |events|
  {
    if events == [] then s else Run(Step(s, events[0], maxSupply), events[1..], maxSupply)
  }

  /** The contract refuses what exceeds its supply or the cap the request was made under. */
  predicate Refused(s: Sale, e: Event, maxSupply: nat)
    requires Enabled(s, e)
  {
    e.Land? &&
    var g := s.grants[e.grant];
    || (maxSupply > 0 && s.drop.supply + e.quantity > maxSupply)
    || (g.cap.Some? && MintedBy(s.drop, g.wallet) + e.quantity > g.cap.value)
  }

  predicate NoneRefused(s: Sale, events: seq<Event>, maxSupply: nat)
    requires Possible(s, events, maxSupply)
    decreases |events|
  {
    events != [] ==>
      !Refused(s, events[0], maxSupply) && NoneRefused(Step(s, events[0], maxSupply), events[1..], maxSupply)
  }

  // ----- What is outstanding -----

  /** The tokens in flight for one wallet, or for all. */
  function Outstanding(grants: seq<Grant>, who: Option<nat>): nat {
    if grants == [] then 0 else Share(grants[0], who) + Outstanding(grants[1..], who)
  }

  function Share(g: Grant, who: Option<nat>): nat {
    if g.open && (who.None? || who.value == g.wallet) then g.quantity else 0
  }

  lemma {:induction false} OutstandingUpdate(grants: seq<Grant>, i: nat, g: Grant, who: Option<nat>)
    requires i < |grants|
    ensures Outstanding(grants[i := g], who) == Outstanding(grants, who) - Share(grants[i], who) + Share(g, who)
    ensures Share(grants[i], who) <= Outstanding(grants, who)
    decreases |grants|
  {
    if i > 0 {
      assert grants[i := g][1..] == grants[1..][i - 1 := g];
      OutstandingUpdate(grants[1..], i - 1, g, who);
    } else {
      assert grants[i := g][1..] == grants[1..];
    }
  }

  lemma {:induction false} OutstandingAppend(grants: seq<Grant>, g: Grant, who: Option<nat>)
    ensures Outstanding(grants + [g], who) == Outstanding(grants, who) + Share(g, who)
    decreases |grants|
  {
    if grants != [] {
      assert (grants + [g])[1..] == grants[1..] + [g];
      OutstandingAppend(grants[1..], g, who);
    } else {
      assert [g][1..] == [];
    }
  }

  /** With everything in flight landed in full, grant i would still be within its limits. */
  predicate Fits(s: Sale, i: nat, maxSupply: nat)
    requires i < |s.grants|
  {
    var g := s.grants[i];
    && (maxSupply > 0 ==> s.drop.supply + Outstanding(s.grants, None) <= maxSupply)
    && (g.cap.Some? ==> MintedBy(s.drop, g.wallet) + Outstanding(s.grants, Some(g.wallet)) <= g.cap.value)
  }

  predicate Covered(s: Sale, maxSupply: nat) {
    forall i :: 0 <= i < |s.grants| && s.grants[i].open ==> Fits(s, i, maxSupply)
  }

  // ----- Every way of landing -----

  predicate OnlyLandings(events: seq<Event>) {
    forall e :: e in events ==> !e.Check?
  }

  /** However and in whatever order the grants in flight land or fail, the contract refuses none. */
  ghost predicate Safe(s: Sale, maxSupply: nat) {
    forall events :: OnlyLandings(events) && Possible(s, events, maxSupply) ==> NoneRefused(s, events, maxSupply)
  }

  lemma CloseKeepsCovered(s: Sale, e: Event, maxSupply: nat)
    requires Covered(s, maxSupply) && Enabled(s, e) && !e.Check?
    ensures !Refused(s, e, maxSupply) && Covered(Step(s, e, maxSupply), maxSupply)
  {
    var s' := Step(s, e, maxSupply);
    var g := s.grants[e.grant];
    assert Fits(s, e.grant, maxSupply);
    OutstandingUpdate(s.grants, e.grant, g.(open := false), None);
    OutstandingUpdate(s.grants, e.grant, g.(open := false), Some(g.wallet));
    forall i | 0 <= i < |s'.grants| && s'.grants[i].open
      ensures Fits(s', i, maxSupply)
    {
      assert Fits(s, i, maxSupply);
      OutstandingUpdate(s.grants, e.grant, g.(open := false), Some(s.grants[i].wallet));
    }
  }

  lemma {:induction false} CoveredLandings(s: Sale, events: seq<Event>, maxSupply: nat)
    requires Covered(s, maxSupply) && OnlyLandings(events) && Possible(s, events, maxSupply)
    ensures NoneRefused(s, events, maxSupply)
    decreases |events|
  {
    if events != [] {
      assert events[0] in events;
      CloseKeepsCovered(s, events[0], maxSupply);
      CoveredLandings(Step(s, events[0], maxSupply), events[1..], maxSupply);
    }
  }

  /** Grant `last` is the last to land, after all others from n on have landed in full. */
  lemma {:induction false} LandTheRest(s: Sale, n: nat, last: nat, maxSupply: nat) returns (events: seq<Event>)
    requires n <= |s.grants| && last < |s.grants| && s.grants[last].open
    requires forall i :: 0 <= i < |s.grants| && s.grants[i].open ==> s.grants[i].quantity >= 1 && (i >= n || i == last)
    ensures OnlyLandings(events) && Possible(s, events, maxSupply)
    ensures NoneRefused(s, events, maxSupply) ==> Fits(s, last, maxSupply)
    decreases |s.grants| - n
  {
    var g := s.grants[last];
    if n == |s.grants| {
      events := [Land(last, g.quantity)];
      OneOpen(s.grants, last, None);
      OneOpen(s.grants, last, Some(g.wallet));
    } else if n == last || !s.grants[n].open {
      events := LandTheRest(s, n + 1, last, maxSupply);
    } else {
      var e := Land(n, s.grants[n].quantity);
      var s' := Step(s, e, maxSupply);
      var rest := LandTheRest(s', n + 1, last, maxSupply);
      events := [e] + rest;
      assert events[1..] == rest;
      OutstandingUpdate(s.grants, n, s.grants[n].(open := false), None);
      OutstandingUpdate(s.grants, n, s.grants[n].(open := false), Some(g.wallet));
    }
  }

  lemma {:induction false} OneOpen(grants: seq<Grant>, last: nat, who: Option<nat>)
    requires last < |grants| && forall i :: 0 <= i < |grants| && grants[i].open ==> i == last
    ensures Outstanding(grants, who) == Share(grants[last], who)
    decreases |grants|
  {
    if last > 0 {
      OneOpen(grants[1..], last - 1, who);
    } else {
      NoneOpen(grants[1..], who);
    }
  }

  lemma {:induction false} NoneOpen(grants: seq<Grant>, who: Option<nat>)
    requires forall g :: g in grants ==> !g.open
    ensures Outstanding(grants, who) == 0
    decreases |grants|
  {
    if grants != [] {
      assert grants[0] in grants;
      NoneOpen(grants[1..], who);
    }
  }

  ghost predicate Positive(s: Sale) {
    forall i :: 0 <= i < |s.grants| ==> s.grants[i].quantity >= 1
  }

  /** The grants in flight are safe if and only if what is minted and all of them together fit the
      supply and the caps. */
  lemma SafeIffCovered(s: Sale, maxSupply: nat)
    requires Positive(s)
    ensures Safe(s, maxSupply) <==> Covered(s, maxSupply)
  {
    if Covered(s, maxSupply) {
      forall events | OnlyLandings(events) && Possible(s, events, maxSupply)
        ensures NoneRefused(s, events, maxSupply)
      {
        CoveredLandings(s, events, maxSupply);
      }
    } else {
      var last :| 0 <= last < |s.grants| && s.grants[last].open && !Fits(s, last, maxSupply);
      var events := LandTheRest(s, 0, last, maxSupply);
    }
  }

  // ----- Whole runs -----

  /** What a check would grant fits beside everything in flight, under its own cap and those the
      wallet's other requests were made under. */
  predicate FitsBeside(s: Sale, r: Request, maxSupply: nat) {
    var q := Sized(s.drop, r, maxSupply);
    var all := MintedBy(s.drop, r.wallet) + Outstanding(s.grants, Some(r.wallet)) + q;
    && (maxSupply > 0 ==> s.drop.supply + Outstanding(s.grants, None) + q <= maxSupply)
    && (r.cap.Some? ==> all <= r.cap.value)
    && (forall g :: g in s.grants && g.open && g.wallet == r.wallet && g.cap.Some? ==> all <= g.cap.value)
  }

  lemma CheckIsCoveredIff(s: Sale, r: Request, maxSupply: nat)
    requires Covered(s, maxSupply) && Sized(s.drop, r, maxSupply) > 0
    ensures Covered(Step(s, Check(r), maxSupply), maxSupply) <==> FitsBeside(s, r, maxSupply)
  {
    var s' := Step(s, Check(r), maxSupply);
    var n := |s.grants|;
    var g := s'.grants[n];
    OutstandingAppend(s.grants, g, None);
    OutstandingAppend(s.grants, g, Some(r.wallet));
    if FitsBeside(s, r, maxSupply) {
      forall i | 0 <= i < |s'.grants| && s'.grants[i].open
        ensures Fits(s', i, maxSupply)
      {
        if i < n {
          assert Fits(s, i, maxSupply) && s.grants[i] in s.grants;
          OutstandingAppend(s.grants, g, Some(s.grants[i].wallet));
        }
      }
    } else if Covered(s', maxSupply) {
      assert Fits(s', n, maxSupply);
      forall h | h in s.grants && h.open && h.wallet == r.wallet && h.cap.Some?
        ensures MintedBy(s.drop, r.wallet) + Outstanding(s.grants, Some(r.wallet)) + g.quantity <= h.cap.value
      {
        var i :| 0 <= i < n && s.grants[i] == h;
        assert Fits(s', i, maxSupply);
      }
    }
  }

  /** Every check that grants anything finds room for it beside the grants in flight. */
  predicate EveryGrantFits(s: Sale, events: seq<Event>, maxSupply: nat)
    requires Possible(s, events, maxSupply)
    decreases |events|
  {
    events != [] ==>
      && (events[0].Check? && Sized(s.drop, events[0].request, maxSupply) > 0 ==>
            FitsBeside(s, events[0].request, maxSupply))
      && EveryGrantFits(Step(s, events[0], maxSupply), events[1..], maxSupply)
  }

  ghost predicate AlwaysSafe(s: Sale, events: seq<Event>, maxSupply: nat)
    requires Possible(s, events, maxSupply)
    decreases |events|
  {
    Safe(s, maxSupply) && (events != [] ==> AlwaysSafe(Step(s, events[0], maxSupply), events[1..], maxSupply))
  }

  /** Over every interleaving of checks, landings and failures: at all times the grants in flight can
      land in any way without a refusal, if and only if every check's grant fits beside the others. */
  lemma {:induction false} AlwaysSafeIffEveryGrantFits(s: Sale, events: seq<Event>, maxSupply: nat)
    requires Positive(s) && Covered(s, maxSupply) && Possible(s, events, maxSupply)
    ensures AlwaysSafe(s, events, maxSupply) <==> EveryGrantFits(s, events, maxSupply)
    ensures AlwaysSafe(s, events, maxSupply) ==> NoneRefused(s, events, maxSupply)
    decreases |events|
  {
    hide Safe, Covered, FitsBeside;
    SafeIffCovered(s, maxSupply);
    if events != [] {
      var e, s' := events[0], Step(s, events[0], maxSupply);
      if !e.Check? {
        CloseKeepsCovered(s, e, maxSupply);
      } else if Sized(s.drop, e.request, maxSupply) > 0 {
        CheckIsCoveredIff(s, e.request, maxSupply);
      }
      SafeIffCovered(s', maxSupply);
      if Covered(s', maxSupply) {
        AlwaysSafeIffEveryGrantFits(s', events[1..], maxSupply);
      }
    }
  }

  /** Checks are made only with nothing in flight. */
  predicate OneAtATime(s: Sale, events: seq<Event>, maxSupply: nat)
    requires Possible(s, events, maxSupply)
    decreases |events|
  {
    events != [] ==>
      && (events[0].Check? ==> forall g :: g in s.grants ==> !g.open)
      && OneAtATime(Step(s, events[0], maxSupply), events[1..], maxSupply)
  }

  /** Then, whatever the caps of different phases, no transaction is refused. */
  lemma {:induction false} OneAtATimeIsSafe(s: Sale, events: seq<Event>, maxSupply: nat)
    requires Possible(s, events, maxSupply) && OneAtATime(s, events, maxSupply)
    ensures EveryGrantFits(s, events, maxSupply)
    decreases |events|
  {
    if events != [] {
      if events[0].Check? {
        var r := events[0].request;
        NoneOpen(s.grants, None);
        NoneOpen(s.grants, Some(r.wallet));
        GrantsTheLargestAdmissible(s.drop, r, maxSupply);
      }
      hide FitsBeside;
      OneAtATimeIsSafe(Step(s, events[0], maxSupply), events[1..], maxSupply);
    }
  }

  // ----- What has landed -----

  /** In every run the contract refuses nothing of, the supply keeps to its limit and every token is on
      some wallet's account. */
  lemma {:induction false} LandedIsConserved(s: Sale, events: seq<Event>, maxSupply: nat, wallets: seq<nat>)
    requires NoRepeats(wallets) && Possible(s, events, maxSupply)
    requires forall g :: g in Run(s, events, maxSupply).grants ==> g.wallet in wallets
    ensures var s' := Run(s, events, maxSupply);
            && TotalMinted(s'.drop, wallets) - TotalMinted(s.drop, wallets) == s'.drop.supply - s.drop.supply >= 0
            && (NoneRefused(s, events, maxSupply) && maxSupply > 0 ==> s'.drop.supply <= Max(maxSupply, s.drop.supply))
    decreases |events|
  {
    if events != [] {
      var e, s' := events[0], Step(s, events[0], maxSupply);
      LandedIsConserved(s', events[1..], maxSupply, wallets);
      if e.Land? {
        GrantsStay(s, events, maxSupply, e.grant);
        LandingCountsOnce(s, e, maxSupply, wallets);
      }
    }
  }

  /** ... and no wallet passes the largest cap its requests were made under. */
  lemma {:induction false} LandedKeepsCaps(s: Sale, events: seq<Event>, maxSupply: nat, wallet: nat, largest: int)
    requires Possible(s, events, maxSupply) && NoneRefused(s, events, maxSupply)
    requires forall g :: g in Run(s, events, maxSupply).grants && g.wallet == wallet ==>
               g.cap.Some? && g.cap.value <= largest
    ensures MintedBy(Run(s, events, maxSupply).drop, wallet) <= Max(MintedBy(s.drop, wallet), largest)
    decreases |events|
  {
    if events != [] {
      if events[0].Land? {
        GrantsStay(s, events, maxSupply, events[0].grant);
      }
      LandedKeepsCaps(Step(s, events[0], maxSupply), events[1..], maxSupply, wallet, largest);
    }
  }

  lemma {:induction false} GrantsStay(s: Sale, events: seq<Event>, maxSupply: nat, i: nat)
    requires Possible(s, events, maxSupply) && i < |s.grants|
    ensures var s' := Run(s, events, maxSupply);
            i < |s'.grants| && s'.grants[i].(open := false) == s.grants[i].(open := false)
    decreases |events|
  {
    if events != [] {
      GrantsStay(Step(s, events[0], maxSupply), events[1..], maxSupply, i);
    }
  }

  lemma {:induction false} LandingCountsOnce(s: Sale, e: Event, maxSupply: nat, wallets: seq<nat>)
    requires e.Land? && Enabled(s, e) && NoRepeats(wallets)
    ensures TotalMinted(Step(s, e, maxSupply).drop, wallets) - TotalMinted(s.drop, wallets) ==
            if s.grants[e.grant].wallet in wallets then e.quantity else 0
    decreases |wallets|
  {
    if wallets != [] {
      var tail := wallets[1..];
      assert forall i :: 0 <= i < |tail| ==> tail[i] == wallets[i + 1];
      LandingCountsOnce(s, e, maxSupply, tail);
      assert wallets[0] !in tail;
      assert forall w :: w in wallets <==> w == wallets[0] || w in tail;
    }
  }

  // ----- Overlapping checks are not safe -----

  /** Two plans of one wallet are checked before either lands: of a cap of 2 and a supply of 2 both are
      granted 2, and if both landed there would be 4. */
  lemma OverlappingChecksOvershoot()
    ensures var r := Request(0, 2, Some(2));
            var events := [Check(r), Check(r), Land(0, 2), Land(1, 2)];
            var s := Sale(Drop(map[], 0), []);
            && Possible(s, events, 2)
            && !NoneRefused(s, events, 2) && !EveryGrantFits(s, events, 2)
            && MintedBy(Run(s, events, 2).drop, 0) == Run(s, events, 2).drop.supply == 4
  {
    var r := Request(0, 2, Some(2));
    var a, b, c := Check(r), Land(0, 2), Land(1, 2);
    var s := Sale(Drop(map[], 0), []);
    var open, closed := Grant(0, 2, Some(2), true), Grant(0, 2, Some(2), false);
    var s1 := Step(s, a, 2);
    assert s1 == Sale(s.drop, [open]);
    var s2 := Step(s1, a, 2);
    assert s2 == Sale(s.drop, [open, open]);
    var s3 := Step(s2, b, 2);
    assert s3 == Sale(Drop(map[0 := 2], 2), [closed, open]);
    var s4 := Step(s3, c, 2);
    assert s4.drop == Drop(map[0 := 4], 4);
    assert [a, a, b, c][1..] == [a, b, c] && [a, b, c][1..] == [b, c] && [b, c][1..] == [c] && [c][1..] == [];
    assert Possible(s4, [], 2) && Run(s4, [], 2) == s4;
    assert Possible(s3, [c], 2) && Run(s3, [c], 2) == s4 && Refused(s3, c, 2);
    assert Possible(s2, [b, c], 2) && Run(s2, [b, c], 2) == s4;
    assert Possible(s1, [a, b, c], 2) && Run(s1, [a, b, c], 2) == s4;
    assert Outstanding(s1.grants, None) == 2 by { OneOpen(s1.grants, 0, None); }
    assert !FitsBeside(s1, r, 2);
    assert !NoneRefused(s3, [c], 2) && !NoneRefused(s2, [b, c], 2) && !NoneRefused(s1, [a, b, c], 2);
  }
}
