/** How many tokens a wallet may still mint: the console's clamp
    (apps/web/src/lib/mint-allowance.ts) and the worker's precheck (apps/worker/src/mint-tx.ts). */
module Allowance {
  import opened Arithmetic
  import opened Wrappers

  // ----- The console's clamp -----

  /** A number that may be absent, NaN or infinite (`None`); counts are floored and never negative. */
  function AsCount(value: Option<real>): nat {
    if value.None? || value.value <= 0.0 then 0 else value.value.Floor
  }

  datatype RemainingAllowance = RemainingAllowance(
    capKnown: bool, maxPerWallet: Option<int>, alreadyMinted: int, remaining: Option<int>,
    requested: int, effective: int, clamped: bool, exhausted: bool)

  function Requested(requested: Option<real>): int {
    Max(1, if AsCount(requested) == 0 then 1 else AsCount(requested))
  }

  function Remaining(maxPerWallet: Option<real>, alreadyMinted: Option<real>, request: Option<real>)
    : RemainingAllowance
  {
    var requested := Requested(request);
    var minted := AsCount(alreadyMinted);
    var cap := AsCount(maxPerWallet);
    if cap == 0 then RemainingAllowance(false, None, minted, None, requested, requested, false, false)
    else
      var remaining := Max(0, cap - minted);
      var effective := Min(requested, remaining);
      RemainingAllowance(true, Some(cap), minted, Some(remaining), requested, effective,
                         effective < requested, remaining == 0)
  }

  /** A count is the largest whole number not above the value, and zero for everything that is not a
      positive number; an unusable request asks for one. */
  lemma CountsAreFloors(value: Option<real>)
    ensures value.None? || value.value <= 0.0 ==> AsCount(value) == 0
    ensures value.Some? && value.value > 0.0 ==>
              AsCount(value) as real <= value.value < AsCount(value) as real + 1.0
    ensures Requested(value) == (if value.Some? && value.value >= 1.0 then AsCount(value) else 1)
  {
  }

  /** Whole counts as the JavaScript numbers that carry them. */
  function Count(n: int): Option<real> { Some(n as real) }

  lemma CountIsCount(n: nat)
    ensures AsCount(Count(n)) == n
  {
  }

  /** The total granted to one wallet that mints what each request in turn is clamped to. */
  function GrantedInTurn(cap: nat, minted: nat, requests: seq<Option<real>>): int
    decreases |requests|
  {
    if requests == [] then 0
    else
      var granted := Remaining(Count(cap), Count(minted), requests[0]).effective;
      granted + GrantedInTurn(cap, if granted >= 0 then minted + granted else minted, requests[1..])
  }

  function TotalRequested(requests: seq<Option<real>>): int {
    if requests == [] then 0 else Requested(requests[0]) + TotalRequested(requests[1..])
  }

  /** Clamping loses nothing and invents nothing: the requests together get exactly what was asked
      for or what was left, whichever is less. */
  lemma {:induction false} ClampingConserves(cap: nat, minted: nat, requests: seq<Option<real>>)
    requires cap >= 1
    ensures GrantedInTurn(cap, minted, requests) == Min(TotalRequested(requests), Max(0, cap - minted))
    ensures TotalRequested(requests) >= |requests|
    decreases |requests|
  {
    if requests != [] {
      CountIsCount(cap);
      CountIsCount(minted);
      var granted := Remaining(Count(cap), Count(minted), requests[0]).effective;
      ClampingConserves(cap, minted + granted, requests[1..]);
    }
  }

  predicate FitsCap(minted: nat, q: int, cap: nat) {
    q >= 1 && minted + q <= cap
  }

  /** With a known cap the effective quantity is the largest one that is asked for and still fits, the
      remaining one is the largest that fits at all, and "exhausted" means that none does; without a cap
      nothing is clamped and nothing remaining is claimed. */
  lemma ClampTakesTheLargestThatFits(maxPerWallet: Option<real>, alreadyMinted: Option<real>, request: Option<real>)
    ensures var a := Remaining(maxPerWallet, alreadyMinted, request);
            var cap, minted := AsCount(maxPerWallet), AsCount(alreadyMinted);
            && (a.capKnown <==> cap >= 1)
            && a.alreadyMinted == minted && a.requested == Requested(request)
            && a.maxPerWallet == (if a.capKnown then Some(cap) else None)
            && (a.remaining.Some? <==> a.capKnown)
            && (a.capKnown ==>
                  a.remaining.value >= 0 && forall q :: FitsCap(minted, q, cap) <==> 1 <= q <= a.remaining.value)
            && 0 <= a.effective <= a.requested && (a.clamped <==> a.effective < a.requested)
            && (!a.capKnown ==> a.effective == a.requested && !a.exhausted)
            && (a.capKnown ==>
                  && (forall q :: FitsCap(minted, q, cap) && q <= a.requested ==> q <= a.effective)
                  && (a.effective > 0 ==> FitsCap(minted, a.effective, cap))
                  && (a.exhausted <==> forall q :: !FitsCap(minted, q, cap)))
  {
    var a := Remaining(maxPerWallet, alreadyMinted, request);
    if a.capKnown && !a.exhausted {
      assert FitsCap(AsCount(alreadyMinted), 1, AsCount(maxPerWallet));
    }
  }

  // ----- The worker's precheck -----

  const MAX_SAFE_INTEGER := 9_007_199_254_740_991

  datatype Verdict = Ok(quantity: int) | MintedOut | AllowanceExhausted(cap: int)

  function SupplyLeft(currentTotalSupply: nat, maxSupply: nat): int {
    if maxSupply > 0 then maxSupply - currentTotalSupply else MAX_SAFE_INTEGER
  }

  function PrecheckAllowance(requested: int, cap: Option<int>, minterNumMinted: nat, currentTotalSupply: nat,
                             maxSupply: nat): Verdict {
    var supplyLeft := SupplyLeft(currentTotalSupply, maxSupply);
    if supplyLeft <= 0 then MintedOut
    else if cap.Some? then
      var remaining := cap.value - minterNumMinted;
      if remaining <= 0 then AllowanceExhausted(cap.value)
      else Verdict.Ok(Max(1, Min(requested, Min(remaining, supplyLeft))))
    else Verdict.Ok(Max(1, Min(requested, supplyLeft)))
  }

  function Quantity(v: Verdict): int {
    if v.Ok? then v.quantity else 0
  }

  /** With ample supply the two answers agree for a known cap exactly when it is at least 1: a cap of
      zero is "unknown" to the console, which grants the request, and "exhausted" to the worker. */
  lemma ClampAndPrecheckAgree(cap: int, minted: nat, requested: int, supply: nat, maxSupply: nat)
    requires requested >= 1 && SupplyLeft(supply, maxSupply) >= requested
    ensures Remaining(Count(cap), Count(minted), Count(requested)).effective ==
            Quantity(PrecheckAllowance(requested, Some(cap), minted, supply, maxSupply))
            <==> cap >= 1
    ensures Remaining(None, Count(minted), Count(requested)).effective ==
            Quantity(PrecheckAllowance(requested, None, minted, supply, maxSupply))
  {
  }

  // ----- Many wallets on one drop, each request minted before the next is checked -----
  // `Minting` follows requests that are checked while others are in flight.

  /** A plan's request: the cap is its stage's cumulative one, and may be unknown. */
  datatype Request = Request(wallet: nat, quantity: int, cap: Option<int>)

  datatype Drop = Drop(minted: map<nat, nat>, supply: nat)

  function MintedBy(d: Drop, wallet: nat): nat {
    if wallet in d.minted then d.minted[wallet] else 0
  }

  function Check(d: Drop, r: Request, maxSupply: nat): Verdict {
    PrecheckAllowance(r.quantity, r.cap, MintedBy(d, r.wallet), d.supply, maxSupply)
  }

  function MintStep(d: Drop, r: Request, maxSupply: nat): Drop {
    var q := Quantity(Check(d, r, maxSupply));
    if q >= 1 then Drop(d.minted[r.wallet := MintedBy(d, r.wallet) + q], d.supply + q) else d
  }

  function MintAll(d: Drop, requests: seq<Request>, maxSupply: nat): Drop
    decreases |requests|
  {
    if requests == [] then d else MintAll(MintStep(d, requests[0], maxSupply), requests[1..], maxSupply)
  }

  /** A quantity the contract would accept in this state, no more than was asked for; a request for
      less than one token counts as one. */
  predicate Admissible(d: Drop, r: Request, q: int, maxSupply: nat) {
    && 1 <= q <= Max(1, r.quantity)
    && (r.cap.Some? ==> MintedBy(d, r.wallet) + q <= r.cap.value)
    && (if maxSupply > 0 then d.supply + q <= maxSupply else q <= 9_007_199_254_740_991)
  }

  /** The precheck grants the largest admissible quantity, and refuses exactly when there is none,
      naming the supply exactly when that is gone. */
  lemma GrantsTheLargestAdmissible(d: Drop, r: Request, maxSupply: nat)
    ensures var v := Check(d, r, maxSupply);
            if v.Ok? then
              Admissible(d, r, v.quantity, maxSupply) &&
              forall q :: Admissible(d, r, q, maxSupply) ==> q <= v.quantity
            else
              forall q :: !Admissible(d, r, q, maxSupply)
    ensures Check(d, r, maxSupply).MintedOut? <==> maxSupply > 0 && d.supply >= maxSupply
    ensures Check(d, r, maxSupply).AllowanceExhausted? ==> r.cap == Some(Check(d, r, maxSupply).cap)
  {
  }

  /** What is granted is minted, to that wallet and nobody else. */
  lemma MintsWhatIsGranted(d: Drop, r: Request, maxSupply: nat, wallet: nat)
    ensures var v, d' := Check(d, r, maxSupply), MintStep(d, r, maxSupply);
            var granted := if v.Ok? then v.quantity else 0;
            && d'.supply == d.supply + granted
            && MintedBy(d', wallet) == MintedBy(d, wallet) + if wallet == r.wallet then granted else 0
  {
  }

  function TotalMinted(d: Drop, wallets: seq<nat>): nat {
    if wallets == [] then 0 else MintedBy(d, wallets[0]) + TotalMinted(d, wallets[1..])
  }

  ghost predicate NoRepeats(wallets: seq<nat>) {
    forall i, j :: 0 <= i < j < |wallets| ==> wallets[i] != wallets[j]
  }

  lemma {:induction false} MintingCountsOnce(d: Drop, r: Request, maxSupply: nat, wallets: seq<nat>)
    requires NoRepeats(wallets)
    ensures var d' := MintStep(d, r, maxSupply);
            TotalMinted(d', wallets) - TotalMinted(d, wallets) ==
            if r.wallet in wallets then d'.supply - d.supply else 0
    decreases |wallets|
  {
    if wallets != [] {
      var tail := wallets[1..];
      assert forall i :: 0 <= i < |tail| ==> tail[i] == wallets[i + 1];
      MintingCountsOnce(d, r, maxSupply, tail);
      assert wallets[0] !in tail;
      assert r.wallet in wallets <==> r.wallet == wallets[0] || r.wallet in tail;
    }
  }

  /** Over any order of wallets, stages and caps, known or not, the supply is never exceeded and every
      token minted is on some wallet's account: nothing is lost between the two counters. */
  lemma {:induction false} SupplyIsConserved(d: Drop, requests: seq<Request>, maxSupply: nat, wallets: seq<nat>)
    requires NoRepeats(wallets) && forall r :: r in requests ==> r.wallet in wallets
    ensures var d' := MintAll(d, requests, maxSupply);
            && d.supply <= d'.supply
            && (maxSupply > 0 ==> d'.supply <= Max(maxSupply, d.supply))
            && TotalMinted(d', wallets) - TotalMinted(d, wallets) == d'.supply - d.supply
    decreases |requests|
  {
    if requests != [] {
      MintingCountsOnce(d, requests[0], maxSupply, wallets);
      SupplyIsConserved(MintStep(d, requests[0], maxSupply), requests[1..], maxSupply, wallets);
    }
  }

  /** The largest cap a wallet's requests were checked against, or what it had to begin with. */
  function LargestCap(requests: seq<Request>, wallet: nat, minted: int): int
    decreases |requests|
  {
    if requests == [] then minted
    else
      var r := requests[0];
      LargestCap(requests[1..], wallet,
                 if r.wallet == wallet && r.cap.Some? then Max(minted, r.cap.value) else minted)
  }

  lemma {:induction false} LargestCapGrows(requests: seq<Request>, wallet: nat, a: int, b: int)
    requires a <= b
    ensures b <= LargestCap(requests, wallet, b) && LargestCap(requests, wallet, a) <= LargestCap(requests, wallet, b)
    decreases |requests|
  {
    if requests != [] {
      var r := requests[0];
      var capped := r.wallet == wallet && r.cap.Some?;
      LargestCapGrows(requests[1..], wallet, if capped then Max(a, r.cap.value) else a,
                      if capped then Max(b, r.cap.value) else b);
    }
  }

  /** However the phases' caps differ, and in whatever order the wallets come, a wallet whose requests all have a
      known cap ends at or below the largest of them (or where it began), and a wallet that does not
      ask keeps what it has. */
  lemma {:induction false} NoWalletPassesItsCaps(d: Drop, requests: seq<Request>, maxSupply: nat, wallet: nat)
    requires forall r :: r in requests && r.wallet == wallet ==> r.cap.Some?
    ensures var d' := MintAll(d, requests, maxSupply);
            && MintedBy(d, wallet) <= MintedBy(d', wallet) <= LargestCap(requests, wallet, MintedBy(d, wallet))
            && ((forall r :: r in requests ==> r.wallet != wallet) ==> MintedBy(d', wallet) == MintedBy(d, wallet))
    decreases |requests|
  {
    if requests != [] {
      var r := requests[0];
      var d1 := MintStep(d, r, maxSupply);
      NoWalletPassesItsCaps(d1, requests[1..], maxSupply, wallet);
      LargestCapGrows(requests[1..], wallet, MintedBy(d1, wallet),
                      if r.wallet == wallet then Max(MintedBy(d, wallet), r.cap.value) else MintedBy(d, wallet));
      assert r.wallet == wallet || MintedBy(d1, wallet) == MintedBy(d, wallet);
    }
  }
}
