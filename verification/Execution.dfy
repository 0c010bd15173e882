/** May this plan fire right now (packages/core/src/execution.ts), and what the answer guarantees
    about the money a plan can spend, for a caller that passes the plan's total so far and for the
    worker, which passes zero (apps/worker/src/workers/execution.ts). */
module Execution {
  import opened Arithmetic
  import opened Wrappers

  datatype MintPlanStatus = Draft | Armed | Executing | Executed | Expired | Cancelled | Failed

  datatype FireCheck = FireCheck(status: MintPlanStatus, armedUntil: Option<int>, signerCeilingWei: int,
                                 perPlanCeilingWei: int, spentWei: int, txValueWei: int)

  datatype Refusal =
    | NotArmed | NoArmWindow | WindowExpired | CeilingNotPositive | CeilingAboveSigner | CeilingReached
    | ValueAboveCeiling

  function CanFireMintPlan(input: FireCheck, now: int): Option<Refusal> {
    if input.status != Armed then Some(NotArmed)
    else if input.armedUntil.None? then Some(NoArmWindow)
    else if input.armedUntil.value <= now then Some(WindowExpired)
    else if input.perPlanCeilingWei <= 0 then Some(CeilingNotPositive)
    else if input.perPlanCeilingWei > input.signerCeilingWei then Some(CeilingAboveSigner)
    else if input.spentWei >= input.perPlanCeilingWei then Some(CeilingReached)
    else if input.spentWei + input.txValueWei > input.perPlanCeilingWei then Some(ValueAboveCeiling)
    else None
  }

  /** A plan may fire exactly when it is armed, its window is open, its own ceiling is positive and
      within the signer's, and what it spends stays within its own; a refusal names the first of these
      that fails. */
  lemma RefusalsNameWhatFails(input: FireCheck, now: int)
    ensures CanFireMintPlan(input, now).None? <==>
            && input.status == Armed && input.armedUntil.Some? && now < input.armedUntil.value
            && 0 < input.perPlanCeilingWei <= input.signerCeilingWei
            && input.spentWei < input.perPlanCeilingWei
            && input.spentWei + input.txValueWei <= input.perPlanCeilingWei
    ensures var inWindow := input.status == Armed && input.armedUntil.Some? && now < input.armedUntil.value;
            match CanFireMintPlan(input, now)
            case None => true
            case Some(NotArmed) => input.status != Armed
            case Some(NoArmWindow) => input.status == Armed && input.armedUntil.None?
            case Some(WindowExpired) => input.status == Armed && input.armedUntil.Some? && input.armedUntil.value <= now
            case Some(CeilingNotPositive) => inWindow && input.perPlanCeilingWei <= 0
            case Some(CeilingAboveSigner) => inWindow && Max(0, input.signerCeilingWei) < input.perPlanCeilingWei
            case Some(CeilingReached) => inWindow && 0 < input.perPlanCeilingWei <= input.spentWei
            case Some(ValueAboveCeiling) =>
              && inWindow && input.spentWei < input.perPlanCeilingWei
              && input.perPlanCeilingWei - input.spentWei < input.txValueWei
  {
  }

  /** An attempt to broadcast a transaction of some value at some time, under the plan's facts then. */
  datatype Attempt = Attempt(now: int, txValueWei: nat, status: MintPlanStatus, armedUntil: Option<int>)

  datatype Ceilings = Ceilings(plan: int, signer: int)

  predicate Allowed(a: Attempt, c: Ceilings, spent: int) {
    CanFireMintPlan(FireCheck(a.status, a.armedUntil, c.signer, c.plan, spent, a.txValueWei), a.now).None?
  }

  // ----- A caller that passes the total so far -----

  /** What a plan has spent after a run of attempts that are broadcast exactly when allowed. */
  function SpendWithTotal(attempts: seq<Attempt>, c: Ceilings, spent: int): int
    decreases |attempts|
  {
    if attempts == [] then spent
    else
      SpendWithTotal(attempts[1..], c, if Allowed(attempts[0], c, spent) then spent + attempts[0].txValueWei else spent)
  }

  /** If every check is given the total spent so far, as the field is documented, a plan spends no more
      than its own ceiling however often it is tried, and nothing at all under a ceiling that is not
      positive or exceeds the signer's. */
  lemma {:induction false} SpendingStaysUnderTheCeiling(attempts: seq<Attempt>, c: Ceilings, spent: nat)
    requires spent <= c.plan || spent == 0
    ensures var total := SpendWithTotal(attempts, c, spent);
            && spent <= total
            && (total <= c.plan || total == spent)
            && (total > spent ==> 0 < c.plan <= c.signer)
    decreases |attempts|
  {
    if attempts != [] {
      SpendingStaysUnderTheCeiling(attempts[1..], c,
                                   if Allowed(attempts[0], c, spent) then spent + attempts[0].txValueWei else spent);
    }
  }

  // ----- The worker, which passes zero every time -----

  function SpendAsWired(attempts: seq<Attempt>, c: Ceilings): nat
    decreases |attempts|
  {
    if attempts == [] then 0
    else (if Allowed(attempts[0], c, 0) then attempts[0].txValueWei else 0) + SpendAsWired(attempts[1..], c)
  }

  function AllowedCount(attempts: seq<Attempt>, c: Ceilings): nat
    decreases |attempts|
  {
    if attempts == [] then 0 else (if Allowed(attempts[0], c, 0) then 1 else 0) + AllowedCount(attempts[1..], c)
  }

  /** Each attempt stays under the ceiling, so k allowed attempts spend at most k ceilings. */
  lemma {:induction false} EachAttemptStaysUnderTheCeiling(attempts: seq<Attempt>, c: Ceilings)
    ensures forall a :: a in attempts && Allowed(a, c, 0) ==> a.txValueWei <= c.plan <= c.signer
    ensures SpendAsWired(attempts, c) <= AllowedCount(attempts, c) * Max(c.plan, 0)
    decreases |attempts|
  {
    if attempts != [] {
      EachAttemptStaysUnderTheCeiling(attempts[1..], c);
      if Allowed(attempts[0], c, 0) {
        assert AllowedCount(attempts, c) * Max(c.plan, 0) ==
               Max(c.plan, 0) + AllowedCount(attempts[1..], c) * Max(c.plan, 0);
      }
    }
  }

  lemma {:induction false} TotalAndWired(attempts: seq<Attempt>, c: Ceilings, spent: nat)
    requires spent <= Max(c.plan, 0)
    ensures var total, wired := SpendWithTotal(attempts, c, spent), SpendAsWired(attempts, c);
            spent + wired <= Max(c.plan, 0) <==> total == spent + wired
    decreases |attempts|
  {
    SpendingStaysUnderTheCeiling(attempts, c, spent);
    if attempts != [] {
      var value := if Allowed(attempts[0], c, 0) then attempts[0].txValueWei else 0;
      if spent + value <= Max(c.plan, 0) {
        TotalAndWired(attempts[1..], c, spent + value);
      }
    }
  }

  /** Passing zero is harmless exactly when the total stays under the ceiling anyway: then, and only
      then, passing the real total would have spent the same. */
  lemma ZeroIsHarmlessIffTheTotalFits(attempts: seq<Attempt>, c: Ceilings)
    ensures SpendAsWired(attempts, c) <= Max(c.plan, 0) <==>
            SpendAsWired(attempts, c) == SpendWithTotal(attempts, c, 0)
  {
    TotalAndWired(attempts, c, 0);
  }

  predicate WorthAtMost(attempts: seq<Attempt>, v: nat) {
    forall a :: a in attempts ==> a.txValueWei <= v
  }

  lemma {:induction false} SpendAtMost(attempts: seq<Attempt>, c: Ceilings, v: nat)
    requires WorthAtMost(attempts, v)
    ensures SpendAsWired(attempts, c) <= AllowedCount(attempts, c) * v
    decreases |attempts|
  {
    if attempts != [] {
      SpendAtMost(attempts[1..], c, v);
      var fires := if Allowed(attempts[0], c, 0) then 1 else 0;
      assert AllowedCount(attempts, c) * v == fires * v + AllowedCount(attempts[1..], c) * v;
      assert attempts[0] in attempts;
    }
  }

  /** With zero passed, the ceiling bounds the total of every run of k allowed attempts worth at most v
      each, if and only if k times v fits under it. */
  lemma CeilingBoundsTheTotalIffItFits(k: nat, v: nat, c: Ceilings, now: int, armedUntil: int)
    requires 0 < c.plan <= c.signer && v <= c.plan && now < armedUntil
    ensures (forall attempts :: WorthAtMost(attempts, v) && AllowedCount(attempts, c) == k ==>
               SpendAsWired(attempts, c) <= c.plan)
            <==> k * v <= c.plan
  {
    if k * v <= c.plan {
      forall attempts | WorthAtMost(attempts, v) && AllowedCount(attempts, c) == k
        ensures SpendAsWired(attempts, c) <= c.plan
      {
        SpendAtMost(attempts, c, v);
      }
    } else {
      var attempts := FullAttempts(k, v, c, now, armedUntil);
    }
  }

  /** Whatever the values are, the ceiling bounds the total of k allowed attempts, if and only if there
      is at most one of them: two attempts worth the ceiling each are both allowed. */
  lemma CeilingBoundsTheTotalIffAtMostOneFires(k: nat, c: Ceilings, now: int, armedUntil: int)
    requires 0 < c.plan <= c.signer && now < armedUntil
    ensures (forall attempts :: AllowedCount(attempts, c) == k ==> SpendAsWired(attempts, c) <= c.plan) <==> k <= 1
  {
    if k <= 1 {
      forall attempts | AllowedCount(attempts, c) == k
        ensures SpendAsWired(attempts, c) <= c.plan
      {
        EachAttemptStaysUnderTheCeiling(attempts, c);
        assert k * Max(c.plan, 0) <= c.plan;
      }
    } else {
      var attempts := FullAttempts(k, c.plan, c, now, armedUntil);
      assert k * c.plan >= 2 * c.plan;
    }
  }

  lemma {:induction false} FullAttempts(k: nat, v: nat, c: Ceilings, now: int, armedUntil: int)
    returns (attempts: seq<Attempt>)
    requires 0 < c.plan <= c.signer && v <= c.plan && now < armedUntil
    ensures WorthAtMost(attempts, v) && AllowedCount(attempts, c) == k && SpendAsWired(attempts, c) == k * v
    decreases k
  {
    attempts := [];
    if k > 0 {
      var rest := FullAttempts(k - 1, v, c, now, armedUntil);
      attempts := [Attempt(now, v, Armed, Some(armedUntil))] + rest;
      assert attempts[1..] == rest;
      assert k * v == v + (k - 1) * v;
    }
  }

  /** Nothing is broadcast outside the arm window, whichever total is passed. */
  lemma {:induction false} NothingFiresOutsideTheWindow(attempts: seq<Attempt>, c: Ceilings, spent: int)
    requires forall a :: a in attempts ==> a.status != Armed || a.armedUntil.None? || a.armedUntil.value <= a.now
    ensures SpendWithTotal(attempts, c, spent) == spent && SpendAsWired(attempts, c) == 0
    decreases |attempts|
  {
    if attempts != [] {
      NothingFiresOutsideTheWindow(attempts[1..], c, spent);
    }
  }
}
