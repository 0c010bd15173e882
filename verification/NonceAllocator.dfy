/** Per-wallet nonce reservation (apps/worker/src/nonce-allocator.ts): reservations that expire,
    and a pool of returned nonces that is reused first. */
module NonceAllocator {
  import opened Arithmetic
  import opened StableSort
  import opened Text
  import opened Wrappers

  const RESERVATION_TTL_MS := 60_000

  datatype Reservation = Reservation(nonce: nat, atMs: int)

  /** What the two module maps hold for one wallet. */
  datatype Wallet = Wallet(held: Option<Reservation>, pool: seq<nat>)

  const UNTOUCHED := Wallet(None, [])

  function Self(n: nat): int { n }

  function AtLeast(pool: seq<nat>, floor: nat): seq<nat> {
    if pool == [] then []
    else (if pool[0] >= floor then [pool[0]] else []) + AtLeast(pool[1..], floor)
  }

  /** The returned nonces the chain has not passed, least first. */
  function Eligible(pool: seq<nat>, floor: nat): seq<nat> {
    SortBy<nat>(AtLeast(pool, floor), Self)
  }

  predicate Usable(held: Option<Reservation>, now: int) {
    held.Some? && now - held.value.atMs <= RESERVATION_TTL_MS
  }

  function Highest(held: Option<Reservation>): int {
    if held.Some? then held.value.nonce else -1
  }

  /** `reserveNonce` on one wallet: the nonce handed out and the new state. */
  function ReserveStep(w: Wallet, rpcNonce: nat, now: int): (nat, Wallet) {
    var pool := Eligible(w.pool, rpcNonce);
    if pool != [] then
      var reuse := pool[0];
      (reuse, Wallet(if !Usable(w.held, now) || reuse > Highest(w.held) then Some(Reservation(reuse, now)) else w.held,
                     pool[1..]))
    else
      var next := if Usable(w.held, now) && rpcNonce <= w.held.value.nonce then w.held.value.nonce + 1 else rpcNonce;
      (next, Wallet(Some(Reservation(next, now)), pool))
  }

  /** `releaseNonce` on one wallet. */
  function ReleaseStep(w: Wallet, nonce: nat): Wallet {
    Wallet(if w.held.Some? && w.held.value.nonce == nonce then None else w.held,
           if nonce > Highest(w.held) || nonce in w.pool then w.pool else w.pool + [nonce])
  }

  // ----- The two module maps -----

  function LowerUnit(c: Unit): Unit {
    if 65 <= c <= 90 then c + 32 else c
  }

  /** Addresses are hexadecimal, so lower-casing is the ASCII one. */
  function Key(walletAddress: JsString): JsString {
    seq(|walletAddress|, i requires 0 <= i < |walletAddress| => LowerUnit(walletAddress[i]))
  }

  /** Two spellings share a wallet's state exactly when they differ in the case of letters only. */
  lemma KeysIgnoreCase(a: JsString, b: JsString)
    ensures Key(a) == Key(b) <==>
            |a| == |b| && forall i :: 0 <= i < |a| ==>
              a[i] == b[i] || (65 <= a[i] <= 90 && b[i] == a[i] + 32) || (65 <= b[i] <= 90 && a[i] == b[i] + 32)
  {
    assert |Key(a)| == |a| && |Key(b)| == |b|;
    if |a| == |b| {
      assert forall i :: 0 <= i < |a| ==> Key(a)[i] == LowerUnit(a[i]) && Key(b)[i] == LowerUnit(b[i]);
      assert Key(a) == Key(b) <==> forall i :: 0 <= i < |a| ==> LowerUnit(a[i]) == LowerUnit(b[i]);
    }
  }

  class Allocator {
    var reservations: map<JsString, Reservation>
    var freed: map<JsString, seq<nat>>

    constructor ()
      ensures forall k :: WalletAt(k) == UNTOUCHED
    {
      reservations, freed := map[], map[];
    }

    function WalletAt(k: JsString): Wallet
      reads this
    {
      Wallet(if k in reservations then Some(reservations[k]) else None,
             if k in freed then freed[k] else [])
    }

    method ReserveNonce(walletAddress: JsString, rpcNonce: nat, now: int) returns (nonce: nat)
      modifies this
      ensures (nonce, WalletAt(Key(walletAddress))) ==
              ReserveStep(old(WalletAt(Key(walletAddress))), rpcNonce, now)
      ensures forall k :: k != Key(walletAddress) ==> WalletAt(k) == old(WalletAt(k))
    {
      var k := Key(walletAddress);
      var held := if k in reservations then Some(reservations[k]) else None;
      var usable := held.Some? && now - held.value.atMs <= RESERVATION_TTL_MS;
      var pool := Eligible(if k in freed then freed[k] else [], rpcNonce);
      if pool != [] {
        var reuse := pool[0];
        freed := freed[k := pool[1..]];
        if !usable || reuse > Highest(held) {
          reservations := reservations[k := Reservation(reuse, now)];
        }
        return reuse;
      }
      freed := freed[k := pool];
      var next := if usable && held.value.nonce + 1 > rpcNonce then held.value.nonce + 1 else rpcNonce;
      reservations := reservations[k := Reservation(next, now)];
      return next;
    }

    method ReleaseNonce(walletAddress: JsString, nonce: nat)
      modifies this
      ensures WalletAt(Key(walletAddress)) == ReleaseStep(old(WalletAt(Key(walletAddress))), nonce)
      ensures forall k :: k != Key(walletAddress) ==> WalletAt(k) == old(WalletAt(k))
    {
      var k := Key(walletAddress);
      var held := if k in reservations then Some(reservations[k]) else None;
      if held.Some? && held.value.nonce == nonce {
        reservations := reservations - {k};
      }
      if nonce > Highest(held) {
        return;
      }
      var pool := if k in freed then freed[k] else [];
      if nonce !in pool {
        freed := freed[k := pool + [nonce]];
      }
    }
  }

  // ----- One wallet over a run -----

  datatype Op = Reserve(rpcNonce: nat, now: int) | Release(nonce: nat)

  /** A wallet together with what its callers know: the nonces held, once per holder, the highest
      ever handed out (-1 if none) and the highest report the RPC has made. */
  datatype Tracked = Tracked(w: Wallet, out: multiset<nat>, high: int, report: nat)

  const START := Tracked(UNTOUCHED, multiset{}, -1, 0)

  function Answer(t: Tracked, rpcNonce: nat, now: int): nat {
    ReserveStep(t.w, rpcNonce, now).0
  }

  function Step(t: Tracked, op: Op): Tracked {
    match op
    case Reserve(rpcNonce, now) =>
      var (n, w) := ReserveStep(t.w, rpcNonce, now);
      Tracked(w, t.out + multiset{n}, Max(t.high, n), if t.report < rpcNonce then rpcNonce else t.report)
    case Release(nonce) =>
      t.(w := ReleaseStep(t.w, nonce), out := t.out - multiset{nonce})
  }

  function Run(t: Tracked, ops: seq<Op>): Tracked
    decreases |ops|
  {
    if ops == [] then t else Run(Step(t, ops[0]), ops[1..])
  }

  /** Only a holder of a nonce returns it, once. */
  ghost predicate Orderly(t: Tracked, ops: seq<Op>)
    decreases |ops|
  {
    ops != [] ==>
      && (ops[0].Release? ==> ops[0].nonce in t.out)
      && Orderly(Step(t, ops[0]), ops[1..])
  }

  /** All reserves fall within one expiry period. */
  ghost predicate WithinExpiry(ops: seq<Op>, t0: int) {
    forall op :: op in ops && op.Reserve? ==> t0 <= op.now <= t0 + 60_000
  }

  /** No reservation of the run hands out a nonce somebody still holds. */
  ghost predicate NeverDoubled(t: Tracked, ops: seq<Op>)
    decreases |ops|
  {
    ops != [] ==>
      && (ops[0].Reserve? ==> Answer(t, ops[0].rpcNonce, ops[0].now) !in t.out)
      && NeverDoubled(Step(t, ops[0]), ops[1..])
  }

  ghost predicate NoRepeats(pool: seq<nat>) {
    forall n: nat :: multiset(pool)[n] <= 1
  }

  /** What every orderly run keeps, at any times: no nonce is pooled twice, and nothing pooled, held
      or reserved is above the highest nonce handed out. */
  ghost predicate Bounded(t: Tracked) {
    && NoRepeats(t.w.pool)
    && (forall n :: n in t.w.pool || n in t.out ==> n <= t.high)
    && (t.high < 0 ==> t.w.held.None?)
    && Highest(t.w.held) <= t.high
    && (t.report <= t.high || (t.high < 0 && t.report == 0))
  }

  /** Nothing has been doubled: one holder per nonce, and none of them is pooled. */
  ghost predicate Distinct(t: Tracked) {
    forall n :: n in t.out ==> t.out[n] == 1 && n !in t.w.pool
  }

  /** n is at or below the reservation, or below a pooled nonce. */
  ghost predicate Below(w: Wallet, n: nat) {
    n <= Highest(w.held) || exists p :: p in w.pool && n < p
  }

  /** So for every held nonce: no mint can reach it. */
  ghost predicate Guarded(t: Tracked) {
    forall n :: n in t.out ==> Below(t.w, n)
  }

  // ----- Facts about the filtered, sorted pool -----

  lemma {:induction false} AtLeastCounts(pool: seq<nat>, floor: nat, n: nat)
    ensures multiset(AtLeast(pool, floor))[n] == if n >= floor then multiset(pool)[n] else 0
  {
    if pool != [] {
      AtLeastCounts(pool[1..], floor, n);
      assert pool == [pool[0]] + pool[1..];
    }
  }

  lemma SortedCounts(pool: seq<nat>, floor: nat, n: nat)
    ensures var sorted := Eligible(pool, floor);
            && multiset(sorted)[n] == (if n >= floor then multiset(pool)[n] else 0)
            && (n in sorted <==> n in pool && n >= floor)
  {
    SortBySorts<nat>(AtLeast(pool, floor), Self);
    AtLeastCounts(pool, floor, n);
    var sorted := Eligible(pool, floor);
    assert n in sorted <==> n in multiset(sorted);
    assert n in pool <==> n in multiset(pool);
  }

  lemma LeastFirst(sorted: seq<nat>)
    requires sorted != [] && Ascending<nat>(sorted, Self)
    ensures forall n :: n in sorted ==> sorted[0] <= n
  {
  }

  lemma TailWithoutHead(sorted: seq<nat>)
    requires sorted != [] && NoRepeats(sorted)
    ensures NoRepeats(sorted[1..])
    ensures forall n :: n in sorted[1..] <==> n in sorted && n != sorted[0]
  {
    var rest: seq<nat> := sorted[1..];
    assert sorted == [sorted[0]] + rest;
    var all: multiset<nat>, others: multiset<nat> := multiset(sorted), multiset(rest);
    assert all == multiset{sorted[0]} + others;
    forall n: nat
      ensures others[n] <= 1
      ensures n in rest <==> n in sorted && n != sorted[0]
    {
      assert all[n] <= 1;
      assert n in rest <==> n in multiset(rest);
      assert n in sorted <==> n in multiset(sorted);
    }
  }

  lemma SortedPool(pool: seq<nat>, floor: nat)
    requires NoRepeats(pool)
    ensures var sorted := Eligible(pool, floor);
            && NoRepeats(sorted)
            && (forall n :: n in sorted <==> n in pool && n >= floor)
            && (sorted != [] ==>
              && (forall n :: n in sorted ==> sorted[0] <= n)
              && NoRepeats(sorted[1..])
              && (forall n :: n in sorted[1..] <==> n in sorted && n != sorted[0]))
  {
    var sorted := Eligible(pool, floor);
    SortBySorts<nat>(AtLeast(pool, floor), Self);
    var counts: multiset<nat> := multiset(sorted);
    forall n: nat
      ensures counts[n] <= 1
      ensures n in sorted <==> n in pool && n >= floor
    {
      SortedCounts(pool, floor, n);
    }
    if sorted != [] {
      LeastFirst(sorted);
      TailWithoutHead(sorted);
    }
  }

  // ----- Refinement of a simple allocator -----

  /** The allocator the callers can reason about: returned nonces and a high-water mark. */
  datatype Simple = Simple(pool: set<nat>, high: int)

  ghost function Abstraction(t: Tracked): Simple {
    Simple((set n | n in t.w.pool), t.high)
  }

  /** The least returned nonce the chain has not passed, or else one past everything handed out. */
  ghost predicate SimpleReserve(s: Simple, rpcNonce: nat, n: nat, s': Simple) {
    var eligible := set p | p in s.pool && p >= rpcNonce;
    if eligible != {} then
      n in eligible && (forall p :: p in eligible ==> n <= p) && s' == Simple(eligible - {n}, s.high)
    else
      n == Max(rpcNonce, s.high + 1) && s' == Simple({}, n)
  }

  /** At any time, a failed sibling's hole is filled before a new nonce is minted: the least returned
      nonce the chain has not passed is handed out, and the rest of those stay pooled. */
  lemma PooledNonceFirst(w: Wallet, rpcNonce: nat, now: int)
    requires NoRepeats(w.pool)
    ensures var (n, w') := ReserveStep(w, rpcNonce, now);
            && n >= rpcNonce
            && (forall p :: p in w'.pool <==> p in w.pool && p >= rpcNonce && p != n)
            && NoRepeats(w'.pool)
            && if exists p :: p in w.pool && p >= rpcNonce then
                 n in w.pool && forall p :: p in w.pool && p >= rpcNonce ==> n <= p
               else
                 n == if Usable(w.held, now) then Max(rpcNonce, w.held.value.nonce + 1) else rpcNonce
  {
    SortedPool(w.pool, rpcNonce);
    var sorted := Eligible(w.pool, rpcNonce);
    if sorted != [] {
      assert sorted[0] in sorted;
    }
  }

  /** The highest nonce handed out is the reservation, or is pooled. */
  ghost predicate TopInReach(t: Tracked) {
    t.high >= 0 ==> Highest(t.w.held) == t.high || t.high in t.w.pool
  }

  ghost predicate Inv(t: Tracked) {
    Bounded(t) && Distinct(t) && TopInReach(t)
  }

  ghost predicate Recent(w: Wallet, t0: int) {
    w.held.Some? ==> t0 <= w.held.value.atMs <= t0 + 60_000
  }

  /** Within the expiry period, reservations and their timestamps do not matter: a reserve is a
      step of the simple allocator. */
  lemma ReserveRefinesSimple(t: Tracked, rpcNonce: nat, now: int, t0: int)
    requires Inv(t) && Recent(t.w, t0) && t0 <= now <= t0 + 60_000
    ensures SimpleReserve(Abstraction(t), rpcNonce, Answer(t, rpcNonce, now),
                          Abstraction(Step(t, Reserve(rpcNonce, now))))
  {
    hide ReserveStep;
    PooledNonceFirst(t.w, rpcNonce, now);
    var n, t' := Answer(t, rpcNonce, now), Step(t, Reserve(rpcNonce, now));
    var eligible := set p | p in Abstraction(t).pool && p >= rpcNonce;
    assert forall p: nat :: p in eligible <==> p in t.w.pool && p >= rpcNonce;
    if eligible == {} {
      assert t.high >= 0 && t.high in t.w.pool ==> t.high < rpcNonce;
      assert Abstraction(t').pool == {};
    } else {
      assert n in eligible;
      assert Abstraction(t').pool == eligible - {n};
    }
  }

  lemma ReserveKeepsBounded(t: Tracked, rpcNonce: nat, now: int)
    requires Bounded(t)
    ensures Bounded(Step(t, Reserve(rpcNonce, now)))
    ensures Distinct(t) && Answer(t, rpcNonce, now) !in t.out ==> Distinct(Step(t, Reserve(rpcNonce, now)))
  {
    PooledNonceFirst(t.w, rpcNonce, now);
  }

  lemma ReleaseKeepsBounded(t: Tracked, nonce: nat)
    requires Bounded(t) && nonce in t.out
    ensures Bounded(Step(t, Release(nonce)))
    ensures Distinct(t) ==> Distinct(Step(t, Release(nonce)))
  {
    var pool := t.w.pool;
    assert multiset(pool + [nonce]) == multiset(pool) + multiset{nonce};
    assert nonce in pool <==> nonce in multiset(pool);
  }

  lemma ReserveKeepsInv(t: Tracked, rpcNonce: nat, now: int, t0: int)
    requires Inv(t) && Recent(t.w, t0) && t0 <= now <= t0 + 60_000
    ensures Answer(t, rpcNonce, now) !in t.out
    ensures Inv(Step(t, Reserve(rpcNonce, now))) && Recent(Step(t, Reserve(rpcNonce, now)).w, t0)
  {
    PooledNonceFirst(t.w, rpcNonce, now);
    ReserveKeepsBounded(t, rpcNonce, now);
    if t.high >= 0 && t.high in t.w.pool && !(exists p :: p in t.w.pool && p >= rpcNonce) {
      assert t.high < rpcNonce;
    }
  }

  lemma ReleaseKeepsInv(t: Tracked, nonce: nat, t0: int)
    requires Inv(t) && Recent(t.w, t0) && nonce in t.out
    ensures Inv(Step(t, Release(nonce))) && Recent(Step(t, Release(nonce)).w, t0)
  {
    ReleaseKeepsBounded(t, nonce);
  }

  lemma {:induction false} RunKeepsInv(t: Tracked, ops: seq<Op>, t0: int)
    requires Inv(t) && Recent(t.w, t0) && Orderly(t, ops) && WithinExpiry(ops, t0)
    ensures NeverDoubled(t, ops) && Inv(Run(t, ops)) && Recent(Run(t, ops).w, t0)
    decreases |ops|
  {
    if ops != [] {
      match ops[0] {
        case Reserve(rpcNonce, now) => ReserveKeepsInv(t, rpcNonce, now, t0);
        case Release(nonce) => ReleaseKeepsInv(t, nonce, t0);
      }
      RunKeepsInv(Step(t, ops[0]), ops[1..], t0);
    }
  }

  /** In every run of reserves and holder-only releases within one expiry period, whatever the RPC
      reports, no two callers hold the same nonce. */
  lemma NoncesStayDistinct(ops: seq<Op>, t0: int)
    requires Orderly(START, ops) && WithinExpiry(ops, t0)
    ensures NeverDoubled(START, ops)
  {
    RunKeepsInv(START, ops, t0);
  }

  // ----- A window that slides -----

  /** A reserve that mints stamps its nonce: for exactly a minute from then on, a reserve that finds
      nothing usable pooled and a report not ahead counts on from it. */
  lemma MintLastsAMinute(t: Tracked, rpcNonce: nat, now: int, report: nat, later: int)
    requires forall p :: p in t.w.pool ==> p < rpcNonce
    requires report <= Answer(t, rpcNonce, now)
    ensures var n, t' := Answer(t, rpcNonce, now), Step(t, Reserve(rpcNonce, now));
            && Answer(t', report, later) == (if later - now <= 60_000 then n + 1 else report)
            && (Answer(t', report, later) == n + 1 <==> later - now <= 60_000)
  {
    NothingEligible(t.w.pool, rpcNonce);
    assert Eligible([], report) == [];
  }

  lemma {:induction false} NothingEligible(pool: seq<nat>, floor: nat)
    requires forall p :: p in pool ==> p < floor
    ensures Eligible(pool, floor) == []
  {
    if pool != [] {
      assert pool[0] in pool;
      assert forall p :: p in pool[1..] ==> p in pool;
      NothingEligible(pool[1..], floor);
    }
  }

  /** Every reserve comes at most a minute after the highest nonce so far was last handed out. */
  ghost predicate Sliding(t: Tracked, ops: seq<Op>, topAt: Option<int>)
    decreases |ops|
  {
    ops != [] ==>
      match ops[0]
      case Release(_) => Sliding(Step(t, ops[0]), ops[1..], topAt)
      case Reserve(rpcNonce, now) =>
        && (topAt.Some? ==> now - topAt.value <= 60_000)
        && Sliding(Step(t, ops[0]), ops[1..], if Answer(t, rpcNonce, now) >= t.high then Some(now) else topAt)
  }

  /** A reservation of the highest nonce is as old as its last hand-out, and that nonce is not pooled. */
  ghost predicate Stamped(t: Tracked, topAt: Option<int>) {
    && (t.high >= 0 ==> topAt.Some?)
    && (t.w.held.Some? && t.w.held.value.nonce == t.high ==>
          topAt == Some(t.w.held.value.atMs) && t.high !in t.w.pool)
  }

  lemma SlidingReserve(t: Tracked, rpcNonce: nat, now: int, topAt: Option<int>)
    requires Inv(t) && Stamped(t, topAt) && (topAt.Some? ==> now - topAt.value <= 60_000)
    ensures Answer(t, rpcNonce, now) !in t.out
    ensures Inv(Step(t, Reserve(rpcNonce, now)))
    ensures Stamped(Step(t, Reserve(rpcNonce, now)), if Answer(t, rpcNonce, now) >= t.high then Some(now) else topAt)
  {
    PooledNonceFirst(t.w, rpcNonce, now);
    ReserveKeepsBounded(t, rpcNonce, now);
    if t.high >= 0 && t.high in t.w.pool && !(exists p :: p in t.w.pool && p >= rpcNonce) {
      assert t.high < rpcNonce;
    }
  }

  lemma {:induction false} SlidingRun(t: Tracked, ops: seq<Op>, topAt: Option<int>)
    requires Inv(t) && Stamped(t, topAt) && Orderly(t, ops) && Sliding(t, ops, topAt)
    ensures NeverDoubled(t, ops)
    decreases |ops|
  {
    if ops != [] {
      match ops[0] {
        case Reserve(rpcNonce, now) =>
          SlidingReserve(t, rpcNonce, now, topAt);
          SlidingRun(Step(t, ops[0]), ops[1..], if Answer(t, rpcNonce, now) >= t.high then Some(now) else topAt);
        case Release(nonce) =>
          ReleaseKeepsBounded(t, nonce);
          SlidingRun(Step(t, ops[0]), ops[1..], topAt);
      }
    }
  }

  /** In orderly runs of any length, no two callers hold the same nonce as long as no reserve comes more
      than a minute after the highest nonce so far was last handed out. */
  lemma NoncesStayDistinctWhileBusy(ops: seq<Op>)
    requires Orderly(START, ops) && Sliding(START, ops, None)
    ensures NeverDoubled(START, ops)
  {
    SlidingRun(START, ops, None);
  }

  // ----- Beyond the expiry period -----

  lemma {:induction false} UntilDoubled(t: Tracked, ops: seq<Op>)
    requires Bounded(t) && Distinct(t) && Orderly(t, ops) && NeverDoubled(t, ops)
    ensures Bounded(Run(t, ops)) && Distinct(Run(t, ops))
    decreases |ops|
  {
    if ops != [] {
      match ops[0] {
        case Reserve(rpcNonce, now) => ReserveKeepsBounded(t, rpcNonce, now);
        case Release(nonce) => ReleaseKeepsBounded(t, nonce);
      }
      UntilDoubled(Step(t, ops[0]), ops[1..]);
    }
  }

  /** After any orderly run that has doubled nothing, at any times, the next reserve doubles a nonce
      exactly when nothing usable is pooled and the nonce it would mint is held: the report itself
      once the reservation has expired (or there is none), the larger of the report and the
      reservation's successor while it is live. */
  lemma NextReserveDoublesExactly(ops: seq<Op>, rpcNonce: nat, now: int)
    requires Orderly(START, ops) && NeverDoubled(START, ops)
    ensures var t := Run(START, ops);
            Answer(t, rpcNonce, now) in t.out <==>
            && (forall p :: p in t.w.pool ==> p < rpcNonce)
            && (if Usable(t.w.held, now) then Max(rpcNonce, t.w.held.value.nonce + 1) else rpcNonce) in t.out
  {
    UntilDoubled(START, ops);
    PooledNonceFirst(Run(START, ops).w, rpcNonce, now);
  }

  predicate Expired(w: Wallet, now: int) {
    w.held.Some? && !Usable(w.held, now)
  }

  /** While the reservation is live, or there is none, no report at all can make the next reserve
      double a nonce, if and only if every held nonce is guarded. */
  lemma EveryReportIsSafeIffGuarded(t: Tracked, now: int)
    requires Bounded(t) && Distinct(t) && !Expired(t.w, now)
    ensures (forall rpcNonce :: Answer(t, rpcNonce, now) !in t.out) <==> Guarded(t)
  {
    if Guarded(t) {
      forall rpcNonce: nat
        ensures Answer(t, rpcNonce, now) !in t.out
      {
        PooledNonceFirst(t.w, rpcNonce, now);
        var n := Answer(t, rpcNonce, now);
        assert n in t.out ==> Below(t.w, n);
      }
    } else {
      var n :| n in t.out && !Below(t.w, n);
      PooledNonceFirst(t.w, n, now);
      assert Answer(t, n, now) == n;
    }
  }

  lemma LiveReserveKeepsGuard(t: Tracked, rpcNonce: nat, now: int)
    requires Bounded(t) && Distinct(t) && Guarded(t) && !Expired(t.w, now)
    ensures Answer(t, rpcNonce, now) !in t.out && Guarded(Step(t, Reserve(rpcNonce, now)))
  {
    EveryReportIsSafeIffGuarded(t, now);
    PooledNonceFirst(t.w, rpcNonce, now);
    var t' := Step(t, Reserve(rpcNonce, now));
    forall n | n in t'.out
      ensures Below(t'.w, n)
    {
      if n in t.out && n > Highest(t.w.held) {
        var p :| p in t.w.pool && n < p;
        assert p in t'.w.pool || p < rpcNonce || p == Answer(t, rpcNonce, now);
      }
    }
  }

  lemma ReleaseKeepsGuard(t: Tracked, nonce: nat)
    requires Bounded(t) && Distinct(t) && Guarded(t) && nonce in t.out
    ensures Guarded(Step(t, Release(nonce)))
  {
    var t' := Step(t, Release(nonce));
    forall n | n in t'.out
      ensures Below(t'.w, n)
    {
      assert Below(t.w, n);
      if n <= Highest(t.w.held) && t'.w.held.None? {
        assert n != nonce && nonce in t'.w.pool;
      } else if n > Highest(t.w.held) {
        var p :| p in t.w.pool && n < p;
        assert p in t'.w.pool;
      }
    }
  }

  /** Before the call: the chain has passed each nonce still held, or a higher one is pooled. */
  ghost predicate Clears(t: Tracked, rpcNonce: nat) {
    forall n :: n in t.out ==> n < rpcNonce || exists p :: p in t.w.pool && n < p
  }

  /** A reserve on an expired reservation doubles nothing and leaves every later report safe, if and
      only if the chain or the pool is ahead of every held nonce beforehand. */
  lemma ExpiredReserveIsSafeIffItClears(t: Tracked, rpcNonce: nat, now: int)
    requires Bounded(t) && Distinct(t) && Expired(t.w, now)
    ensures var t' := Step(t, Reserve(rpcNonce, now));
            Clears(t, rpcNonce) <==>
            && Answer(t, rpcNonce, now) !in t.out
            && Guarded(t')
            && forall later :: Answer(t', later, now) !in t'.out
  {
    PooledNonceFirst(t.w, rpcNonce, now);
    var answer, t' := Answer(t, rpcNonce, now), Step(t, Reserve(rpcNonce, now));
    assert t'.w.held == Some(Reservation(answer, now));
    if Clears(t, rpcNonce) {
      assert answer !in t.out;
      forall n | n in t'.out
        ensures Below(t'.w, n)
      {
        if n in t.out && n >= rpcNonce {
          var p :| p in t.w.pool && n < p;
          assert p == answer || p in t'.w.pool;
        }
      }
      ReserveKeepsBounded(t, rpcNonce, now);
      EveryReportIsSafeIffGuarded(t', now);
    } else if Guarded(t') && answer !in t.out {
      forall n | n in t.out
        ensures n < rpcNonce || exists p :: p in t.w.pool && n < p
      {
        assert n in t'.out && Below(t'.w, n);
        if n >= rpcNonce && n <= answer {
          assert answer in t.w.pool;
        } else if n > answer {
          var p :| p in t'.w.pool && n < p;
          assert p in t.w.pool;
        }
      }
    }
  }

  /** At every reserve that finds an expired reservation, the chain or the pool is ahead of the nonces
      still held. */
  ghost predicate ClearsOnExpiry(t: Tracked, ops: seq<Op>)
    decreases |ops|
  {
    ops != [] ==>
      && (ops[0].Reserve? && Expired(t.w, ops[0].now) ==> Clears(t, ops[0].rpcNonce))
      && ClearsOnExpiry(Step(t, ops[0]), ops[1..])
  }

  /** No reserve doubles a nonce, and none leaves a state in which some report would make the next
      one, at that instant, double a nonce. */
  ghost predicate SafeForEveryReport(t: Tracked, ops: seq<Op>)
    decreases |ops|
  {
    ops != [] ==>
      var t' := Step(t, ops[0]);
      && (ops[0].Reserve? ==>
            && Answer(t, ops[0].rpcNonce, ops[0].now) !in t.out
            && forall later :: Answer(t', later, ops[0].now) !in t'.out)
      && SafeForEveryReport(t', ops[1..])
  }

  /** A reserve from a guarded state is safe for every report exactly when the reservation has not
      expired, or the chain or the pool is ahead of the nonces still held. */
  lemma ReserveIsSafeIff(t: Tracked, rpcNonce: nat, now: int)
    requires Bounded(t) && Distinct(t) && Guarded(t)
    ensures var t' := Step(t, Reserve(rpcNonce, now));
            var safe := Answer(t, rpcNonce, now) !in t.out && forall later :: Answer(t', later, now) !in t'.out;
            && (safe <==> !Expired(t.w, now) || Clears(t, rpcNonce))
            && (safe ==> Bounded(t') && Distinct(t') && Guarded(t'))
  {
    hide Guarded, Clears;
    var t' := Step(t, Reserve(rpcNonce, now));
    if Answer(t, rpcNonce, now) !in t.out {
      ReserveKeepsBounded(t, rpcNonce, now);
      assert !Expired(t'.w, now) by { hide Bounded, Distinct; }
      EveryReportIsSafeIffGuarded(t', now);
    }
    if Expired(t.w, now) {
      ExpiredReserveIsSafeIffItClears(t, rpcNonce, now);
    } else {
      LiveReserveKeepsGuard(t, rpcNonce, now);
    }
  }

  lemma {:induction false} GuardedRun(t: Tracked, ops: seq<Op>)
    requires Bounded(t) && Distinct(t) && Guarded(t) && Orderly(t, ops)
    ensures SafeForEveryReport(t, ops) <==> ClearsOnExpiry(t, ops)
    ensures SafeForEveryReport(t, ops) ==> NeverDoubled(t, ops)
    decreases |ops|
  {
    if ops != [] {
      hide Guarded, Clears, Bounded, Distinct;
      var t' := Step(t, ops[0]);
      match ops[0] {
        case Reserve(rpcNonce, now) =>
          ReserveIsSafeIff(t, rpcNonce, now);
        case Release(nonce) =>
          ReleaseKeepsGuard(t, nonce);
          ReleaseKeepsBounded(t, nonce);
      }
      if Bounded(t') && Distinct(t') && Guarded(t') {
        GuardedRun(t', ops[1..]);
      }
    }
  }

  /** Over orderly runs of any length: the next report can never make a reserve double a nonce, if and
      only if at every reserve that finds an expired reservation, each nonce still held has been passed
      by the chain or is below a pooled one. No two callers then hold the same nonce. */
  lemma NoncesStayDistinctBeyondExpiry(ops: seq<Op>)
    requires Orderly(START, ops)
    ensures SafeForEveryReport(START, ops) <==> ClearsOnExpiry(START, ops)
    ensures ClearsOnExpiry(START, ops) ==> NeverDoubled(START, ops)
  {
    GuardedRun(START, ops);
  }

  // ----- No gaps -----

  /** Every nonce from the highest report up to the highest handed out is held or pooled. */
  ghost predicate Covered(t: Tracked) {
    forall n: nat :: t.report <= n <= t.high ==> n in t.out || n in t.w.pool
  }

  /** The release finds a reservation at or above its nonce (the guard of the early return). */
  predicate Lands(w: Wallet, nonce: nat) {
    nonce <= Highest(w.held)
  }

  /** The chain has passed the nonce, the release lands, or the nonce is kept by another holder or
      pooled already. */
  predicate LeavesNoGap(t: Tracked, nonce: nat) {
    nonce < t.report || Lands(t.w, nonce) || t.out[nonce] >= 2 || nonce in t.w.pool
  }

  ghost predicate ReleasesLeaveNoGap(t: Tracked, ops: seq<Op>)
    decreases |ops|
  {
    ops != [] ==>
      && (ops[0].Release? ==> LeavesNoGap(t, ops[0].nonce))
      && ReleasesLeaveNoGap(Step(t, ops[0]), ops[1..])
  }

  ghost predicate AlwaysCovered(t: Tracked, ops: seq<Op>)
    decreases |ops|
  {
    Covered(t) && (ops != [] ==> AlwaysCovered(Step(t, ops[0]), ops[1..]))
  }

  lemma ReserveKeepsCover(t: Tracked, rpcNonce: nat, now: int)
    requires Bounded(t) && Covered(t)
    ensures Covered(Step(t, Reserve(rpcNonce, now)))
  {
    PooledNonceFirst(t.w, rpcNonce, now);
    var t' := Step(t, Reserve(rpcNonce, now));
    forall n: nat | t'.report <= n <= t'.high
      ensures n in t'.out || n in t'.w.pool
    {
      if n <= t.high {
        assert n in t.out || n in t.w.pool;
      }
    }
  }

  /** A holder's release keeps the sequence gapless exactly when it lands, or nobody needs it to. A
      release that comes after the top nonce was released is dropped. */
  lemma ReleaseKeepsCoverIff(t: Tracked, nonce: nat)
    requires Bounded(t) && Covered(t) && nonce in t.out
    ensures Covered(Step(t, Release(nonce))) <==> LeavesNoGap(t, nonce)
  {
    var t' := Step(t, Release(nonce));
    assert !LeavesNoGap(t, nonce) ==> nonce !in t'.out && nonce !in t'.w.pool;
  }

  lemma {:induction false} CoveredRun(t: Tracked, ops: seq<Op>)
    requires Bounded(t) && Covered(t) && Orderly(t, ops)
    ensures AlwaysCovered(t, ops) <==> ReleasesLeaveNoGap(t, ops)
    decreases |ops|
  {
    if ops != [] {
      match ops[0] {
        case Reserve(rpcNonce, now) =>
          ReserveKeepsBounded(t, rpcNonce, now);
          ReserveKeepsCover(t, rpcNonce, now);
        case Release(nonce) =>
          ReleaseKeepsBounded(t, nonce);
          ReleaseKeepsCoverIff(t, nonce);
      }
      if Covered(Step(t, ops[0])) {
        CoveredRun(Step(t, ops[0]), ops[1..]);
      }
    }
  }

  /** At all times, whatever the RPC reports: nothing between the chain and the highest nonce handed
      out is ever stranded, if and only if every release lands or is not needed. */
  lemma NoNonceGaps(ops: seq<Op>)
    requires Orderly(START, ops)
    ensures AlwaysCovered(START, ops) <==> ReleasesLeaveNoGap(START, ops)
  {
    CoveredRun(START, ops);
  }

  // ----- Runs that show the conditions are needed -----

  lemma PoolOfOne(n: nat, floor: nat)
    requires floor <= n
    ensures Eligible([n], floor) == [n]
  {
    var one: seq<nat> := [n];
    assert one[1..] == [];
    assert AtLeast(one[1..], floor) == [];
    assert AtLeast(one, floor) == one;
    assert SortBy<nat>(one[1..], Self) == [];
    assert SortBy<nat>(one, Self) == Insert<nat>(n, [], Self) == one;
  }

  /** Nonce 5 is reserved at 59,000 ms from the pool, which does not refresh the live reservation;
      1,002 ms later that reservation has expired and 5 is handed out again. */
  lemma ExpiryDoublesANonce()
    ensures var ops := [Reserve(5, 0), Reserve(5, 1), Release(5), Reserve(5, 59_000)];
            var t := Run(START, ops);
            && 5 in t.out
            && Answer(t, 5, 60_002) == 5
  {
    PoolOfOne(5, 5);
    var t1 := Step(START, Reserve(5, 0));
    var t2 := Step(t1, Reserve(5, 1));
    var t3 := Step(t2, Release(5));
    var t4 := Step(t3, Reserve(5, 59_000));
    assert t1.w == Wallet(Some(Reservation(5, 0)), []);
    assert t2.w == Wallet(Some(Reservation(6, 1)), []);
    assert t3.w == Wallet(Some(Reservation(6, 1)), [5]);
    assert t4.w == Wallet(Some(Reservation(6, 1)), []);
    RunOf4(START, Reserve(5, 0), Reserve(5, 1), Release(5), Reserve(5, 59_000));
  }

  /** Nonces 5 and 6 are out, 5 comes back and is reused after the expiry, which moves the reservation
      below 6. One millisecond later, with a live reservation, a new report-5 reserve mints 6 again. */
  lemma ReuseAfterExpiryDoublesANonce()
    ensures var ops := [Reserve(5, 0), Reserve(5, 1), Release(5), Reserve(5, 60_002)];
            var t := Run(START, ops);
            && NeverDoubled(START, ops)
            && Usable(t.w.held, 60_003) && 6 in t.out
            && Answer(t, 5, 60_003) == 6
  {
    PoolOfOne(5, 5);
    var t1 := Step(START, Reserve(5, 0));
    var t2 := Step(t1, Reserve(5, 1));
    var t3 := Step(t2, Release(5));
    var t4 := Step(t3, Reserve(5, 60_002));
    assert t1.w == Wallet(Some(Reservation(5, 0)), []);
    assert t2.w == Wallet(Some(Reservation(6, 1)), []) && t2.out == multiset{5, 6};
    assert t3.w == Wallet(Some(Reservation(6, 1)), [5]) && t3.out == multiset{6};
    assert t4.w == Wallet(Some(Reservation(5, 60_002)), []);
    RunOf4(START, Reserve(5, 0), Reserve(5, 1), Release(5), Reserve(5, 60_002));
    NeverDoubledOf4(START, Reserve(5, 0), Reserve(5, 1), Release(5), Reserve(5, 60_002));
  }

  /** Two holders release in the order top first: the second release is dropped, so nonce 5 is
      neither held nor pooled although the chain is still waiting for it. */
  lemma TopFirstReleaseStrandsANonce()
    ensures var t := Run(START, [Reserve(5, 0), Reserve(5, 0), Release(6), Release(5)]);
            && !Covered(t)
            && Answer(t, 5, 0) == 6
  {
    PoolOfOne(6, 5);
    var t1 := Step(START, Reserve(5, 0));
    var t2 := Step(t1, Reserve(5, 0));
    var t3 := Step(t2, Release(6));
    var t4 := Step(t3, Release(5));
    assert t1.w == Wallet(Some(Reservation(5, 0)), []);
    assert t2.w == Wallet(Some(Reservation(6, 0)), []);
    assert t3.w == Wallet(None, [6]);
    assert t4.w == Wallet(None, [6]);
    RunOf4(START, Reserve(5, 0), Reserve(5, 0), Release(6), Release(5));
    assert t4.report <= 5 <= t4.high && 5 !in t4.out;
  }

  lemma RunOf4(t: Tracked, a: Op, b: Op, c: Op, d: Op)
    ensures Run(t, [a, b, c, d]) == Step(Step(Step(Step(t, a), b), c), d)
  {
    assert [a, b, c, d][1..] == [b, c, d];
    assert [b, c, d][1..] == [c, d];
    assert [c, d][1..] == [d];
    assert Run(Step(Step(t, a), b), [c, d]) == Run(Step(Step(Step(t, a), b), c), [d]);
  }

  lemma NeverDoubledOf4(t: Tracked, a: Op, b: Op, c: Op, d: Op)
    requires a.Reserve? && Answer(t, a.rpcNonce, a.now) !in t.out
    requires b.Reserve? && Answer(Step(t, a), b.rpcNonce, b.now) !in Step(t, a).out
    requires c.Release? && d.Reserve?
    requires var t3 := Step(Step(Step(t, a), b), c); Answer(t3, d.rpcNonce, d.now) !in t3.out
    ensures NeverDoubled(t, [a, b, c, d])
  {
    hide Step;
    assert [a, b, c, d][1..] == [b, c, d];
    assert [b, c, d][1..] == [c, d];
    assert [c, d][1..] == [d];
    assert NeverDoubled(Step(Step(Step(t, a), b), c), [d]);
    assert NeverDoubled(Step(Step(t, a), b), [c, d]);
    assert NeverDoubled(Step(t, a), [b, c, d]);
  }

  // ----- Many wallets -----

  datatype WalletOp = WalletOp(wallet: JsString, op: Op)

  type Wallets = map<JsString, Tracked>

  function At(ws: Wallets, k: JsString): Tracked {
    if k in ws then ws[k] else START
  }

  function RunAll(ws: Wallets, ops: seq<WalletOp>): Wallets
    decreases |ops|
  {
    if ops == [] then ws
    else
      var k := Key(ops[0].wallet);
      RunAll(ws[k := Step(At(ws, k), ops[0].op)], ops[1..])
  }

  function OpsOf(ops: seq<WalletOp>, k: JsString): seq<Op> {
    if ops == [] then []
    else (if Key(ops[0].wallet) == k then [ops[0].op] else []) + OpsOf(ops[1..], k)
  }

  /** Wallets never affect each other: after any interleaving, each wallet is where its own
      operations alone would have taken it. */
  lemma {:induction false} WalletsAreIndependent(ws: Wallets, ops: seq<WalletOp>, k: JsString)
    ensures At(RunAll(ws, ops), k) == Run(At(ws, k), OpsOf(ops, k))
    decreases |ops|
  {
    if ops != [] {
      var k0 := Key(ops[0].wallet);
      WalletsAreIndependent(ws[k0 := Step(At(ws, k0), ops[0].op)], ops[1..], k);
      if k0 == k {
        assert OpsOf(ops, k) == [ops[0].op] + OpsOf(ops[1..], k);
        assert OpsOf(ops, k)[1..] == OpsOf(ops[1..], k);
      } else {
        assert OpsOf(ops, k) == OpsOf(ops[1..], k);
      }
    }
  }
}
