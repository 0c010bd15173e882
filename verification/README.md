# HoodMint Radar: verified models

A Dafny model of the parts of HoodMint Radar in which a mistake costs money or locks out the wrong
person: the mint fire path (nonces, the signature burst, clocks and windows, allowances), the sign-in
lockout, the printers and keys that must be reversible, and the schedules and caches that must agree
with something simpler. `dafny verify dfyconfig.toml` checks all of it.

One module per source area. Code that computes is modelled by functions; code that changes state by
classes and loops (`LockoutStore.Store`, `NonceAllocator.Allocator`, `Burst.Shared` and `BurstBuild`,
`Http.FetchJson`/`ReadBounded`/`Merge`, `ClockCalibration.RunClockCalibration`,
`Chunking.ChunkDiscordMessage`), each proved to keep its invariant and to meet the promise itself or a
function of its old state. The functions are what the lemmas about whole runs speak of. `Text`, `StableSort`,
`Arithmetic` and `Wrappers` are shared helpers: JavaScript strings are sequences of UTF-16 code
units, sorting is stable, milliseconds, wei and nonces are integers.

## Main results

- **Lockout.** An amortised bound with a potential function: 20 recorded failures per 81 minutes plus
  one initial burst, for every timing, and attained. A password is tried before its failure is
  recorded, so the bound for guesses depends on how many sign-ins are open at once: c of them cost up to
  c - 1 more guesses a lock, exactly those that another failure overtakes. The state is a closed
  function of the history. The store that prunes idle entries cannot be told from one that never
  forgets, and shows each identifier only what its own sign-ins did.
- **Nonces.** At any time the least returned nonce the chain has not passed goes first. Within one
  expiry period the allocator refines "least returned nonce, else one past the highest" and no nonce is
  held twice. The same holds as
  long as reserves keep coming within a minute of the last new nonce. Beyond it, the exact condition for a double is proved for every run, and the one under
  which no report can cause one. No nonce is stranded if and only if every release lands or is not
  needed, whatever the times. Wallets are independent.
- **Signature burst.** A transition system over ticks, `then`/`catch` and `finally` steps: one
  settlement, decided by the first decisive reply; exact in-flight count; nothing sent after
  settlement or deadline; every on-time tick is the turn of one key, which rests after a rate limit; it
  drains and settles. The callbacks that change the
  shared variables keep its invariant, and the loop that runs them returns the promised outcome.
- **Timing.** Fire phases, pre-signing, calibration bias, the arm window and the fire predicate agree
  with each other over every sequence of ticks. Pre-signing passes overlap, fail anywhere and
  reserve nonces ahead of the chain; how old the transaction can be that a fire decision reads, and
  exactly when it is never stale. Calibration errs early by at most one call's latency.
- **Allowances.** Clamping conserves; the precheck grants the largest admissible quantity; when
  each request lands before the next is checked, supply and caps hold. With checks that overlap, the
  grants in flight can land in any way without a refusal if and only if all of them together fit.
- **Spending.** What the ceiling bounds when each check is given the total so far, and exactly what
  passing zero changes: k attempts worth v each stay under it if and only if k v fits.
- **Inverses.** GMT+7 text and instants, decimal amounts and dedupe keys read back exactly, and the
  instants count real days since the epoch; chunking cuts a message word for word, at white space only
  where lines fit.
- **Fetching.** The last reply alone settles a fetch, by a table of statuses and bodies that holds
  against every server.
- **Schedules and caches.** The re-check cadence around an open; statuses against stage selectors; the
  conditional-request cache changes no answer over any run whose tagged replies arrive whole, even of
  fetches that overlap, and spoils no success when they may break off; ten stored holders rebuild the whole
  concentration and are a maximum choice.

## Where the code and its documentation disagree

The model follows the code.

- `gmt7LocalToUtc` promises null for dates that do not exist; it also rejects every date in the years
  0000 to 0099, because `Date.UTC` reads those as 1900 to 1999 (`MintTarget.AcceptsExactlyRealDates`,
  `MintTarget.EarlyYearsAreRejected`, `MintTarget.YearFiftyIsRejected`).
- `nextStage` says ties are broken by label; they are broken by listing order, which agrees with the
  labels exactly when the least label comes first (`Stages.TiesFollowTheListing`,
  `Stages.LabelBreaksTiesIff`, `Stages.LabelDoesNotBreakATie`).
- The status documentation calls a drop LIVE when some stage is running, not paused and supply is left;
  a paused live stage listed before the open one yields PAUSED (`Status.LiveDisagreesExactlyBehindAPausedStage`,
  `Status.PausedRowHidesALiveStage`).
- `releaseNonce` is meant to pool a nonce even when a sibling has since reserved a higher one; after
  the top nonce has been released first, the lower one is dropped
  (`NonceAllocator.ReleaseKeepsCoverIff`, `NonceAllocator.TopFirstReleaseStrandsANonce`).
- Siblings are meant to get distinct nonces. Two things break that once a reservation has expired,
  and `NonceAllocator.NextReserveDoublesExactly` says precisely when. Reuse of a pooled nonce below the
  reservation does not refresh its age, so a nonce taken a second ago can be handed out again
  (`NonceAllocator.ExpiryDoublesANonce`). Reuse of a pooled nonce on an expired reservation moves the
  reservation below nonces still held, so the next mint is one of them
  (`NonceAllocator.ReuseAfterExpiryDoublesANonce`).
- The fire check documents its spent amount as the sum of earlier attempts; the worker passes zero each
  time (`apps/worker/src/workers/execution.ts:1015`), which is harmless exactly when the total fits
  under the ceiling anyway (`Execution.ZeroIsHarmlessIffTheTotalFits`,
  `Execution.CeilingBoundsTheTotalIffAtMostOneFires`).
- The pre-sign pass is described as re-signing on age or nonce advance only; since ticks do not wait
  for it, two overlapping passes sign twice (`Presign.OverlappingPassesSignTwice`).
- The lockout is meant to stop guessing at a locked identifier before any password is checked. Sign-ins
  that are let through before the lock opens are checked all the same and leave no trace if they reach
  their after hook during the lock, so any number of guesses gets through at one instant
  (`SignIns.AllPassAtOnce`, `SignIns.UncountedIffOvertaken`).
- The calibration comment calls both nuisance terms non-negative. The clock is read before the block is
  fetched, so a block produced during the call makes the sample too small and fires early
  (`ClockCalibration.SlowCallReadsEarly`, `ClockCalibration.FireIsShiftedByTheLeastBias`).
- The precheck is meant to stop a plan whose cumulative cap is spent. Plans checked while others are in
  flight all see what was minted before, and are granted it again (`Minting.OverlappingChecksOvershoot`).
- A wallet cap of 0 is "unknown" to the console and "exhausted" to the worker
  (`Allowance.ClampAndPrecheckAgree`).
- Retries are described as for "429/5xx/network"; a GET also retries error bodies that break
  off and client errors such as 402 or 418 with a short body (`Http.ErrorStatusesRetriedExactly`).
- An arm window may end on the fire target itself, where the fire predicate already refuses
  (`ArmWindow.TargetAtTheCapIsRefusedOnTime`); how long it must be is `ArmWindow.FirstFireTickIsAllowedIff`.

## Model

| member | source | states |
|---|---|---|
| Lockout.StateIsItsHistory | packages/auth/src/lockout.ts:58-97 | the state after any failed attempts is a closed function of the failures recorded, those that found the identifier unlocked: streak length since the last idle gap over an hour, modulo and divided by five, and the ladder's lock; attempts during a lock leave no trace |
| Lockout.EveryFifthFailureLocks | packages/auth/src/lockout.ts:24-30 | every fifth recorded failure of a streak locks, for 60,000, 300,000, 900,000 and from then on 3,600,000 ms; in between nothing is locked |
| Lockout.AmortisedLockoutBound | packages/auth/src/lockout.ts:57-97 | in every stretch without a success, from any valid state, n recorded failures spread over T ms satisfy 4,860,000 n <= 20 T + 72,000,000 |
| Lockout.AmortisedFrom | packages/auth/src/lockout.ts:57-97 | the bound carried along a run by a potential over level and failure count |
| Lockout.CountedStepPays | packages/auth/src/lockout.ts:73-97 | one recorded failure raises the potential by at least its price less the time since the last one |
| Lockout.BoundIsTight | packages/auth/src/lockout.ts:17-30 | twenty failures in 21 minutes, as early as the locks allow, are all recorded and meet the bound with equality |
| LockoutStore.Store.Prune | packages/auth/src/auth.ts:49-59 | below 1000 entries nothing changes; otherwise exactly the unlocked entries idle for over an hour go |
| LockoutStore.PrunesExactly | packages/auth/src/auth.ts:49-59 | fewer than 1000 entries are left alone; of more, exactly the locked ones and those that failed within the last hour stay, unchanged |
| LockoutStore.Store.BeforeSignIn | packages/auth/src/auth.ts:202-210 | the decision is the one the never-pruned record of all failures calls for: rejected exactly when there is an e-mail address and its full record is locked |
| LockoutStore.Store.AfterSignIn | packages/auth/src/auth.ts:226-241 | the never-pruned record is updated by the outcome alone, and the store, after deletion or recording and the pruning loop, still agrees with it |
| LockoutStore.IdleActsFresh | packages/auth/src/lockout.ts:73-97 | an idle entry and the initial state decide and step identically |
| LockoutStore.RunsAgree | packages/auth/src/auth.ts:47-59 | the pruning and the full store stay related through any interleaving of hooks |
| LockoutStore.PruningIsInvisible | packages/auth/src/auth.ts:47-59 | over every interleaving on many keys with a clock that never goes back, pruning changes no lock decision and no recorded state |
| LockoutStore.FootprintIsBounded | packages/auth/src/auth.ts:49-59 | after a sign-in the store has under 1000 entries or only ones that failed within the last hour |
| SignIns.DecidedByItsGate | packages/auth/src/auth.ts:202-241 | over any interleaving of hooks on any keys, with pruning, a sign-in is rejected exactly as the sign-ins of its own key alone call for |
| SignIns.UncountedIffOvertaken | packages/auth/src/auth.ts:202-241 | a failed guess goes unrecorded exactly when between its own hooks another failure opens a lock that still stands, uncleared, at its after hook; otherwise it is recorded |
| SignIns.UncountedGuessesAreFew | packages/auth/src/auth.ts:202-241 | in every stretch without a success, with at most c guesses open at once: recorded failures obey the amortised bound, unrecorded ones are at most c - 1 a lock and those caught before, and locks at most a fifth of the recorded; every guess let through is recorded, unrecorded or open |
| SignIns.AmortisedGuessBound | packages/auth/src/auth.ts:202-241 | n failed guesses spread over T ms satisfy 24,300,000 n <= (c + 4)(20 T + 72,000,000) + 43,740,000 (c - 1); without overlap every failure is recorded and the bound of recorded failures holds for guesses |
| SignIns.RunsReach | packages/auth/src/auth.ts:202-241 | every run with at most c guesses open leads to a state that these bounds start from |
| SignIns.AllPassAtOnce | packages/auth/src/auth.ts:202-241 | for every n, n guesses are let through at one instant, at most five are recorded and the others leave no trace |
| SignIns.OverlapIsTight | packages/auth/src/auth.ts:202-241 | for every c a run attains c - 1 unrecorded guesses a lock |
| NonceAllocator.Allocator.ReserveNonce | apps/worker/src/nonce-allocator.ts:62-84 | the wallet makes one reserve step and no other wallet changes |
| NonceAllocator.Allocator.ReleaseNonce | apps/worker/src/nonce-allocator.ts:91-110 | the wallet makes one release step and no other wallet changes |
| NonceAllocator.KeysIgnoreCase | apps/worker/src/nonce-allocator.ts:50-52 | two spellings of an address share a wallet exactly when they differ in letter case only |
| NonceAllocator.PooledNonceFirst | apps/worker/src/nonce-allocator.ts:62-84 | at any time, the least pooled nonce the chain has not passed is handed out and the others of those stay pooled; only without one is a nonce minted; no answer is below the report |
| NonceAllocator.ReserveRefinesSimple | apps/worker/src/nonce-allocator.ts:62-84 | within the expiry period a reserve returns the least pooled nonce the chain has not passed, else one past both the report and everything handed out, whatever the reservation says |
| NonceAllocator.NoncesStayDistinct | apps/worker/src/nonce-allocator.ts:62-110 | in every run of reserves and holder-only releases within one expiry period, for any reports, no reserve returns a nonce still held |
| NonceAllocator.MintLastsAMinute | apps/worker/src/nonce-allocator.ts:65-83 | after a reserve that mints n, from any state, a reserve with a report not above n answers n + 1 exactly for a minute, and the report itself from then on |
| NonceAllocator.NoncesStayDistinctWhileBusy | apps/worker/src/nonce-allocator.ts:62-110 | in orderly runs of any length, no nonce is held twice as long as every reserve comes within a minute of the last hand-out of the highest nonce so far |
| NonceAllocator.RunKeepsInv | apps/worker/src/nonce-allocator.ts:62-110 | the highest nonce handed out is the reservation or is pooled; pool and holders are disjoint and below it |
| NonceAllocator.NextReserveDoublesExactly | apps/worker/src/nonce-allocator.ts:62-84 | after any orderly run that has doubled nothing, at any times, the next reserve doubles a nonce exactly when nothing usable is pooled and the nonce to be minted is held: the report once the reservation has expired, the larger of the report and its successor while it is live |
| NonceAllocator.EveryReportIsSafeIffGuarded | apps/worker/src/nonce-allocator.ts:65-83 | unless the reservation has expired, no report can make the next reserve double a nonce, if and only if each held nonce is at most the reservation or below a pooled one |
| NonceAllocator.ExpiredReserveIsSafeIffItClears | apps/worker/src/nonce-allocator.ts:70-83 | a reserve on an expired reservation doubles nothing and leaves every later report safe exactly when, before the call, each held nonce is below the report or below a pooled one |
| NonceAllocator.NoncesStayDistinctBeyondExpiry | apps/worker/src/nonce-allocator.ts:62-110 | in every orderly run of any length, every reserve stays safe for all reports if and only if at each one that finds an expired reservation every held nonce is below the report or below a pooled one; then no nonce is held twice |
| NonceAllocator.ExpiryDoublesANonce | apps/worker/src/nonce-allocator.ts:72-77 | a run in which a nonce taken 1,002 ms earlier is handed out again |
| NonceAllocator.ReuseAfterExpiryDoublesANonce | apps/worker/src/nonce-allocator.ts:70-77 | a run that doubles a nonce with a live reservation, after a reuse past the expiry has moved the reservation below a held nonce |
| NonceAllocator.NoNonceGaps | apps/worker/src/nonce-allocator.ts:36-48 | in every run of reserves and holder-only releases, at any times and for any reports: each nonce from the highest report to the highest handed out is always held or pooled, if and only if every release lands, is of a nonce the chain has passed, or leaves the nonce with another holder or the pool |
| NonceAllocator.ReleaseKeepsCoverIff | apps/worker/src/nonce-allocator.ts:91-110 | a holder's release leaves no gap exactly when a reservation at or above it exists, the chain has passed it, or the nonce stays held or pooled otherwise |
| NonceAllocator.TopFirstReleaseStrandsANonce | apps/worker/src/nonce-allocator.ts:94-104 | a run that strands a nonce by releasing the higher one first |
| NonceAllocator.WalletsAreIndependent | apps/worker/src/nonce-allocator.ts:50-52 | after any interleaving each wallet is where its own operations alone take it |
| Burst.Shared.OnTick | apps/worker/src/mint-tx.ts:101-124 | the interval callback keeps the invariant; it sends exactly one request, with the next key, when the burst is on, in time and that key rests no longer, and none otherwise; it settles only late and with no request unfinished |
| Burst.Shared.OnThen | apps/worker/src/mint-tx.ts:127-140 | calldata settles the burst for its own request unless an outcome is there, which then stays |
| Burst.Shared.OnCatch | apps/worker/src/mint-tx.ts:141-156 | an error settles an unsettled burst exactly when it refuses the whole drop; a rate limit rests its own key for 1500 ms and no other key |
| Burst.Shared.OnFinally | apps/worker/src/mint-tx.ts:157-166 | one request fewer is unfinished; the burst times out exactly when it is unsettled, late, and this was the last one |
| Burst.BurstBuild | apps/worker/src/mint-tx.ts:86-170 | for every order of callbacks the event loop can produce, the callbacks leave the outcome of the first decisive reply; without one, none yet or a timeout; and the outcome is justified by a reply on record |
| Burst.BurstIsSafe | apps/worker/src/mint-tx.ts:86-170 | in every reachable state: at most one settlement, justified by a reply on record (a timeout by all requests back without a decisive reply); in-flight equals unfinished; every request passed the deadline check |
| Burst.FirstDecisiveReplyWins | apps/worker/src/mint-tx.ts:94-156 | the outcome is that of the first reply with calldata or a whole-drop refusal; without one the burst can only time out |
| Burst.RequestsAreFinal | apps/worker/src/mint-tx.ts:101-124 | nothing is sent after settlement or the deadline, and a settlement never changes |
| Burst.RateLimitedKeyRests | apps/worker/src/mint-tx.ts:113-117 | after a rate-limit reply its key sends nothing for 1500 ms, whatever happens in between |
| Burst.KeysTakeTurns | apps/worker/src/mint-tx.ts:113-123 | unpenalised ticks before the deadline each send one request, with the keys in rotation |
| Burst.EveryTickTakesItsTurn | apps/worker/src/mint-tx.ts:101-124 | over any run, with any penalties: the n-th on-time tick of an undecided burst, counted in the events, sends one request with key n modulo the number of keys, unless a rate-limit reply to that key came less than 1500 ms before, and then sends nothing |
| Burst.TimeoutReportsTheLastFailure | apps/worker/src/mint-tx.ts:105-112 | a burst that times out reports the number of requests sent and the last failure of all |
| Burst.DrainsAfterDeadline | apps/worker/src/mint-tx.ts:105-112 | past the deadline each finished request is one fewer in flight, and none in flight means settled |
| Burst.BurstSettles | apps/worker/src/mint-tx.ts:157-166 | after a tick past the deadline the burst settles once its open requests have finished |
| MintTarget.AcceptsExactlyRealDates | apps/web/src/lib/mint-target.ts:72-110 | accepted are exactly the trimmed well-formed strings naming a date and time that exist, from the year 100 on, with the instant they name |
| MintTarget.AcceptedTextsExactly | apps/web/src/lib/mint-target.ts:72-110 | accepted are exactly the renderings of real dates from the year 100 on, with or without seconds and with any white space around, each with its own instant |
| MintTarget.InstantCountsDays | apps/web/src/lib/mint-target.ts:84-110 | real dates are those of the table of month lengths, and the instant is the number of days since 1 January 1970 by year and month lengths, times 86,400,000, plus the time of day, minus 25,200,000 |
| MintTarget.EpochIsZero | apps/web/src/lib/mint-target.ts:84-110 | 1970-01-01T07:00 is instant 0 |
| MintTarget.EarlyYearsAreRejected | apps/web/src/lib/mint-target.ts:96-109 | every date and time of the years 0 to 99, though well formed and real, is rejected |
| MintTarget.YearFiftyIsRejected | apps/web/src/lib/mint-target.ts:96-109 | 0050-01-01T00:00 is a well-formed real date and is rejected |
| MintTarget.TypedTimeComesBack | apps/web/src/lib/mint-target.ts:84-124 | an accepted string is shown again to the minute |
| MintTarget.PrefilledTimeComesBack | apps/web/src/lib/mint-target.ts:112-124 | a shown instant is read back as its minute exactly when its GMT+7 year is 100 to 9999 |
| MintTarget.ShownTextExactly | apps/web/src/lib/mint-target.ts:118-124 | an instant is shown as the GMT+7 date and time of its minute, with a signed six-digit year outside 0 to 9999; nothing is shown for no date, and the last seven hours of the range are an error |
| Calendar.PartsOfWallClock | apps/web/src/lib/mint-target.ts:100-108 | the parts of a real date read back from its time value; a date past its month's end reads back in another month |
| Calendar.TimeOfParts | apps/web/src/lib/mint-target.ts:123-123 | every instant is the one its parts make, up to its seconds |
| Dedupe.KeyDecodes | packages/core/src/dedupe.ts:25-35 | all six parts are recovered from the key, for arbitrary strings |
| Dedupe.KeyIsInjective | packages/core/src/dedupe.ts:1-7 | two alerts with one key are the same alert |
| Dedupe.KeyIsWrittenAs | packages/core/src/dedupe.ts:25-35 | the stored key is each part behind its length and a colon, with bars between them, in the declared order and with the declared names |
| Dedupe.SplitInvertsJoin | packages/core/src/dedupe.ts:34-34 | length-prefixed components joined with bars split back into themselves |
| Units.ToWeiKeepsTheNumber | packages/core/src/wei.ts:15-34 | an accepted decimal, hexadecimal or integer input keeps its number; negative integers are rejected |
| Units.ToWeiAcceptsExactly | packages/core/src/wei.ts:15-34 | accepted are exactly non-negative integers, decimal digit strings, and 0x or 0X with at least one hexadecimal digit, with any white space around |
| Units.HexadecimalIsRead | packages/core/src/wei.ts:23-25 | every number written in hexadecimal, in either case, is read as itself |
| Units.FormatWeiReadsBack | packages/core/src/wei.ts:40-47 | the printed amount reads back exactly, for all amounts and decimals |
| Units.FormatWeiIsInjective | packages/core/src/wei.ts:40-47 | different amounts never print alike |
| Units.FormatWeiIsShortest | packages/core/src/wei.ts:40-47 | no leading zero but a lone one, no trailing zero after the point, no point without a digit |
| Units.FormatUnitsShortIsShortest | packages/core/src/funding.ts:58-67 | the same for the short form, after its sign |
| Units.FormatUnitsShortTruncates | packages/core/src/funding.ts:58-67 | the short form has a minus sign exactly for negative values and reads back as the magnitude truncated to the last kept place; exact when every decimal is kept |
| Http.ReadBounded | packages/providers/src/http.ts:47-79 | a streamed body is exactly its chunks in order, at most maxBytes, or fails |
| Http.ReadsWhatFits | packages/providers/src/http.ts:47-79 | a body is refused exactly when its declared or total length exceeds the limit, fails exactly when it breaks off otherwise, and is returned whole in all other cases |
| Http.Merge | packages/providers/src/http.ts:72-77 | the buffer filled at a moving offset is the concatenation |
| Http.FetchJson | packages/providers/src/http.ts:99-242 | the retry loop and its cache write equal the recursive specification |
| Http.CallsAreBounded | packages/providers/src/http.ts:122-168 | a GET makes at most retries + 1 calls, a POST exactly one |
| Http.AnswersWithTheFirstFinalReply | packages/providers/src/http.ts:122-241 | every attempt before the last was retried, the last was not and gives the answer |
| Http.TheLastReplySettles | packages/providers/src/http.ts:122-241 | against every server: the calls go on exactly while replies are passing failures and tries are left, and the last reply alone settles the answer: its status and the JSON of its complete body (none for an empty one), the cached JSON for a confirmed tag, or the error category of its status; a tagged success of a GET, and nothing else, is cached |
| Http.ErrorStatusesRetriedExactly | packages/providers/src/http.ts:157-226 | a GET with attempts left retries a refused error reply exactly when its status is 429 or at least 500, or is none of 401, 403, 404 and the body breaks off, or is none of those nor 400, 409, 422 and the body fits in 4096 bytes |
| Http.OnlyExpectedStatusesAreReturned | packages/providers/src/http.ts:134-156 | no redirect status is ever returned, and no error status unless allowed |
| Http.CachedFetchRefinesPlainFrom | packages/providers/src/http.ts:110-136 | against a server whose tagged 200s deliver the tagged content whole, one fetch with the cache answers as without it, in as many calls, and stores a coherent entry |
| Http.CacheIsInvisible | packages/providers/src/http.ts:110-136 | over any run of fetches sharing a cache, with tagged 200s delivered whole and any errors in between, no answer changes |
| Http.CacheKeepsSuccessesFrom | packages/providers/src/http.ts:110-136 | with bodies that may break off, for a resource stable during the fetch: a plain success is the same success with the cache, in no more calls |
| Http.CacheSpoilsNoSuccess | packages/providers/src/http.ts:110-136 | the same over any run of fetches of any resources sharing a cache |
| Http.UnchangedIsServedFromTheCache | packages/providers/src/http.ts:110-136 | a tagged JSON answer to a GET is remembered, and while the tag stays the same a later fetch is served from the cache in one call |
| Http.OverlappingFetchesAreInvisible | packages/providers/src/http.ts:110-230 | the cache changes no answer over any interleaving of fetches that look up their entry at the start and store at the end, with tagged 200s delivered whole |
| Stages.NextStageIsTheEarliest | packages/core/src/stages.ts:62-72 | the next stage is an unpaused future stage of least start; none exactly when none qualifies |
| Stages.CurrentStageIsRunning | packages/core/src/stages.ts:55-60 | the current stage is an unpaused live stage of least start; none exactly when none qualifies |
| Stages.TiesFollowTheListing | packages/core/src/stages.ts:62-72 | among stages that start together the first listed is announced |
| Stages.CurrentTiesFollowTheListing | packages/core/src/stages.ts:55-60 | among live stages that started together the first listed is current |
| Stages.LabelBreaksTiesIff | packages/core/src/stages.ts:62-72 | the announced stage has the least label among those that start with it exactly when the first listed of them does |
| Stages.LabelDoesNotBreakATie | packages/core/src/stages.ts:62-72 | of stages b and a that start together, listed in this order, b is announced |
| Status.UnknownMeansNoStages | packages/core/src/status.ts:42-91 | UNKNOWN exactly for no stages and not reported paused |
| Status.SoldOutWins | packages/core/src/status.ts:45-57 | SOLD_OUT exactly for verified, used-up supply, unless there are no stages and nothing is reported paused |
| Status.EndedIsPermanent | packages/core/src/status.ts:77-90 | for fixed facts ENDED stays as time advances |
| Status.LifecycleAgreesWithSelectors | packages/core/src/status.ts:59-90 | with nothing paused and supply left: LIVE iff a current stage, else NEXT iff a next stage, else ENDED |
| Status.PausedUntilNothingIsLeft | packages/core/src/status.ts:59-80 | a drop reported paused is PAUSED while a stage is live or ahead, then ENDED |
| Status.LiveDisagreesExactlyBehindAPausedStage | packages/core/src/status.ts:59-73 | with paused stages, LIVE and the current stage disagree exactly when the first live stage listed is paused and another runs |
| Status.PausedRowHidesALiveStage | packages/core/src/status.ts:4-11 | a drop with an open stage whose status is PAUSED |
| EligibilitySchedule.DelayFollowsLifecycle | packages/core/src/schedule.ts:29-57 | with nothing paused the status decides the delay, and checks stop exactly at ENDED or SOLD_OUT |
| EligibilitySchedule.DelayBeforeOpen | packages/core/src/schedule.ts:49-56 | until the open the next due instant depends only on the time left |
| EligibilitySchedule.CadenceAroundTheOpen | packages/core/src/schedule.ts:15-57 | from over an hour ahead: at least seven checks in the last hour, one within five minutes from the open, and at most ceil((D - 24 h) / 6 h) + 58 checks from D > 24 h ahead |
| FireSchedule.CountdownsLandOnTheNextPhase | packages/core/src/fire-schedule.ts:74-91 | a returned countdown ends exactly where the phase changes, on the next phase when that is not empty; fire ticks count from the target and expiry is final |
| FireSchedule.PhasesOnlyAdvance | packages/core/src/fire-schedule.ts:74-91 | waiting, hot, fire, expired, in that order only |
| FireSchedule.TheWindowIsFiredIn | packages/core/src/fire-schedule.ts:54-91 | ticks at most gap apart straddling the window fire at least floor((lead + continue + 1) / gap) times |
| Presign.ExpireTogether | packages/core/src/presign.ts:44-55 | pre-signing expires exactly when firing does, at all instants, iff no phase starts past the end of the window |
| Presign.SignedInTime | packages/core/src/presign.ts:44-58 | no hot or fire tick finds pre-signing waiting, iff its lead covers fire lead and hot window |
| Presign.WaitsThenKeepsWhatIsFresh | packages/core/src/presign.ts:53-76 | a returned wait ends exactly when signing may start; inside the window a transaction is kept exactly while it is fresh and its nonce is not behind, and each reason to sign is given exactly when it applies |
| Presign.SigningsAreDueAndSpaced | apps/worker/src/workers/execution.ts:286-438 | over every interleaving: each signing was decided inside the window with a nonce the chain had not passed, and repeats those its pass saw only for a passed nonce or more than the time to live after all of them |
| Presign.PassLeavesAFreshBlob | apps/worker/src/workers/execution.ts:286-438 | after any interleaving of passes that read, fail, keep or sign and save: once a pass of a hot or fire tick has ended without failing, the row holds a transaction within its time to live at that tick, with a nonce not behind its report unless another pass saved meanwhile |
| Presign.RowAgesFromTheLastGoodPass | apps/worker/src/workers/execution.ts:222-226 | a fire decision does not wait for its own tick's pass; after a good pass of an earlier hot or fire tick and any later passes, the row it reads holds a transaction older than its time to live by at most the time since that tick |
| Presign.NoFireReadsAStaleRowIff | apps/worker/src/workers/execution.ts:222-226 | over all runs and fire instants, no transaction in the row is past its time to live if and only if signing lead plus grace is at most the time to live |
| Presign.AtMostOneSigningPerLifetime | apps/worker/src/workers/execution.ts:286-438 | passes that do not overlap re-sign at most once per time to live unless the nonce was passed, so the window bounds their number |
| Presign.OverlappingPassesSignTwice | apps/worker/src/workers/execution.ts:222-226 | two passes that read before either saves both sign |
| Presign.ResigningKeepsTheNonceIff | apps/worker/src/workers/execution.ts:408-408 | a lone plan that re-signs for age gets its nonce back exactly when its time to live is at least the 60 s expiry of a reservation (the default is 90 s) |
| ClockCalibration.RunClockCalibration | apps/worker/src/workers/clock-calibration.ts:32-73 | the stored offset is the least of the samples; a failed probe stores nothing |
| ClockCalibration.SampleBias | apps/worker/src/workers/clock-calibration.ts:51-54 | a sample is off by block age at the reading plus truncation; it is not below the true offset exactly when the block's second had begun by the reading, and never by more than the call took |
| ClockCalibration.FireIsShiftedByTheLeastBias | apps/worker/src/workers/clock-calibration.ts:42-58 | every fire decision is shifted by the error of the stored minimum; it is early exactly when some probe met a block of a second that began after its reading, by at most that call's duration, and late by at most the best sample's bias |
| ClockCalibration.SlowCallReadsEarly | apps/worker/src/workers/clock-calibration.ts:51-54 | for calls of any length, a sample can be early by the whole length |
| ClockCalibration.FiresLateByTheSmallestNuisance | apps/worker/src/workers/clock-calibration.ts:42-50 | when no probe met a block of a second that began after its clock reading, every fire decision is delayed by exactly the smallest, non-negative, bias |
| ClockCalibration.ConversionsAreInverse | packages/core/src/clock-offset.ts:18-29 | chain to local to chain time is the identity, and back |
| ArmWindow.ArmsExactlyWhenTheTargetIsReachable | apps/web/src/app/actions.ts:2671-2737 | for stages that end after they start, a window is granted exactly for a target at most 24 h away that is in the future or whose stage is open, and each refusal names what fails |
| ArmWindow.ArmedWindowReachesTheTarget | apps/web/src/app/actions.ts:2671-2737 | the window is 1 to 1440 minutes and reaches the target |
| ArmWindow.ArmedWindowFits | apps/web/src/app/actions.ts:2708-2736 | the window is the least whole number of minutes to the end of the phase or of the four-hour tail, capped at a day |
| ArmWindow.FirstFireTickIsAllowed | apps/web/src/app/actions.ts:2708-2737 | a granted window that outlasts the target by offset - lead + gap allows the first fire tick exactly when the money does |
| ArmWindow.FirstFireTickIsAllowedIff | packages/core/src/execution.ts:96-126 | for an affordable armed plan, however the ticks fall, the first fire tick is allowed if and only if the window reaches offset - lead + gap past the open or beyond the end of the fire window |
| ArmWindow.FirstFireIsInTheWindowIff | packages/core/src/fire-schedule.ts:74-91 | every way of ticking has its first fire tick before an instant exactly when the latest possible one is |
| ArmWindow.LateJoinFiresAtOnce | apps/web/src/app/actions.ts:2671-2737 | a plan armed after its fire target fires at its first tick if at all, which a granted window always allows when ticks are under a minute apart and the money suffices |
| ArmWindow.LateJoinIsAllowedIff | packages/core/src/execution.ts:96-126 | every late join is allowed exactly when the window outlasts one tick gap or the whole fire window |
| ArmWindow.FirstFireIsPrompt | packages/core/src/fire-schedule.ts:84-89 | the first fire tick comes less than one gap after the fire target |
| ArmWindow.TargetAtTheCapIsRefusedOnTime | apps/web/src/app/actions.ts:2692-2700 | a target exactly 24 h away is armed for a window in which a tick at the target is refused |
| Execution.SpendingStaysUnderTheCeiling | packages/core/src/execution.ts:73-126 | if every check is given the total so far, as its field is documented, any run of attempts spends at most the ceiling, and nothing under a bad ceiling |
| Execution.RefusalsNameWhatFails | packages/core/src/execution.ts:96-126 | a plan may fire exactly when armed, in its window, under a positive ceiling within the signer's that the transaction stays within; a refusal names the first that fails |
| Execution.EachAttemptStaysUnderTheCeiling | apps/worker/src/workers/execution.ts:1003-1017 | with zero passed each time, as the worker does, each allowed attempt is at most the ceiling and k of them spend at most k ceilings |
| Execution.ZeroIsHarmlessIffTheTotalFits | apps/worker/src/workers/execution.ts:1015-1015 | passing zero keeps the total under the ceiling exactly when passing the real total would have spent the same |
| Execution.CeilingBoundsTheTotalIffItFits | apps/worker/src/workers/execution.ts:1015-1015 | with zero passed, the ceiling bounds every run of k allowed attempts worth at most v each exactly when k v is at most the ceiling |
| Execution.CeilingBoundsTheTotalIffAtMostOneFires | apps/worker/src/workers/execution.ts:1015-1015 | the ceiling bounds every run of k allowed attempts exactly when k is at most one |
| Execution.NothingFiresOutsideTheWindow | packages/core/src/execution.ts:96-105 | attempts that are not armed or past their window spend nothing |
| Allowance.ClampingConserves | apps/web/src/lib/mint-allowance.ts:39-72 | requests clamped one after another on a known cap get exactly the lesser of what was asked and what was left |
| Allowance.ClampTakesTheLargestThatFits | apps/web/src/lib/mint-allowance.ts:39-72 | with a published cap the effective quantity is the largest requested one that fits, the remaining one the largest that fits at all, and exhausted means none fits; without one nothing is clamped and nothing remaining is claimed; cap, minted and requested are reported as counted |
| Allowance.CountsAreFloors | apps/web/src/lib/mint-allowance.ts:32-37 | a count is the largest whole number not above the value, zero for anything that is not a positive number; an unusable request asks for one |
| Allowance.ClampAndPrecheckAgree | apps/worker/src/mint-tx.ts:257-287 | with ample supply console and worker pick the same quantity for a published cap exactly when it is at least 1, and for an unknown cap always |
| Allowance.GrantsTheLargestAdmissible | apps/worker/src/mint-tx.ts:264-286 | for any request and any cap, known or not, the precheck grants the largest quantity within request, cap and supply, refuses exactly when there is none, and says minted out exactly when supply is gone, else the cap it ran into |
| Allowance.MintsWhatIsGranted | apps/worker/src/mint-tx.ts:264-286 | a granted quantity is minted to its wallet and nobody else |
| Allowance.SupplyIsConserved | apps/worker/src/mint-tx.ts:238-287 | when each request is minted before the next is checked, in any order of wallets and caps, known or not: supply is not exceeded and the tokens minted are exactly those on the wallets' accounts |
| Allowance.NoWalletPassesItsCaps | apps/worker/src/workers/execution.ts:874-881 | under the same condition, however caps differ between phases, a wallet whose requests all have a known cap ends at or below the largest one or where it began, and one that does not ask keeps what it has |
| Minting.SafeIffCovered | apps/worker/src/workers/execution.ts:874-909 | the grants in flight can land or fail in any order without a refusal if and only if, for each, what is minted and all that is outstanding together fit the supply and its cap |
| Minting.AlwaysSafeIffEveryGrantFits | apps/worker/src/workers/execution.ts:874-909 | over every interleaving of checks, landings and failures, this holds at all times if and only if each check's grant fits beside what is outstanding; then nothing is refused |
| Minting.OneAtATimeIsSafe | apps/worker/src/workers/execution.ts:874-909 | checks made with nothing in flight always fit, whatever the caps |
| Minting.LandedIsConserved | apps/worker/src/mint-tx.ts:238-287 | in every run the tokens landed are exactly those on the wallets' accounts, and without refusals supply is not exceeded |
| Minting.LandedKeepsCaps | apps/worker/src/workers/execution.ts:874-881 | without refusals a wallet ends at or below the largest cap of its requests or where it began |
| Minting.OverlappingChecksOvershoot | apps/worker/src/workers/execution.ts:874-909 | two plans of one wallet checked before either lands are both granted the cap, and would land twice of it |
| Chunking.ChunkDiscordMessage | packages/notifications/src/render.ts:141-170 | every chunk fits; the chunks are the message word for word with only white space cut between them; a non-blank line that fits is found whole in one; a short message is one chunk and n chunks take at least (n - 1) maxLen / 3 units; blank chunks come exactly from short blank messages, a blank pack of lines before a line it cannot hold, or a blank slice of a long line |
| Chunking.SliceLine | packages/notifications/src/render.ts:154-157 | the slices of a long line fit and put together are the line |
| Holders.RebuiltFromTopTen | packages/core/src/holders.ts:55-102 | the concentration rebuilt from the stored ten equals the one computed from all recipients |
| Holders.FieldsDescribeTheTopTen | packages/core/src/holders.ts:55-85 | true totals, ten rows in descending order (or all, if fewer) with their shares, and the shares of the first five and of all of them |
| Holders.TotalsAddUp | packages/core/src/holders.ts:55-85 | a total is the quantities added up |
| Holders.TopTenIsAMaximumChoice | packages/core/src/holders.ts:79-85 | the reported holders are recipients, and no other choice of ten recipients (or all, if fewer) holds more |

## Left out

- Clock readings: `burstBuildOpenSeaMintTx` reads the clock once more per request for a log line, which is not modelled; the lockout runs assume a positive clock that never goes back, as `lastFailureAt = 0` means "none".
- Burst without API keys: the source then falls back to a single paced build; the burst model starts at one key.
- Error texts: the tests for rate limit, terminal and per-wallet answers are three arbitrary booleans of a reply; messages, logs and `lastError` text are not modelled beyond which request failed last.
- NonceAllocator.Key: lower-cases ASCII letters only, which is what hexadecimal addresses contain.
- Lockout keys: trimming and lower-casing of the e-mail address and the client IP header are not modelled; a key is any string, or absent.
- Http.CacheIsInvisible: assumes that 200 replies with a tag deliver the tagged bytes in full within the limit, that 304 answers only conditions, and that other successes carry no tag; a tagged 203 would come back as 200 from the cache. Http.CacheSpoilsNoSuccess drops the first assumption.
- Fetch headers, delays, jitter, time-outs and redaction: only the parsed content-length, retry-after and etag of a reply are modelled; decoding and JSON parsing are one arbitrary function of the bytes.
- MintTarget.TypedTimeComesBack: states the first sixteen units of the trimmed text, so seconds are dropped, as the form has no seconds.
- Parsing of targets (`parseMintTarget`) and of date strings: instants are integers or NaN.
- Units: decimals are non-negative; negative arguments have no meaning in the source. `-0` is printed for negative values that truncate to zero, as the sign property states.
- Dedupe thresholds are integers below the range where JavaScript switches to exponents.
- Execution.SpendingStaysUnderTheCeiling: holds of a caller that passes the total so far, which the worker does not do; the claim that lets one attempt through per plan is a database statement and not part of this model.
- Presign: near the fire instant the worker does not broadcast the stored transaction but asks for fresh calldata (`apps/worker/src/workers/execution.ts:1468-1472`); what is proved is the age of the row, whether used or not.
- Presign passes: one row is followed, from unsigned; removal of the stored transaction (after a failed broadcast, with its key, or at a final status) ends the run, and the next run starts from an unsigned row, save instants are taken on the worker's clock and never go back, and one nonce report stands for each pass.
- Sign-ins without an after hook (rejected ones, a crash or an abandoned request): rejected requests end at their before hook, and a guess that never reaches its after hook stays open.
- Minting: the contract's own refusal is a predicate on a landing, which is counted as if it had been accepted; a check whose contract reads failed, and so keeps the requested quantity, is not followed.
- Allowance.NoWalletPassesItsCaps: a request without a known cap is bounded by the supply alone, as in the source.
- Allowance supply above 2^53, where conversion to a number rounds, is exact here.
- Holder percentages: the rounded share is an arbitrary function of quantity and total.
- Chunking.ChunkDiscordMessage: requires a positive length, without which the source's slicing loop does not end.
- The auto-mint planner, the chain worker, repositories, queues, signing, secrets, RBAC, embeds, scoring, scripts and the user interface: I/O, cryptography, floating point or one-branch facts.
