# A verified model of the enterprise system's stateful core

Dafny models of the parts of the repository that keep state or run concurrently, with proofs
about every run of them. `dafny verify dfyconfig.toml` checks the whole project.

| file | models |
|---|---|
| `Numeric.dfy` | NUMERIC(19,4) storage rounding |
| `Ledger.dfy` | the ledger tables, `process_transaction` and `validate_balance`, as tables updated in place and as one atomic step |
| `LedgerRuns.dfy` | runs of ledger calls: agreement of balances and ledger, conservation, bounds, idempotency, audit trail |
| `LedgerConcurrency.dfy` | `process_transaction` statement by statement in many sessions, with row locks, index waits, aborts, and accounts opened and changing status meanwhile |
| `Parallel.dfy` | the worker pool `parallel` |
| `CircuitBreaker.dfy` | `CircuitBreaker` with overlapping calls |
| `Throttler.dfy` | `ThrottlerGuard`, the fixed-window limiter with cleanup |
| `EmailBucket.dfy` | the token bucket at the head of `EmailService.send` |
| `User.dfy`, `UserRepository.dfy` | the `User` entity and the optimistic concurrency of `save` |
| `Sessions.dfy`, `SessionRotation.dfy` | refresh-token rotation by `AuthService` and `RefreshTokenUseCase`, call by call |
| `SessionOverlap.dfy` | `AuthService.refreshTokens` step by step, any number of requests at once |
| `Cache.dfy` | `CacheService` and the `Cached` decorator |
| `Redact.dfy` | `LoggerService.redact` |

Code that changes state is a class. Its methods are proved equal to functions on the abstract
state, and the theorems are lemmas about runs of those functions. Protocols whose steps
interleave are state machines over sequences of events.

Clocks, random values, generated ids, the rate limiter's verdict, Redis failures and the way a
task settles are parameters. Ledger amounts are counted in units of 0.0001; the amount argument
is any real number of units.

## Where the code and its documentation disagree

The model follows the code.

- `process_transaction` tests `v_txn IS NOT NULL` (line 328). On a composite value that is true
  only when every column is non-null. The rows that the function writes have null `failed_at`,
  `failure_reason` and `reversed_at`, so a repeated key never returns the first transaction, it
  raises a unique violation. `RepeatedKey` gives the exact condition, `RepeatAlwaysRaises` and
  `ReplayDoesNotReturnTheFirst` what follows. One effect a key holds all the same.
- The schema speaks of SERIALIZABLE isolation (line 8), which nothing sets. The concurrency
  results use only the row locks and the unique indexes.
- The schema says that all ledger entries sum to zero (line 109). A transaction without a
  destination has only its debit, so they sum to minus the one-sided amounts, and to zero if and
  only if every transaction has a destination (`EntriesSumToZeroExactlyWhen`,
  `OneSidedDoesNotSumToZero`).
- The schema calls the ledger the source of truth for balances (line 107). An amount that is a
  tie (half a unit) can move a stored balance by a unit more or less than its entry says.
  `BalanceEquation` counts these misses for every account in every run, `LedgerIsTheSourceOfTruth`
  says that a balance agrees exactly when they cancel out, and `TieMisses` shows one.
- The accounts' status is checked without a lock (lines 333-348), so a call can post on an account
  that was frozen after the check (`FrozenAccountStillPosts`, `FreezeBehindTheCheck`). An
  interleaving is serial exactly when every posting call finds its accounts active at its commit
  (`SerialExactlyWhen`); everything but the status is serial regardless (`SerialButForStatus`).
- The circuit breaker's comment promises a limited number of calls while half-open (line 257).
  There is no limit (`HalfOpenAdmitsAll`), and the state is reached (`HalfOpenIsReached`).
- `parallel` returns holes when `concurrency` is below 1 (`ResolvedIsComplete`,
  `HolesWithoutWorkers`). Under `failFast` a failing task stops only the worker that ran it: a task
  is started exactly when fewer of the tasks before it reject than there are workers
  (`FailFastStartsExactly`, `FailFastKeepsStarting`).
- `X-RateLimit-Reset` names the end of the window on a rejection, but is computed as for a window
  that opens now on every admission, so within an open window it is late (`ResetHeaderIsLate` says
  exactly when, `ResetHeaderHalfAMinuteLate` shows one).
- The `User` entity promises an event at every status change (lines 24-26). `changeEmail` sets
  the status without one (`StatusChangeIsAnnounced`), and after such a change no later event makes
  the chain of events right again (`EventsReplayTheStatus`).
- The `User` entity requires an admin action to reactivate a suspended user (line 29). Its methods
  `deactivate` and then `activate` do it (`DeactivateThenActivate`); `ReadmissionTakesTwoSteps`
  says exactly which sequences of calls do.
- `getExpectedVersion` is described as called before changes (lines 354-358), but `save` calls it
  after them. The guard is right for exactly one mutation; with more it lets updates be lost
  (`UpdateCommitsExactlyWhen`, `TwoMutationsLoseAnUpdate`).
- The refresh endpoint's test expects exactly one of two concurrent refreshes to succeed
  (test/e2e/auth.e2e-spec.ts:113-136). The lookup and the revocation are separate statements.
  For a row that stays in the table and an active user, a request issues a new pair exactly when
  its lookup comes before every revocation of the row (`IssuesExactlyWhen`); of two, exactly one
  does if and only if one looks up after the other has revoked (`ExactlyOneIssues`), and otherwise
  both do (`OverlappingRefreshesBothIssue`, `OverlapIsReached`).
- `Cached` joins arguments with colons, so argument lists that contain colons can share an entry
  (`ColonsCollide`). `CachedAgreesExactlyWhen` says for which calls this matters.
- Namespacing is said to prevent key collisions (cache.service.ts:8). Between namespaces of which
  one, with its colon, begins with the other it does not (`NamespacesCollideExactlyWhen`).
- Clean-up deletes revoked rows that `RefreshTokenUseCase` needs in order to recognize a reused
  token (`CleanupBlindsTheUseCase`).

## Model

| member | source | states |
|---|---|---|
| Numeric.RoundIsNearest | supabase/migrations/00005_financial_schema.sql:46-47 | storage rounding yields n if and only if n is the nearest unit, ties going away from zero |
| Numeric.RoundDebit | supabase/migrations/00005_financial_schema.sql:377-380 | rounding after the subtraction equals rounding the amount first, off by one exactly for a tie above zero |
| Numeric.RoundCredit | supabase/migrations/00005_financial_schema.sql:392-395 | rounding after the addition equals rounding the amount first, off by one exactly for a tie below zero |
| Ledger.Store.UpdateBalance | supabase/migrations/00005_financial_schema.sql:249-286 | an UPDATE of a balance stores the rounded value and logs a change, or fails on precision or on the trigger and changes nothing |
| Ledger.Store.RunStatements | supabase/migrations/00005_financial_schema.sql:312-422 | the statements in order give the outcome of the atomic call, and its database when they return |
| Ledger.Store.ProcessTransaction | supabase/migrations/00005_financial_schema.sql:292-423 | one call with its rollback equals the atomic step; a call that raises leaves every table as it was |
| LedgerRuns.RaisesExactlyWhen | supabase/migrations/00005_financial_schema.sql:333-404 | for every admitted call that does not return early, each error if and only if a condition on the request and the tables: which account is missing, inactive or foreign, whether the balance covers the amount, whether the row passes its constraints, whether id or key is taken, whether a balance fits |
| LedgerRuns.LimitThenEarlyReturn | supabase/migrations/00005_financial_schema.sql:312-331 | the limiter's refusal comes first and only when it refuses; a raise changes nothing; an early return gives a committed row with the key, of the organization, without a null column |
| LedgerRuns.PostedRow | supabase/migrations/00005_financial_schema.sql:362-374 | what a call that posts returns and commits, column by column |
| LedgerRuns.OtherActions | supabase/migrations/00005_financial_schema.sql:40-90 | what opening an account and changing its status do to the tables, and when they do nothing |
| LedgerRuns.PostedAgreement | supabase/migrations/00005_financial_schema.sql:376-404 | how far one posted call moves any account from its ledger sum: by one unit up for a source that holds more than a tie amount, one down for a destination that stays below zero under one, and otherwise not at all |
| LedgerRuns.BalanceEquation | supabase/migrations/00005_financial_schema.sql:376-404 | over any run, ties included, a stored balance is the opening balance plus credits minus debits plus the misses of the posted calls |
| LedgerRuns.SnapshotEquation | supabase/migrations/00005_financial_schema.sql:382-403 | over any run every balance_after is the opening balance plus the account's sum up to its entry plus the misses until then, and every entry is of an existing account |
| LedgerRuns.LedgerIsTheSourceOfTruth | supabase/migrations/00005_financial_schema.sql:44-47 | over any run, ties included, a balance equals opening plus credits minus debits if and only if the account's misses cancel out, and a balance_after if and only if they had until its entry |
| LedgerRuns.NoTiesNoMisses | supabase/migrations/00005_financial_schema.sql:44-47 | without tie amounts no account and no snapshot ever misses, so all agree |
| LedgerRuns.TieMisses | supabase/migrations/00005_financial_schema.sql:377-380 | a concrete tie transfer after which a balance is ten where the ledger says nine |
| LedgerRuns.EntriesSumToZeroExactlyWhen | supabase/migrations/00005_financial_schema.sql:106-109 | over any run all entries sum to minus the one-sided amounts, and to zero if and only if every transaction has a destination |
| LedgerRuns.OneSidedDoesNotSumToZero | supabase/migrations/00005_financial_schema.sql:106-109 | a concrete payment without a destination after which the entries do not sum to zero |
| LedgerRuns.PostedConservation | supabase/migrations/00005_financial_schema.sql:376-404 | one posted call changes the sum of balances by minus its one-sided amount plus a drift of -1, 0 or 1 unit, which is 0 unless the amount is a tie |
| LedgerRuns.Conservation | supabase/migrations/00005_financial_schema.sql:376-404 | over any run the sum of balances plus one-sided amounts is the opening total plus balances of accounts opened plus the drift of the posted calls, at most one unit a transaction and none without ties |
| LedgerRuns.TriggerUnreachable | supabase/migrations/00005_financial_schema.sql:256-266 | a call meets the trigger's insufficient-funds exception only by crediting a non-credit account that is below zero; from balances in bounds it never does and leaves balances in bounds |
| LedgerRuns.BalancesStayInBounds | supabase/migrations/00005_financial_schema.sql:46-47 | over any run that opens no non-credit account below zero every balance is in range and every non-credit balance is non-negative |
| LedgerRuns.EntriesOfPosted | supabase/migrations/00005_financial_schema.sql:382-403 | a posted call adds exactly its own debit and credit entries under its own id and touches no other transaction's |
| LedgerRuns.OneEffectPerKey | supabase/migrations/00005_financial_schema.sql:172 | over any run there is at most one transaction a key, each with exactly one debit and, when two-sided, one credit of equal amount on another account |
| LedgerRuns.AuditTrailIsComplete | supabase/migrations/00005_financial_schema.sql:268-277 | over any run an account's audit records chain from its opening balance to its stored balance |
| LedgerRuns.OnlyNamedAccountsMove | supabase/migrations/00005_financial_schema.sql:333-348 | a call changes only balances, only of its source and destination, and only if active and of the caller's organization |
| LedgerRuns.TransactionsStayInOneOrg | supabase/migrations/00005_financial_schema.sql:12-13 | over any run both accounts of every transaction belong to its organization |
| LedgerRuns.WholeUnitTransfer | supabase/migrations/00005_financial_schema.sql:321-404 | exactly when an admitted whole-unit transfer posts, and the balances, entries and row it then leaves, with no rounding |
| LedgerRuns.RepeatedKey | supabase/migrations/00005_financial_schema.sql:321-331 | a call with a committed key changes nothing, and returns the committed row if and only if it is admitted, of the same organization and free of nulls |
| LedgerRuns.ReturnsEarlyExactlyWhen | supabase/migrations/00005_financial_schema.sql:321-331 | a repeated key returns the committed row if and only if it is of the same organization and none of the eight nullable columns beside the key is null |
| LedgerRuns.RepeatAlwaysRaises | supabase/migrations/00005_financial_schema.sql:328-330 | in every reachable state a repeated key raises and changes nothing |
| LedgerRuns.ReplayDoesNotReturnTheFirst | supabase/migrations/00005_financial_schema.sql:328-330 | a concrete request sent twice posts once and then raises a unique violation |
| LedgerConcurrency.CommitIsAtomicExactlyWhen | supabase/migrations/00005_financial_schema.sql:333-421 | what a session publishes at commit is the effect of its statements on the database of that moment, and what the atomic call does there if and only if both named accounts are still active |
| LedgerConcurrency.CommitOfAnother | supabase/migrations/00005_financial_schema.sql:351-354 | a commit leaves every other session's locked rows, checked columns and reserved key and id as they were |
| LedgerConcurrency.StepKeepsInv | supabase/migrations/00005_financial_schema.sql:321-423 | every statement, abort and commit of any session keeps locks disjoint, keys apart and every session's writes what a fresh computation gives |
| LedgerConcurrency.WaitsExactlyWhen | supabase/migrations/00005_financial_schema.sql:351-404 | a statement waits if and only if another running session holds the row it is to lock or update, or has written a transaction with the id or key it is to insert |
| LedgerConcurrency.DeadlockIsACycle | supabase/migrations/00005_financial_schema.sql:351-404 | in any reachable state where every running session waits, some wait for each other in a cycle, each about to insert its transaction or update its destination |
| LedgerConcurrency.UnrelatedCallsOverlap | supabase/migrations/00005_financial_schema.sql:351-421 | from the start, two requests that would post and share no account and no key hold their locks at the same time and both commit, the first without any wait for the second |
| LedgerConcurrency.OppositeTransfersDeadlock | supabase/migrations/00005_financial_schema.sql:351-392 | from the start, two transfers in opposite directions come to wait for each other |
| LedgerConcurrency.AbortReleases | supabase/migrations/00005_financial_schema.sql:351-404 | an abort drops the session's writes, commits nothing, leaves every other session alone and blocks nobody any more |
| LedgerConcurrency.AbortEndsTheDeadlock | supabase/migrations/00005_financial_schema.sql:351-421 | aborting one of two sessions that wait for each other lets the other run to its commit |
| LedgerConcurrency.SerialExactlyWhen | supabase/migrations/00005_financial_schema.sql:321-423 | for any sessions, interleaving, aborts, openings and changes of status, the committed database and all returned outcomes are those of the committed actions run atomically in commit order if and only if every posting call found its accounts active when it committed; otherwise the outcomes alone differ |
| LedgerConcurrency.NoStatusChangeIsSerial | supabase/migrations/00005_financial_schema.sql:333-348 | without changes of status every commit finds its accounts active, so every interleaving is serial |
| LedgerConcurrency.SerialButForStatus | supabase/migrations/00005_financial_schema.sql:321-423 | in every interleaving, whatever changes of status, all but the status is what the committed actions leave when run atomically in commit order on active accounts, with the outcomes they have there |
| LedgerConcurrency.FrozenAccountStillPosts | supabase/migrations/00005_financial_schema.sql:333-354 | from any state with a lone session about to lock the source of a call that would post, taking source or destination out of the active status lets the call commit where the atomic call raises |
| LedgerConcurrency.FreezeBehindTheCheck | supabase/migrations/00005_financial_schema.sql:333-354 | the run from the start in which that happens, for any request that would post: begin, four checks, change of status, the remaining statements; its outcomes are not those of the serial run |
| LedgerConcurrency.StatementsComputeTheCall | supabase/migrations/00005_financial_schema.sql:312-422 | run alone, the statements always come to an end with the outcome and database of the atomic call, raised or returned |
| LedgerConcurrency.ConcurrentSafety | supabase/migrations/00005_financial_schema.sql:106-109 | in every interleaving: one effect a key, balanced entries, balances in bounds, conservation up to the drift, and entries that sum to minus the one-sided amounts, to zero exactly when all transactions are two-sided |
| LedgerConcurrency.NoUpdateIsLost | supabase/migrations/00005_financial_schema.sql:377-395 | in every interleaving, ties included, every balance is its opening balance plus its committed entries plus its committed calls' misses |
| LedgerConcurrency.ConcurrentWithoutTies | supabase/migrations/00005_financial_schema.sql:44-47 | in every interleaving of requests without tie amounts balances agree with committed entries and money is conserved exactly |
| LedgerConcurrency.ConcurrentSnapshots | supabase/migrations/00005_financial_schema.sql:382-403 | in every interleaving every committed balance_after is opening plus the account's sum up to its entry plus the misses until then |
| LedgerConcurrency.TriggerNeverRaises | supabase/migrations/00005_financial_schema.sql:256-266 | in every interleaving over accounts in bounds no session's update of a balance meets the trigger's insufficient-funds exception |
| Parallel.RunKeepsInv | src/common/utils/async.util.ts:206-224 | in every interleaving distinct workers await distinct started tasks, a slot is filled exactly by its own settled task, and errors are collected once each |
| Parallel.StartsOnceWithinLimit | src/common/utils/async.util.ts:212-230 | tasks start in order and at most once, and at most min(concurrency, n) are in flight |
| Parallel.LimitIsReached | src/common/utils/async.util.ts:226-230 | for every job with concurrency of at least 1 some run has exactly min(concurrency, n) tasks in flight, each with its own worker |
| Parallel.ResolvedIsComplete | src/common/utils/async.util.ts:206-241 | a normal return holds every task's own value if and only if concurrency is at least 1 or there are no tasks |
| Parallel.HolesWithoutWorkers | src/common/utils/async.util.ts:226-241 | with concurrency at or below 0 every run returns an array of holes of the tasks' length |
| Parallel.AggregateIsExact | src/common/utils/async.util.ts:234-239 | without failFast every task is started, the errors are those of exactly the rejecting tasks, and the promise rejects if and only if there is one |
| Parallel.FailFastRejectsWithTheFirst | src/common/utils/async.util.ts:216-233 | under failFast the promise rejects exactly once some event has settled a rejected task, with the error of the task settled by the earliest such event |
| Parallel.VerdictIsFinal | src/common/utils/async.util.ts:232-241 | once the returned promise has settled no worker's step changes it |
| Parallel.FailFastStartsExactly | src/common/utils/async.util.ts:211-230 | under failFast, in every interleaving, once the workers are done a task has been started if and only if fewer of the tasks before it reject than concurrency allows at once |
| Parallel.FailFastKeepsStarting | src/common/utils/async.util.ts:212-220 | a concrete run in which a task is started after the failFast rejection |
| Parallel.StepsLeadToTheEnd | src/common/utils/async.util.ts:211-224 | every step decreases a measure, and while the promise is pending some worker can step |
| Parallel.RunsAreBounded | src/common/utils/async.util.ts:211-230 | no interleaving has more than 3n + min(max(concurrency, 0), n) effective steps |
| Parallel.WorkerPool.constructor | src/common/utils/async.util.ts:205-230 | the shared variables start as the model's, with min(max(concurrency, 0), n) workers, all ready |
| Parallel.WorkerPool.TakeNext | src/common/utils/async.util.ts:212-215 | the loop test and the start of the next task are the model's step |
| Parallel.WorkerPool.OnSettled | src/common/utils/async.util.ts:215-222 | the continuation after a settled task is the model's step |
| Parallel.WorkerPool.RunToEnd | src/common/utils/async.util.ts:226-241 | any schedule of the workers ends, with a settled promise |
| CircuitBreaker.CircuitBreaker.ReadState | src/common/utils/async.util.ts:300-309 | reading the state refreshes it as the model does |
| CircuitBreaker.CircuitBreaker.TryBegin | src/common/utils/async.util.ts:319-328 | a call is admitted if and only if the refreshed state is not open |
| CircuitBreaker.CircuitBreaker.OnSuccess | src/common/utils/async.util.ts:351-363 | a success changes the fields as the model does |
| CircuitBreaker.CircuitBreaker.OnFailure | src/common/utils/async.util.ts:365-379 | a failure changes the fields as the model does |
| CircuitBreaker.CircuitBreaker.ResetBreaker | src/common/utils/async.util.ts:343-349 | a reset restores the initial fields |
| CircuitBreaker.CountersMeanHistory | src/common/utils/async.util.ts:351-379 | over any overlapping calls the counters are the consecutive failures, or the successes without a failure, since the present state was entered, short of their thresholds |
| CircuitBreaker.TransitionsFollowHistory | src/common/utils/async.util.ts:259-264 | the circuit opens exactly at the threshold-th consecutive failure or any half-open failure, closes exactly at the threshold-th half-open success or a reset, and half-opens exactly at the first look past its deadline |
| CircuitBreaker.FailureCountMeansRow | src/common/utils/async.util.ts:351-366 | in every state the failure count is the failures since the last reset, closing, or success outside half-open |
| CircuitBreaker.DeadlineFollowsLastFailure | src/common/utils/async.util.ts:369-378 | in the open state the deadline is resetTimeoutMs after the last failure that was half-open or made a row of failureThreshold, completions while open included |
| CircuitBreaker.LastFailureIsRemembered | src/common/utils/async.util.ts:343-367 | in every state the recorded failure time is that of the latest failure since the last reset |
| CircuitBreaker.NoStartBeforeTheTimeout | src/common/utils/async.util.ts:319-328 | after a trip at T, with a monotone clock and no reset, no call starts before T + resetTimeoutMs, whatever completes meanwhile |
| CircuitBreaker.HalfOpenAdmitsAll | src/common/utils/async.util.ts:255-258 | any number of calls begun while half-open are all admitted |
| CircuitBreaker.HalfOpenIsReached | src/common/utils/async.util.ts:300-309 | under any options failureThreshold calls that begin and fail, and a call after the timeout, reach the half-open state, and all of them are let through |
| Throttler.ThrottlerGuard.CanActivate | src/security/rate-limiting/throttler.guard.ts:102-161 | the decision, the values of its Remaining, Retry-After and Reset headers, and the new store are the model's |
| Throttler.ThrottlerGuard.SweepExpired | src/security/rate-limiting/throttler.guard.ts:178-185 | the deletion loop leaves exactly the entries that are not expired |
| Throttler.RemainingCountsDown | src/security/rate-limiting/throttler.guard.ts:107-157 | within a window the next request is admitted if and only if the Remaining header was above zero, which then falls by one; a new window starts it at limit - 1 |
| Throttler.RetryAfterIsTight | src/security/rate-limiting/throttler.guard.ts:114-118 | a rejected client is let in a millisecond after the Retry-After seconds, never a second sooner, and at the instant itself unless the wait is whole seconds |
| Throttler.ResetHeaderIsLate | src/security/rate-limiting/throttler.guard.ts:149-161 | the Reset header names the second in which the stored window ends if and only if the request opens the window, is rejected, or follows the opening by no more than the end lacks to a whole second; else it is late by the window's age up to rounding |
| Throttler.ResetHeaderHalfAMinuteLate | src/security/rate-limiting/throttler.guard.ts:140-161 | a concrete admission half a minute into a minute's window, with the header half a minute late |
| Throttler.CleanupChangesNoDecision | src/security/rate-limiting/throttler.guard.ts:178-185 | for any keys, limits and windows, sweeps at any time change no later decision |
| Throttler.OpenWindow | src/security/rate-limiting/throttler.guard.ts:107-112 | a new window opens more than windowMs after the previous one and keeps the window invariant |
| Throttler.LessThanTwiceTheQuota | src/security/rate-limiting/throttler.guard.ts:102-144 | with sweeps, every closed interval of length windowMs admits at most 2 * max(1, limit) - 1 requests |
| Throttler.BoundIsMet | src/security/rate-limiting/throttler.guard.ts:102-144 | for every limit and window some run admits exactly 2 * limit - 1 in such an interval |
| EmailBucket.EmailService.constructor | src/infrastructure/external-services/email.service.ts:48-56 | a new service has a full bucket of 100 tokens per minute |
| EmailBucket.EmailService.RefillTokens | src/infrastructure/external-services/email.service.ts:213-224 | a refill adds what was earned, up to the limit |
| EmailBucket.EmailService.TakeToken | src/infrastructure/external-services/email.service.ts:62-70 | a send is accepted if and only if the refilled bucket is above zero, and then takes one token |
| EmailBucket.TokensInRange | src/infrastructure/external-services/email.service.ts:62-70 | the tokens stay above -1 and at or below the limit |
| EmailBucket.AcceptedBelowBound | src/infrastructure/external-services/email.service.ts:61-70 | any interval of length D accepts fewer than rateLimit + 1 + D * rateLimit / windowMs sends |
| EmailBucket.BoundIsMet | src/infrastructure/external-services/email.service.ts:61-70 | for every configuration with a window of at least a millisecond and every length D some run accepts at least rateLimit + D * rateLimit / windowMs sends in it, so the bound cannot be lowered by one |
| EmailBucket.RefusedOnlyWhenSpent | src/infrastructure/external-services/email.service.ts:64-69 | a send is refused only if more than rateLimit - 1 sends were accepted in the window ending with it |
| User.UserEntity.Reconstitute | src/domain/entities/user.entity.ts:109-135 | an entity loaded from persistence has the stored values and no events |
| User.UserEntity.Activate | src/domain/entities/user.entity.ts:144-168 | activate performs the model's operation |
| User.UserEntity.Suspend | src/domain/entities/user.entity.ts:175-193 | suspend performs the model's operation |
| User.UserEntity.Deactivate | src/domain/entities/user.entity.ts:198-216 | deactivate performs the model's operation |
| User.UserEntity.VerifyEmail | src/domain/entities/user.entity.ts:223-247 | verifyEmail performs the model's operation |
| User.UserEntity.RecordLogin | src/domain/entities/user.entity.ts:254-264 | recordLogin performs the model's operation |
| User.UserEntity.ChangeEmail | src/domain/entities/user.entity.ts:269-279 | changeEmail performs the model's operation |
| User.UserEntity.ChangePassword | src/domain/entities/user.entity.ts:285-289 | changePassword performs the model's operation |
| User.UserEntity.UpdateProfile | src/domain/entities/user.entity.ts:294-302 | updateProfile performs the model's operation |
| User.ThrowsExactlyWhen | src/domain/entities/user.entity.ts:139-302 | each exception if and only if its call meets its state: activating or suspending a suspended user, verifying twice, a login while not active, a name of no or more than 100 characters |
| User.LastWriteWins | src/domain/entities/user.entity.ts:249-302 | in any run the address, hash, names and login time are those of the last call that set them |
| User.UnsetStays | src/domain/entities/user.entity.ts:249-302 | in any run a datum that no call sets stays as it was |
| User.VerifiedSinceTheLastChange | src/domain/entities/user.entity.ts:223-279 | in any run the email counts as verified if and only if it was verified after its last change |
| User.TrimTakesOnlySpaces | src/domain/entities/user.entity.ts:294-302 | trimming takes all white space off both ends and nothing else |
| User.SpacesByCodePoint | src/domain/entities/user.entity.ts:294-302 | which code points are white space |
| User.VersionTracksChange | src/domain/entities/user.entity.ts:388-390 | a method that returns raises the version by exactly one, or leaves the whole entity unchanged |
| User.StatusChangeIsAnnounced | src/domain/entities/user.entity.ts:24-26 | an operation emits exactly the event of its status change if and only if it is not a change of address by a user not pending verification |
| User.EventsReplayTheStatus | src/domain/entities/user.entity.ts:139-302 | over any calls the emitted events chain from the first status to the last if and only if no call was a change of address by a user not pending verification |
| User.NewEmailNeedsVerification | src/domain/entities/user.entity.ts:33 | after a change of address no calls make the user able to log in until the email is verified |
| User.LeavingSuspension | src/domain/entities/user.entity.ts:144-279 | in any run of a suspended user the user is no longer suspended if and only if a call was a deactivation or a change of address while suspended and no suspension came after it |
| User.ReadmissionTakesTwoSteps | src/domain/entities/user.entity.ts:29 | in any run of a suspended user the user is active if and only if one call left suspension, a later one was an activation or a verification while pending, and none after that ended the active status |
| User.DeactivateThenActivate | src/domain/entities/user.entity.ts:29 | deactivate and then activate make any suspended user active, and able to log in if verified |
| UserRepository.UserTable.FindById | src/infrastructure/database/repositories/user.repository.impl.ts:37-52 | a load throws not-found exactly for a missing row, fails otherwise exactly for an unreadable one, and else returns the stored row's entity |
| UserRepository.UserTable.UpdateWhere | src/infrastructure/database/repositories/user.repository.impl.ts:106-122 | the conditional update writes exactly when the version matches |
| UserRepository.UserTable.Save | src/infrastructure/database/repositories/user.repository.impl.ts:95-168 | save without interference has the model's outcome and row |
| UserRepository.SaveOutcomes | src/infrastructure/database/repositories/user.repository.impl.ts:95-168 | every outcome of a save if and only if a condition on the row, the version and the unique email |
| UserRepository.SavedIsReloaded | src/infrastructure/database/repositories/user.repository.impl.ts:106-168 | a committed save stores the entity column by column, so a load returns the entity, with the old hash when it carries none |
| UserRepository.ReloadReturnsTheSaved | src/infrastructure/database/repositories/user.repository.impl.ts:37-52 | in any state a load after a client's committed save holds the saved entity, based on the new row |
| UserRepository.VerifiedUserCanLogIn | src/infrastructure/database/repositories/user.repository.impl.ts:112-121 | a pending user who verifies the email can log in once saved and loaded by anyone |
| UserRepository.GoesOnWith | src/infrastructure/database/repositories/user.repository.impl.ts:124-168 | what entity a client holds after a save, committed or not |
| UserRepository.RunKeepsInv | src/infrastructure/database/repositories/user.repository.impl.ts:95-124 | in any interleaving versions number the committed rows and every client's entity is its base row changed by its mutations |
| UserRepository.UpdateCommitsExactlyWhen | src/infrastructure/database/repositories/user.repository.impl.ts:102-122 | an update commits if and only if the commits since its base number one less than its mutations; it then raises the version by one, and its base is the row it overwrites exactly for one mutation |
| UserRepository.OneMutationLosesNothing | src/domain/entities/user.entity.ts:359-361 | with one mutation the committed row loads as the entity of the row it overwrites, changed by that mutation |
| UserRepository.TwoMutationsLoseAnUpdate | src/domain/entities/user.entity.ts:359-361 | from any state with two clients on the current row of an active user, two mutations overwrite the other's committed save unseen |
| UserRepository.LoadedTwiceIsReached | src/infrastructure/database/repositories/user.repository.impl.ts:95-124 | a run from the empty table after which two clients hold the entity of the current row of an active user |
| Sessions.ParseComposite | src/security/authentication/auth.service.ts:112-132 | a composite token that was handed out is read back as its user and value |
| Sessions.ParsesExactlyWhen | src/security/authentication/auth.service.ts:131-132 | a token is read as a user and a value if and only if they are its first two parts between dots and not empty |
| Sessions.SessionTable.Create | src/security/authentication/auth.service.ts:101-109 | a login adds one unrevoked session |
| Sessions.SessionTable.RevokeMatching | src/security/authentication/auth.service.ts:151-182 | the comparison loop revokes the first live matching session, and reports whether there is one |
| Sessions.SessionTable.RevokeAll | src/security/authentication/auth.service.ts:240-246 | all the user's unrevoked sessions are revoked, and their number returned |
| Sessions.SessionTable.RefreshTokens | src/security/authentication/auth.service.ts:125-204 | a refresh has the model's outcome and table |
| Sessions.SessionTable.ExecuteRefresh | src/application/use-cases/refresh-token.use-case.ts:44-136 | the use case has the model's outcome, missing and inactive users told apart, and the model's table |
| Sessions.SessionTable.RevokeSession | src/security/authentication/auth.service.ts:209-235 | a logout revokes the named session, or all of the user's when none is named or matched |
| Sessions.SessionTable.CleanupExpiredSessions | src/security/authentication/auth.service.ts:251-259 | clean-up deletes exactly the revoked and expired sessions and returns their number |
| SessionRotation.StepEvolves | src/security/authentication/auth.service.ts:70-259 | every operation only revokes rows, or deletes revoked ones, or also adds one row with the token it minted |
| SessionRotation.UseCaseOutcomes | src/application/use-cases/refresh-token.use-case.ts:49-136 | every outcome of the use case if and only if a condition on the token's row and the users, and the table it leaves: it issues exactly for an unrevoked, unexpired row of an active user |
| SessionRotation.UnknownTokenIsInvalid | src/application/use-cases/refresh-token.use-case.ts:49-56 | the use case answers invalid if and only if no row has the token |
| SessionRotation.HandedOutTokenIsAccepted | src/application/use-cases/refresh-token.use-case.ts:105-136 | the token that the use case hands out is accepted by the next call within its lifetime |
| SessionRotation.RefreshOutcomes | src/security/authentication/auth.service.ts:142-203 | every outcome of AuthService for a well-formed token if and only if a condition on its row and the users, and the table it leaves |
| SessionRotation.HandedOutPairIsAccepted | src/security/authentication/auth.service.ts:112-116 | the token that AuthService hands out is accepted by the next call within its lifetime |
| SessionRotation.LogoutRevokes | src/security/authentication/auth.service.ts:209-235 | row by row, which sessions a logout revokes: the named live one alone, or all of the user's |
| SessionRotation.CountsEachRevokedRow | src/security/authentication/auth.service.ts:240-246 | the reported number counts each revoked row once |
| SessionRotation.CleanupDeletes | src/security/authentication/auth.service.ts:251-259 | clean-up deletes exactly the rows that are revoked and expired |
| SessionRotation.EachTokenIsRedeemedOnce | src/security/authentication/auth.service.ts:4-6 | over any run of whole calls mixing both protocols with fresh tokens, each refresh token is redeemed at most once |
| SessionRotation.ReuseRevokesAll | src/application/use-cases/refresh-token.use-case.ts:58-67 | in both protocols a token refused as revoked leaves its user no unrevoked session |
| SessionRotation.SpentTokenIsRefused | src/security/authentication/auth.service.ts:161-176 | a redeemed token presented again is refused as revoked |
| SessionRotation.SpentTokenEndsTheUseCase | src/application/use-cases/refresh-token.use-case.ts:51-75 | a redeemed token presented to the use case is refused as revoked while its row exists, expired or not |
| SessionRotation.LogoutSpendsTheToken | src/security/authentication/auth.service.ts:209-235 | logging out with one of the user's tokens makes it unusable and touches no other user's session |
| SessionRotation.RefreshAddsNoSession | src/security/authentication/auth.service.ts:178-203 | no refresh of either protocol leaves any user more live sessions, and one that issues leaves exactly as many |
| SessionRotation.CleanupChangesNoRefresh | src/security/authentication/auth.service.ts:248-259 | in any run of AuthService operations clean-ups at any time change no later refresh |
| SessionRotation.CleanupBlindsTheUseCase | src/application/use-cases/refresh-token.use-case.ts:49-67 | a clean-up changes the use case's answer exactly when it deletes the presented token's row |
| SessionOverlap.LiveUntilRevoked | src/security/authentication/auth.service.ts:143-196 | over any run of interleaved steps the row of a token ever stored is unrevoked, and in the table, exactly until the first step that revokes it |
| SessionOverlap.LateLogoutRevokes | src/security/authentication/auth.service.ts:209-224 | the late update of an overlapping logout revokes its row whenever that is live |
| SessionOverlap.IssuesExactlyWhen | src/security/authentication/auth.service.ts:125-204 | in every interleaving an ended request issued a new pair if and only if the row was its user's, unexpired and revoked by no step before its lookup, was in the table at its first revocation step, and the user was active at its first load after that |
| SessionOverlap.ExactlyOneIssues | test/e2e/auth.e2e-spec.ts:113-136 | of two requests with one token whose row nothing else revokes at least one issues, and exactly one if and only if one's lookup follows the other's revocation step |
| SessionOverlap.OnlyOverlappingRequestsBothIssue | src/security/authentication/auth.service.ts:4-6 | whatever else happens, two requests with one token both issue only if each looked it up before the other's revocation step |
| SessionOverlap.UndisturbedIsRefresh | src/security/authentication/auth.service.ts:125-204 | a request whose four steps run without another in between has the outcome and leaves the table of the whole operation |
| SessionOverlap.OneAfterTheOther | src/security/authentication/auth.service.ts:161-176 | of two refreshes with one token, one after the other, the second is refused and leaves the user no live session |
| SessionOverlap.OverlappingRefreshesBothIssue | src/security/authentication/auth.service.ts:143-203 | from any state with a live token two requests that both look up before either revokes both issue and add a live session |
| SessionOverlap.OverlapIsReached | test/e2e/auth.e2e-spec.ts:113-136 | a concrete run from the empty tables in which two overlapping requests with one token both issue |
| Cache.JoinIsInjective | src/infrastructure/cache/cache.service.ts:304 | colon-free argument lists join alike if and only if they are equal, or one is empty and the other one empty string |
| Cache.KeysDoNotCollide | src/infrastructure/cache/cache.service.ts:250-253 | no two valid calls of decorated methods in one namespace share a full key |
| Cache.CachedAgreesExactlyWhen | src/infrastructure/cache/cache.service.ts:296-321 | for any set of calls, with colons or without, every call returns its method's value in every run if and only if no call leaves a value, under a full key it shares with another, that the other's method does not return |
| Cache.ClashShows | src/infrastructure/cache/cache.service.ts:304-312 | one write by a call is enough for a call with the same full key to return its value |
| Cache.CachedAgreesWithMethod | src/infrastructure/cache/cache.service.ts:296-321 | for all calls with colon-free keys and arguments of the right number, over any interleaving of calls, deletions, expiries and evictions, a decorated pure method returns what the method returns |
| Cache.ColonsCollide | src/infrastructure/cache/cache.service.ts:304 | two different argument lists with colons that join alike, and so share a full key under any method and namespace |
| Cache.NamespacesCollideExactlyWhen | src/infrastructure/cache/cache.service.ts:250-253 | calls in two namespaces can share a full key if and only if one namespace, with its colon, begins with the other; colon-free non-empty ones only if equal |
| Cache.NamespacesCollide | src/infrastructure/cache/cache.service.ts:250-253 | two colon-free calls in namespaces a and a:b with one full key |
| Cache.CacheService.Get | src/infrastructure/cache/cache.service.ts:90-110 | a read returns the live value or null and counts a hit, a miss or an error |
| Cache.CacheService.Set | src/infrastructure/cache/cache.service.ts:115-134 | a write stores the value for its ttl and counts a set, or fails, stores nothing and counts an error |
| Cache.EntryLivesForItsTtl | src/infrastructure/cache/cache.service.ts:115-134 | an entry is read for its ttl from its write and not a millisecond longer, and a write changes no other key |
| Cache.CacheService.Delete | src/infrastructure/cache/cache.service.ts:139-155 | exactly the named full keys are removed and counted, or nothing on a failure |
| Cache.CacheService.GetOrSet | src/infrastructure/cache/cache.service.ts:177-190 | a cached value is returned untouched; otherwise the factory's value is returned and found by the next read, or an error leaves the store alone |
| Cache.CacheService.CachedCall | src/infrastructure/cache/cache.service.ts:296-321 | among calls that do not clash a decorated call replies with the method's value or, exactly after a failed lookup or a miss whose write fails or has an invalid ttl, an error, and keeps the cache honest |
| Redact.RedactTree | src/observability/logging/logger.service.ts:220-235 | the loop over fields computes the recursive redaction |
| Redact.ShapeIsKept | src/observability/logging/logger.service.ts:220-234 | arrays keep their length, objects their keys in order, all else is unchanged |
| Redact.RedactedIsClean | src/observability/logging/logger.service.ts:226-227 | at every depth sensitive keys hold the mark |
| Redact.NamedFieldsAreMarked | src/observability/logging/logger.service.ts:21-39 | the seventeen field names whose values are replaced by the mark, and no others |
| Redact.ALoginRecord | src/observability/logging/logger.service.ts:220-235 | a concrete record with secrets beside, below and inside a list |
| Redact.CleanIffUnchanged | src/observability/logging/logger.service.ts:220-235 | redaction changes nothing if and only if the tree is clean already |
| Redact.RedactIsIdempotent | src/observability/logging/logger.service.ts:220-235 | redacting twice is redacting once |
| Redact.RevealsOnlyTheRest | src/observability/logging/logger.service.ts:216-235 | two trees have equal output if and only if they agree outside sensitive keys |

## Left out

- SessionRotation.EachTokenIsRedeemedOnce: is about whole calls; which of several overlapping requests issue is `SessionOverlap.IssuesExactlyWhen`, and that only overlapping ones do is `SessionOverlap.OnlyOverlappingRequestsBothIssue`.
- The statements of `RefreshTokenUseCase.execute`, and of a login, one by one; each is a single step next to the steps of `refreshTokens`.
- A token that equals the bcrypt hash stored in a row: hashed and plain tokens never match here, though both protocols share the one column.
- NaN and infinite amounts in `process_transaction`; every path raises on them.
- Null `p_org_id`, the text columns of accounts, and the metadata CHECK itself, which is one flag of the request.
- `check_rate_limit` as a quota: its last test lets any stored count pass, so it is a nondeterministic gate here.
- The hash chain of the audit log: an audit record is an append.
- The status an account is inserted with; `Open` makes it active, and a change of status may follow at once.
- Deadlock detection: a deadlocked session leaves by an abort, which may come at any time here.
- Foreign-key share locks: the concurrent model blocks less than the database, so it has more interleavings.
- `retry`, `calculateDelay` and `timeout`: no state beyond one call.
- Callbacks of the circuit breaker, and the three clock readings within one failure, which are one here.
- Fractional concurrency and tasks that never settle in `parallel`. A worker may wait before its first task, which the source starts at once, so there are more interleavings here.
- Deletion of users, other users' rows but for the unique email, and delivery of domain events after `save`.
- Access tokens, JWT, bcrypt cost and truncation, user agents and addresses in sessions.
- Results that JSON does not carry (`undefined`, dates, class instances) in the cache and in `redact`, and a field named `__proto__`.
- `invalidatePattern`, `has` and the health check of the cache.
- Floating-point rounding in the email bucket; tokens are exact reals.
- The client address and header parsing of `ThrottlerGuard`; a key is a string.
- Row-level security, grants, controllers, filters, interceptors, configuration and deployment: I/O and wiring.
