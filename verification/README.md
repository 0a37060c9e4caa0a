# Verified models of firecrawl-lb

firecrawl-lb balances requests over several Firecrawl accounts. Around that it has a number of
small protocols whose correctness depends on what runs in between: a replicated firewall cache,
a leader lease, a circuit breaker, a credit ledger, sliding windows, one-time codes, a settings
cache, and two version formats. This project models them in Dafny and proves what they promise.

`dafny verify dfyconfig.toml` checks everything.

## How the models are built

* **Objects.** Classes of the source that update their fields are Dafny classes. Every method
  is proved equal to a function on values (`View()` before, `View()` after).
* **Runs.** A concurrent protocol is a `Step` datatype, a total function `Next` built from the
  same functions on values, and `Run` over an arbitrary sequence of steps. One step is what
  happens between two `await`s, under a lock, or in one committed SQL statement. A step that is
  not enabled changes nothing, so *every* sequence of steps is a run and a theorem over all
  sequences covers all interleavings.
* **History.** Where a promise is about the past, the system carries the history as well
  (grants, recorded events, charges, accepted codes), and the theorem relates the program's few
  counters to it.
* **Time** is a parameter of the step that reads it. Text is ASCII where a pattern is matched.

| module | models |
|---|---|
| `FirewallCache`, `FirewallReplication`, `FirewallStaleness` | decision cache, poller, admin handlers; N replicas |
| `LeaderLease` | the lease row and its nodes |
| `CircuitBreaker` | the breaker and any number of concurrent callers |
| `Routing`, `CreditLedger`, `CreditHistory`, `Responses`, `RefundRun`, `ServiceRouting`, `FirecrawlService`, `Usage` | selection, balances, jobs, account status, estimates |
| `RateLimiter`, `RetryBudget`, `SlidingWindow` | the two sliding windows |
| `Totp`, `SettingsCache` | replay protection, settings cache |
| `VersionOrder`, `ReleaseVersions`, `Decimal`, `Text`, `Ordering` | version precedence and spelling |
| `ForwardedChain` | the X-Forwarded-For walk |

## What the models show about the code

* **Changes a replica never hears of.** The poller skips callbacks on its first poll, and a bump
  that fails is only logged. Either way a replica can know the database version and still have
  decisions of an older allowlist (`FirewallReplication.WarmFirstPollStaysStale`,
  `LostBumpStaysStale`). The agreement theorem leaves out a replica from such a moment, if it then
  had a decision cached or about to be stored, until its next invalidation of any kind
  (`tainted`). `FirewallStaleness.AgreesExactly` needs no such exception: in every run a replica is
  right if and only if no decision it stores has moved between the allowlist it was read from and
  the current one. A change moves the decision on its own address; the first address added, and
  the last one removed, move it on all others (`ChangeMovesExactly`). What is left is bounded by
  the TTL (`HitIsRecent`).
* **`renew` is no proof of leadership.** It returns `True` without looking at how many rows it
  changed, so `_is_leader` can be set on two nodes at once
  (`LeaderLease.RenewalDoesNotProveLeadership`). A renewal prolongs the node's lease if and only if
  its update matched the row (`RenewalCountsIfItMatched`); leases counted so exclude each other.
* **Negative `creditsUsed`.** The response's `creditsUsed` is used as it comes. If a job refunds
  after its account was overspent, the balance is not `max(0, base - total)`
  (`RefundRun.RefundBreaksClampedTotal`, a run for all such amounts);
  `CreditHistory.ClampedTotalExactly` says for which charges it is.
* **`cooldown_until` never readmits.** A rate-limited account stays out after its cooldown until
  an admin or the settlement of one of its jobs changes its status.
* **Limits in routing.** `_to_domain_account` leaves `rpm_used` and `inflight` at their defaults,
  and team labels are unique, so through the service neither a request rate nor the team's total
  is ever what rejects an account (`ServiceRouting.OnlyOwnLimitsBind`). The theorems of `Routing`
  are about arbitrary usage.
* **A hint that is too long.** With less than a second left the rate limiter still says one second,
  so an attempt within the hint can be admitted (`RateLimiter.RefusedWhileHintedExactly`).
* **Leading zeros.** The runtime's pattern admits numeric identifiers with leading zeros, which
  section 9 of Semantic Versioning 2.0.0 forbids, so different texts can be level
  (`VersionOrder.LeadingZeroTies`). `LevelExactly` says which versions are level.
* **Secrets replaced under way.** The compare-and-set of a TOTP step does not look at the secret. A
  request that read the old secret can still be accepted after a new one is set, or after TOTP is
  switched off (`Totp.AcceptedAfterDisabling`); `AcceptedSecretInForceExactly` says when the secret
  it was accepted for is the one in force.
* **All-trusted chains.** If every hop and the socket are trusted, the leftmost hop is believed,
  whoever wrote it (`ForwardedChain.TrustedChainBelievesTheFront`).
* **Hops that are no addresses.** One such hop anywhere makes the firewall drop the whole chain and
  answer with the socket's address, which is the proxy's. So text in front of the header changes
  the client found if and only if it is not a chain of addresses (`ForgedHeaderExactly`, and
  `InvalidHopHidesTheClient` for the case). The other copy reports an error instead.

## Model

| member | source | states |
|---|---|---|
| `FirewallReplication.CaughtUpReplicaAgrees` | app/core/cache/invalidation.py:113-142 | In every run of any number of replicas, readers, writers and pollers: if no other replica's change lies between commit and bump and none of its own between commit and `invalidate_all`, a replica that knows the database version has in its cache, and in every fill in flight that would be stored, only decisions of the current allowlist; unless it missed a change by a lost bump or a skipped first callback while it had decisions, and was not invalidated since |
| `FirewallReplication.OnePollCatchesUp` | app/core/cache/invalidation.py:113-142 | After any run, one undisturbed poll of an initialised poller brings the replica to the database version and, no change being under way to it, its cache to agreement |
| `FirewallReplication.WritingReplicaAgrees` | app/core/middleware/api_firewall.py:38-48 | If all changes are made on one replica, its cache and every storable fill agree with the allowlist whenever no handler is between commit and `invalidate_all`; neither poll nor bump is needed |
| `FirewallReplication.WarmFirstPollStaysStale` | app/core/cache/invalidation.py:123-142 | A concrete run in which the first poll, on a warm cache, leaves a wrong decision behind with nothing pending |
| `FirewallReplication.LostBumpStaysStale` | app/core/cache/invalidation.py:97-98 | A concrete run in which a swallowed bump failure leaves a wrong decision behind |
| `FirewallStaleness.LostBumpHarmsExactly` | app/core/cache/invalidation.py:97-98 | After a change that is committed elsewhere and whose bump is lost, a replica that agreed before is wrong if and only if it stores a decision on the changed address or, when the list was or becomes empty, on any other |
| `FirewallStaleness.FirstPollHarmsExactly` | app/core/cache/invalidation.py:123-142 | A replica that agreed at some step of a run and stores the same decisions at its end is wrong after a first poll if and only if one of them differs between the two allowlists |
| `FirewallStaleness.AgreesExactly` | app/core/middleware/api_firewall.py:38-48 | In every run, for every replica, whatever was lost or skipped: it agrees with the current allowlist if and only if no decision it stores, or could still store, differs between the allowlist it was read from and the current one |
| `FirewallStaleness.HitIsRecent` | app/core/middleware/firewall_cache.py:40-55 | In every run a hit answers as an allowlist did that was current when a request of this replica read it, and that request stored the answer less than the TTL before |
| `FirewallStaleness.EverythingIsTraced` | app/core/middleware/api_firewall.py:42-48 | In every run every entry and every decision in flight comes from a read of that replica in that run, under the allowlist of that step |
| `FirewallStaleness.MovesExactly` | app/modules/firewall/service.py:73-83 | Which decisions differ between two allowlists: none, those off the list, or those on one list only, according to which are empty |
| `FirewallStaleness.ChangeMovesExactly` | app/modules/firewall/service.py:59-83 | Which decisions one addition or removal changes: on that address, or on all others if the list was or becomes empty |
| `FirewallReplication.ApplyPollKeeps` | app/core/cache/invalidation.py:113-142 | Applying a poll's rows, read earlier, keeps "a change is pending or the cache agrees" |
| `FirewallReplication.LocalKeepsAgreement` | app/core/middleware/firewall_cache.py:40-59 | No lookup, read, fill, abort or poll of a replica breaks its agreement with the allowlist |
| `FirewallCache.PollSeesOneRow` | app/core/cache/invalidation.py:123-141 | The loop over the rows: known versions become the rows' versions, the firewall row alone decides whether the cache is cleared, judged against the state before the poll |
| `FirewallCache.CacheInvalidationPoller.PollOnce` | app/core/cache/invalidation.py:113-142 | The loop equals `Polled`; the first poll that reads the table ends the initial state; a failed read changes nothing |
| `FirewallCache.FirewallDatabase.Bump` | app/core/cache/invalidation.py:60-96 | The namespace's version goes up by one, from zero if absent; no other version changes |
| `FirewallCache.FirewallIPCache.constructor` | app/core/middleware/firewall_cache.py:24-30 | Empty cache at version 0 |
| `FirewallCache.FirewallIPCache.IsAllowed` | app/core/middleware/firewall_cache.py:40-46 | The stored decision exactly while unexpired, and nothing otherwise |
| `FirewallCache.FirewallIPCache.Set` | app/core/middleware/firewall_cache.py:48-55 | Stores the decision with its expiry, unless the version moved since `if_version` |
| `FirewallCache.FirewallIPCache.InvalidateAll` | app/core/middleware/firewall_cache.py:57-59 | No entries, next version |
| `FirewallCache.CheckRequest` | app/core/middleware/api_firewall.py:38-48 | On a coherent cache the answer is `is_ip_allowed` on the allowlist and the cache stays coherent; a miss is allowed if and only if the list is empty or has the normalised address, and is stored; no address is allowed only by an empty list |
| `FirewallCache.AddFirewallIp` | app/modules/firewall/api.py:39-53 | Refused if and only if the address is invalid or already listed, and then nothing changes; otherwise it is added, the local cache is emptied, so coherent, and the version bumped |
| `FirewallCache.DeleteFirewallIp` | app/modules/firewall/api.py:57-71 | Likewise for deletion, refused if and only if the address is invalid or not listed |
| `LeaderLease.AtMostOneLeader` | app/core/scheduling/leader_election.py:31-58 | In every interleaving at most one node is within the expiry it last wrote by a successful `try_acquire` or a renewal that matched the row, and the row names that node with at least that expiry |
| `LeaderLease.HandoverOnlyAfterExpiry` | app/core/scheduling/leader_election.py:40-46 | The row changes hands only by another node's upsert, after the expiry it carried, when nobody holds a lease; never by a renewal |
| `LeaderLease.ExpiredLeaseIsTaken` | app/core/scheduling/leader_election.py:31-58 | An expired, missing or own row is taken by an undisturbed `try_acquire`, with exactly this new state |
| `LeaderLease.RenewalDoesNotProveLeadership` | app/core/scheduling/leader_election.py:65-92 | For any two nodes and TTLs, a run after which both have `_is_leader` set and a renewal has succeeded, while only one holds the lease |
| `LeaderLease.RenewalCountsIfItMatched` | app/core/scheduling/leader_election.py:75-92 | In every run, after a renewal is written the row names the node, and the node holds a lease until the expiry it wrote, if and only if the row named it at the write; otherwise nothing changed |
| `LeaderLease.OtherStepKeeps` | app/core/scheduling/leader_election.py:40-46 | A step of another node, or the passing of time, keeps a node's lease invariant |
| `LeaderLease.LeaderElection.TryAcquire` | app/core/scheduling/leader_election.py:21-63 | Success exactly when the row names this node after the upsert and no fault struck; then with the expiry just written; disabled and SQLite elections always succeed and touch nothing |
| `LeaderLease.LeaderElection.Renew` | app/core/scheduling/leader_election.py:65-94 | The owner of the row never changes; reports success whether or not a row matched |
| `CircuitBreaker.CountersRefineHistory` | app/core/resilience/circuit_breaker.py:86-106 | In every interleaving of callers: never stored half-open; while closed the failure count is the number of server errors since the last success and below the threshold; while open it is at least the threshold, a failure time is set, and the success count is the number of half-open successes since the latest error |
| `CircuitBreaker.AtMostOneProbe` | app/core/resilience/circuit_breaker.py:52-84 | At most one half-open probe is outstanding, exactly when the flag is set |
| `CircuitBreaker.TransitionsFollowHistory` | app/core/resilience/circuit_breaker.py:86-106 | Closed to open exactly on the error completing `failure_threshold` in a row; open to closed exactly on the success completing `success_threshold` half-open successes since the latest error |
| `CircuitBreaker.ServerErrorBlocksAdmission` | app/core/resilience/circuit_breaker.py:42-62 | After a server error recorded while open or half-open, in every continuation the breaker stays open and every single attempt to enter is refused until a full recovery timeout has passed |
| `CircuitBreaker.NobodyEntersWhileResting` | app/core/resilience/circuit_breaker.py:52-62 | The same from any invariant state whose latest failure is recent: the callers inside are the same before and after each attempt |
| `CircuitBreaker.RestingRun` | app/core/resilience/circuit_breaker.py:86-106 | Until the timeout has passed no sequence of steps closes the breaker or forgets the failure |
| `CircuitBreaker.RestedBreakerAdmitsOneProbe` | app/core/resilience/circuit_breaker.py:52-62 | Once rested and with no probe out, the next caller enters as the probe and the one after is refused |
| `CircuitBreaker.SuccessAdmittedWhileClosedCounts` | app/core/resilience/circuit_breaker.py:86-93 | A call admitted while closed that ends while half-open counts towards closing |
| `CircuitBreaker.ClientErrorsLeaveNoTrace` | app/core/resilience/circuit_breaker.py:98-118 | Replacing every error below 500 by a cancelled call changes no run |
| `CircuitBreaker.FailureCountsExactly` | app/core/resilience/circuit_breaker.py:98-118 | A failure goes on record if and only if it is a timeout, has no status, or a status of at least 500 |
| `CircuitBreaker.FailuresInARowOpen` | app/core/resilience/circuit_breaker.py:98-106 | In every run `failure_threshold` such failures, with no success between them and whatever else, leave the breaker open |
| `CircuitBreaker.AdmissionExactly` | app/core/resilience/circuit_breaker.py:52-62 | In every run a newcomer is admitted if and only if the breaker is closed, or the latest server error is a full timeout ago and no probe is out; then as the probe |
| `CircuitBreaker.CircuitBreaker.PreCallCheck` | app/core/resilience/circuit_breaker.py:52-62 | Equals `Check`: rejected while open or while a probe is out, admitted as probe in half-open |
| `CircuitBreaker.CircuitBreaker.State` | app/core/resilience/circuit_breaker.py:42-50 | Half-open exactly when open for at least the timeout since the last failure |
| `CircuitBreaker.CircuitBreaker.RecordSuccess` | app/core/resilience/circuit_breaker.py:86-96 | Equals `SuccessRecorded` at the first of the two clock readings |
| `CircuitBreaker.CircuitBreaker.RecordFailure` | app/core/resilience/circuit_breaker.py:98-106 | A timeout, an error without a status or one of at least 500 adds to the failures, resets the successes, sets the failure time and opens at the threshold; any other failure changes nothing |
| `CircuitBreaker.CircuitBreaker.ReleaseHalfOpenProbe` | app/core/resilience/circuit_breaker.py:64-66 | Clears the flag and nothing else |
| `CreditHistory.BalanceMatchesHistory` | app/modules/firecrawl/repository.py:113-121 | In every run of operations every account's balance is `max(0, base - charges since the base was last set)` when nothing booked is negative, and in general exactly when no run of latest charges refunds too much; no balance without a base |
| `CreditHistory.BalanceIsLargestSuffix` | app/modules/firecrawl/repository.py:113-121 | Closed form of step-by-step clamping, for charges of any sign |
| `CreditHistory.ClampedTotalExactly` | app/modules/firecrawl/repository.py:113-121 | Clamping step by step equals clamping the total if and only if no suffix of charges is below minus that total |
| `CreditHistory.ClampedTotal` | app/modules/firecrawl/repository.py:113-121 | With non-negative base and charges they are equal |
| `RefundRun.RefundBreaksClampedTotal` | app/modules/firecrawl/service.py:137-151 | For all amounts, a run of create, credential, submit, proxy and poll after which the balance is the whole refund, which is the clamped total if and only if nothing was overspent |
| `CreditHistory.EntryIsRight` | app/modules/firecrawl/repository.py:113-187 | What every operation logs is what it does to every account's balance |
| `CreditHistory.JobIsChargedOnce` | app/modules/firecrawl/repository.py:123-138 | In every run each job has one submitting account; it is charged at most once, for its final credits, to that account, and not before it is settled |
| `CreditHistory.FinalCreditsAreWriteOnce` | app/modules/firecrawl/service.py:137-151 | Over every continuation a set `credits_used_final` and the job's owner never change |
| `CreditHistory.ExhaustedUntilAdmin` | app/modules/firecrawl/service.py:185-195 | In every run, once credit-exhausted, an account is selected for no request at any time until an admin sets its status |
| `CreditHistory.ExhaustedRun` | app/modules/firecrawl/repository.py:148-151 | From any state the books explain, credit exhaustion outlasts every sequence of operations without an admin status change |
| `CreditHistory.LimitedRun` | app/modules/firecrawl/repository.py:113-121 | Likewise rate limiting, unless a job of the account was settled meanwhile |
| `CreditHistory.RateLimitedUntilSettlement` | app/modules/firecrawl/routing.py:121-124 | In every run, once rate-limited, an account is selected for no request at any time, cooldown passed or not, until an admin sets its status or one of its own jobs is settled |
| `CreditHistory.StatusNext` | app/modules/firecrawl/repository.py:113-121 | The only step, admin aside, that changes an inactive account's status is the settlement of a job of a rate-limited one |
| `CreditHistory.ProxySetsStatus` | app/modules/firecrawl/service.py:185-195 | A 402 or 429 puts the account a request selected into those states, a 429 with the cooldown of its Retry-After |
| `CreditHistory.SubmitSetsStatus` | app/modules/firecrawl/service.py:69-116 | The same for a submission |
| `Responses.ProxyExactly` | app/modules/firecrawl/service.py:33-67 | The whole effect of a proxied request, field by field: 2xx is the charge; 401 invalidates the credential it used; 402 and 429 set the status, a 429 with a cooldown of 60 seconds or Retry-After; every other answer changes nothing |
| `Responses.SubmitExactly` | app/modules/firecrawl/service.py:69-116 | The same for the accounts of a submission, where 2xx changes nothing |
| `Responses.SubmittedJobExactly` | app/modules/firecrawl/service.py:103-114 | A submission adds exactly one job row, if it succeeds with an id |
| `Responses.RevokedUntilAdmin` | app/modules/firecrawl/service.py:188-190 | In every run a credential whose request was answered 401 is used for no request at any time until an admin sets its status |
| `Responses.RevokedRun` | app/modules/firecrawl/admin_service.py:163-202 | A credential that is not active stays so over every sequence of operations without that, and no second one of its id can be added |
| `Responses.PollJobExactly` | app/modules/firecrawl/service.py:137-151 | What a poll does to the job rows: the status it reports, and the final credits if it is the first that says with one of six words, in any capitals, that the job has ended, and what it cost |
| `Responses.PollAccountsExactly` | app/modules/firecrawl/repository.py:113-138 | What it does to the accounts: a settling poll charges the job's account and ends its rate limiting; nothing else changes |
| `Responses.CancelExactly` | app/modules/firecrawl/service.py:148-150 | A successful cancellation sets the status it reports, or cancelled, and nothing else |
| `Responses.UnknownJob` | app/modules/firecrawl/service.py:127-129 | An id that no row has, or two have, changes nothing |
| `Responses.TerminalExactly` | app/modules/firecrawl/service.py:286-287 | The six words that end a job, in any capitals |
| `Responses.UpdateExactly` | app/modules/firecrawl/admin_service.py:150-161 | An admin's update sets the fields it names on that account and no others |
| `Responses.SetCredentialExactly` | app/modules/firecrawl/admin_service.py:186-202 | An admin sets the status of that credential of that account and nothing else |
| `Responses.AddCredentialExactly` | app/modules/firecrawl/admin_service.py:163-184 | A new credential is the account's last one, unless its id is taken |
| `Responses.RecordAsAccount` | app/modules/firecrawl/repository.py:196-219 | What the router is told of a record, field by field |
| `CreditHistory.SelectedIsActive` | app/modules/firecrawl/routing.py:119-120 | Only a record that is active is ever selected |
| `CreditHistory.SelectedCanPay` | app/modules/firecrawl/routing.py:125-126 | The selected record's balance covers the estimate |
| `FirecrawlService.FirecrawlRepository.ApplySuccess` | app/modules/firecrawl/repository.py:113-121 | The account's `Charge`, all other accounts untouched |
| `FirecrawlService.FirecrawlRepository.SettleJobOnce` | app/modules/firecrawl/repository.py:123-138 | Sets the status; charges and records final credits only if none were set |
| `FirecrawlService.FirecrawlRepository.MarkCredentialInvalid` | app/modules/firecrawl/repository.py:140-146 | Found by its own key, exactly that credential becomes invalid; every other field of every account is as it was |
| `FirecrawlService.FirecrawlRepository.MarkAccountCreditExhausted` | app/modules/firecrawl/repository.py:148-151 | Sets that account's status and nothing else |
| `FirecrawlService.FirecrawlRepository.MarkAccountRateLimited` | app/modules/firecrawl/repository.py:153-158 | Sets that account's status and cooldown and nothing else |
| `FirecrawlService.FirecrawlRepository.UpdateAccountRefreshSuccess` | app/modules/firecrawl/repository.py:160-187 | Each of the four numbers is the reported one, or as it was; nothing else changes |
| `FirecrawlService.FirecrawlRepository.GetJobRecord` | app/modules/firecrawl/repository.py:89-96 | The row, if exactly one matches |
| `FirecrawlService.FirecrawlProxyService.RecordOutcome` | app/modules/firecrawl/service.py:155-195 | The change `Outcome` prescribes for the status code, to that account alone |
| `FirecrawlService.FirecrawlProxyService.Proxy` | app/modules/firecrawl/service.py:33-67 | The whole new state is the ledger's `Proxy` step, and the account used is the one selected, if there is one |
| `FirecrawlService.FirecrawlProxyService.SubmitJob` | app/modules/firecrawl/service.py:69-116 | The whole new state is the ledger's `Submit` step, for the account selected, if there is one |
| `FirecrawlService.FirecrawlProxyService.PollJob` | app/modules/firecrawl/service.py:118-153 | The ledger's `Poll` step: the first terminal poll with credits settles |
| `FirecrawlService.FirecrawlProxyService.CancelJob` | app/modules/firecrawl/service.py:118-153 | The ledger's `Cancel` step: a status at most, never a charge |
| `Routing.SelectIsBest` | app/modules/firecrawl/routing.py:48-91 | Selection succeeds exactly when some account is admissible, and gives an admissible account none beats in (score, id) |
| `Routing.BestIsUnique` | app/modules/firecrawl/routing.py:83-91 | With distinct ids there is only one such account |
| `Routing.SelectIgnoresOrder` | app/modules/firecrawl/routing.py:48-91 | Any permutation of accounts with distinct ids selects the same account |
| `Routing.TeamLimitsImplyAccountLimits` | app/modules/firecrawl/routing.py:112-137 | With non-negative usage an account is admissible exactly when it is active, cool, can pay, has an active credential and its team is below both limits |
| `Routing.TeamSumPermuted` | app/modules/firecrawl/routing.py:94-102 | Team totals do not depend on the order of accounts |
| `Routing.BeatsIsAnOrder` | app/modules/firecrawl/routing.py:83-91 | (score, id) is a strict weak order, total on distinct ids |
| `Routing.BudgetWeight` | app/modules/firecrawl/routing.py:140-145 | For every amount `k`: `k` credits more raise the score by `k` parts of the plan's credits, times 0.45 |
| `Routing.RpmWeight` | app/modules/firecrawl/routing.py:140-145 | For every amount `k`: `k` requests more of the team lower it by `k` parts of the rate, times 0.25 |
| `Routing.ConcurrencyWeight` | app/modules/firecrawl/routing.py:140-145 | For every amount `k`: `k` more running in the team lower it by `k` parts of the limit, times 0.20 |
| `Routing.HealthWeight` | app/modules/firecrawl/routing.py:140-145 | `n` recent errors leave `1 / (1 + n)` of 0.10 |
| `Routing.PerfectScore` | app/modules/firecrawl/routing.py:140-145 | An idle account with a full budget and no errors scores exactly 1 |
| `Routing.MoreCreditsWin` | app/modules/firecrawl/routing.py:83-91 | Of two admissible accounts that differ in id and credits only, the one with fewer credits is not selected, and the other is if there are no more |
| `Routing.TieGoesToLaterId` | app/modules/firecrawl/routing.py:83-91 | Of two admissible accounts with the same score, the one whose id comes first in the alphabet is not selected |
| `Routing.ReasonIsFirstFailure` | app/modules/firecrawl/routing.py:112-137 | The reason is that of the first of eight tests that fails, in this order, and none if none does |
| `Routing.PlanLimits` | app/modules/firecrawl/routing.py:17-30 | The limits of every plan and endpoint, and the defaults; a reported concurrency limit is the limit |
| `Routing.ActiveCredential` | app/modules/firecrawl/routing.py:105-109 | The first active credential, if there is one |
| `Routing.BuildTeamUsage` | app/modules/firecrawl/routing.py:94-102 | The loop's totals are exact sums over the accounts of each label, for exactly the labels that occur |
| `Routing.SelectAccount` | app/modules/firecrawl/routing.py:48-91 | The loops find the best account with its credential, or fail with the reason of every account |
| `ServiceRouting.RpmNeverBinds` | app/modules/firecrawl/repository.py:196-219 | Over the records as the service turns them into accounts no request-rate limit ever rejects one |
| `ServiceRouting.OwnLimitsDecide` | app/modules/firecrawl/repository.py:196-219 | With distinct labels such an account is admissible if and only if it is active, cool, can pay, has an active credential and its own active jobs are below its limit |
| `ServiceRouting.OnlyOwnLimitsBind` | app/db/models.py:27 | In every run neither a request rate nor the team's total is the reason to reject an account |
| `Usage.NormalizedScrapeFormats` | app/modules/firecrawl/usage.py:98-111 | The loop's set is the set of names in the list, markdown if that is empty |
| `Usage.ScrapeCreditsBounds` | app/modules/firecrawl/usage.py:58-68 | A scrape costs between 1 and 10 credits |
| `Usage.FormatsCountOnce` | app/modules/firecrawl/usage.py:98-111 | Lists of formats with the same members, in any order and any number, cost the same |
| `Usage.NotationIsFree` | app/modules/firecrawl/usage.py:98-111 | A format written as text or as an object of that type costs the same |
| `Usage.SearchCreditsBounds` | app/modules/firecrawl/usage.py:71-95 | A search costs at least 2, and with scraping at least `limit` more |
| `Usage.SearchCreditsGrow` | app/modules/firecrawl/usage.py:71-95 | A larger limit never costs less |
| `Usage.EstimateIsPositive` | app/modules/firecrawl/usage.py:22-38 | An estimate made before the response is at least one credit |
| `Usage.PriceList` | app/modules/firecrawl/usage.py:22-38 | What every endpoint costs before the response: a crawl its limit, a batch its addresses, a map and anything else one credit |
| `Usage.ScrapePrice` | app/modules/firecrawl/usage.py:58-68 | A scrape costs one credit, one more for each dear format asked for, one each for clean content and actions if given |
| `Usage.FormatPrice` | app/modules/firecrawl/usage.py:98-111 | One more format costs one credit if and only if it is dear and new |
| `Usage.DearFormats` | app/modules/firecrawl/usage.py:9-19 | The seven formats that cost extra |
| `Usage.SearchPrice` | app/modules/firecrawl/usage.py:71-95 | Two credits for every ten results begun and every source, and with scraping the price of a scrape for every result |
| `Usage.ResponseComesFirst` | app/modules/firecrawl/usage.py:41-55 | The response's `creditsUsed` comes first, then that of its data; a response without either changes nothing |
| `Usage.LimitAsText` | app/modules/firecrawl/usage.py:114-123 | A limit may be written in digits |
| `Usage.SignedLimitAsText` | app/modules/firecrawl/usage.py:114-123 | And with a sign |
| `Usage.UnreadableLimit` | app/modules/firecrawl/usage.py:114-123 | A limit with any other character is an error of the request |
| `Usage.SaysExactly` | app/modules/firecrawl/usage.py:114-123 | What a limit is read as: the number or the digits it is, at least 1, and the default for anything else |
| `Usage.EmptyAccountIsNeverSelected` | app/modules/firecrawl/service.py:33-67 | So an account with no or unknown credits is selected for no request |
| `RateLimiter.WindowIsNeverOverfull` | app/core/rate_limiter/db_rate_limiter.py:72-101 | In every run, timestamps in any order: between clears no closed interval of window length holds more than `max_attempts` attempts of a key |
| `RateLimiter.NeverTooManyAdmitted` | app/core/rate_limiter/db_rate_limiter.py:72-101 | In every run in time order, with cleanups that keep at least the longest window: of all attempts admitted for a key between clears, rows gone or not, no closed interval of window length holds more than `max_attempts` |
| `RateLimiter.AdmittedIsUncleaned` | app/core/rate_limiter/db_rate_limiter.py:220-223 | What such a run admitted is what the table would hold without cleanups |
| `RateLimiter.RefusalBounds` | app/core/rate_limiter/db_rate_limiter.py:103-120 | In every run in time order a refusal's `retry_after` is between 1 and `window_seconds` |
| `RateLimiter.RefusalHints` | app/core/rate_limiter/db_rate_limiter.py:103-120 | And `retry_after + 1` seconds later, after any continuation that admits no attempt for the key, the next attempt is admitted |
| `RateLimiter.RefusedUntilExactly` | app/core/rate_limiter/db_rate_limiter.py:72-101 | In every run in time order a refused key, the table being as it was, is refused until its oldest attempt that counts is more than a window ago, and not longer |
| `RateLimiter.HintExactly` | app/core/rate_limiter/db_rate_limiter.py:103-120 | The hint is that time in whole seconds rounded down, at least 1 |
| `RateLimiter.RefusedWhileHintedExactly` | app/core/rate_limiter/db_rate_limiter.py:103-120 | Whoever comes back within the hinted seconds is refused if and only if a whole second was left |
| `RateLimiter.CleanupChangesNoDecision` | app/core/rate_limiter/db_rate_limiter.py:220-223 | In every run in time order, from any table, cleanups that keep at least the longest window can be left out without changing any decision or hint |
| `RateLimiter.TimesNext` | app/core/rate_limiter/db_rate_limiter.py:59-120 | Every step seen from one key and kind: keys and kinds do not interfere |
| `RateLimiter.ClearedTimes` | app/core/rate_limiter/db_rate_limiter.py:171-179 | Clearing empties that key's times and leaves all others |
| `RateLimiter.CleanedUpTimes` | app/core/rate_limiter/db_rate_limiter.py:220-223 | Cleanup keeps exactly the times from the cutoff on |
| `RateLimiter.DatabaseRateLimiter.CheckAndIncrement` | app/core/rate_limiter/db_rate_limiter.py:59-120 | Records exactly when the window has room, otherwise the table is unchanged and the hint given |
| `RateLimiter.DatabaseRateLimiter.Check` | app/core/rate_limiter/db_rate_limiter.py:25-57 | Raises exactly when an attempt at the same instant would be refused, with its hint |
| `RateLimiter.DatabaseRateLimiter.ClearForKey` | app/core/rate_limiter/db_rate_limiter.py:171-179 | No time is left for the key |
| `RateLimiter.DatabaseRateLimiter.Cleanup` | app/core/rate_limiter/db_rate_limiter.py:220-223 | For every key and kind exactly the times from the cutoff on are left |
| `SlidingWindow.GuardedWindow` | app/core/rate_limiter/db_rate_limiter.py:72-101 | If every time was recorded while the window behind it, unbounded above, had room, then no interval of window length is overfull |
| `RetryBudget.DequeIsTheWindow` | app/core/resilience/retry_budget.py:15-32 | In every run the deque is sorted, purged it is the grant history seen through the window, and `try_acquire` grants exactly when `remaining()` is positive |
| `RetryBudget.BudgetIsNeverExceeded` | app/core/resilience/retry_budget.py:15-26 | In every run no closed interval of window length holds more than `max_retries` grants |
| `RetryBudget.PurgeSorted` | app/core/resilience/retry_budget.py:18-20 | On a sorted deque popping the old prefix removes everything old |
| `RetryBudget.RetryBudget.TryAcquire` | app/core/resilience/retry_budget.py:15-26 | The loop pops the old prefix; grants exactly when fewer than `max_retries` are left, and appends |
| `RetryBudget.RetryBudget.Remaining` | app/core/resilience/retry_budget.py:28-32 | What the recent times leave of the budget, never negative |
| `Totp.AcceptedStepsIncrease` | app/modules/dashboard_auth/repository.py:89-104 | In every interleaving, between two `set_totp_secret` calls: accepted steps strictly increase, are newer than what was verified before, match the request's code and lie in its window (section 5.2 of RFC 6238) |
| `Totp.SecondUseIsRejected` | app/modules/dashboard_auth/repository.py:89-104 | Of two requests that both matched a step at most one is accepted |
| `Totp.AcceptedSecretInForceExactly` | app/modules/dashboard_auth/service.py:264-281 | In every run a code is accepted for the secret its request read, which is the one in force if and only if the latest `set_totp_secret` since then, if any, set the same |
| `Totp.AcceptedAfterDisabling` | app/modules/dashboard_auth/service.py:298-315 | For every code that matches, a run that accepts it after TOTP was switched off |
| `Totp.FirstMatch` | app/core/auth/totp.py:48-56 | The search returns the first acceptable step, if any |
| `Totp.VerifyTotpCode` | app/core/auth/totp.py:32-56 | A newer step of the window whose code is the digits of the text, if there is one; the earliest |
| `Totp.RightExactly` | app/core/auth/totp.py:32-56 | A text is accepted if and only if it writes the six digits generated for a step, newer than the last one, that began at most 60 seconds ago or begins within 30 |
| `Totp.NormalizedExactly` | app/core/auth/totp.py:71-72 | The normal form of a text is the code it writes: its digits in order |
| `Totp.DigitsWriteThemselves` | app/core/auth/totp.py:71-72 | Plain digits are their own normal form |
| `Totp.SeparatorsAreFree` | app/core/auth/totp.py:71-72 | Spaces, hyphens and anything else that is no digit may stand anywhere |
| `Totp.VerifyTotp` | app/modules/dashboard_auth/service.py:256-281 | Uninterrupted: verified if and only if the text is right for the stored secret and last step; that step then becomes the last one |
| `Totp.DashboardAuthRepository.TryAdvanceTotpLastVerifiedStep` | app/modules/dashboard_auth/repository.py:89-104 | Updates exactly when the stored step is absent or smaller |
| `Totp.DashboardAuthRepository.SetTotpSecret` | app/modules/dashboard_auth/repository.py:20-27 | New secret, no last step, and no login requirement without a secret |
| `SettingsCache.GetsAreFresh` | app/core/config/settings_cache.py:21-40 | In every interleaving of getters and invalidators a get returns a row that was in the database after every invalidation completed before it began; a hit returns one read less than the TTL earlier |
| `SettingsCache.CacheNeverOutlivesInvalidation` | app/core/config/settings_cache.py:27-40 | What is cached, and what a getter has read and not yet stored, is newer than the latest invalidation |
| `SettingsCache.CacheIsUsedExactly` | app/core/config/settings_cache.py:21-25 | A get returns at once, with what is cached, if and only if that was read less than the TTL ago |
| `SettingsCache.StoreIsServed` | app/core/config/settings_cache.py:27-35 | What a getter stores is served to gets that begin less than the TTL after it looked at the clock |
| `SettingsCache.SettingsCache.Get` | app/core/config/settings_cache.py:21-35 | The cached row if `now - cached_at` is below the TTL at either look at the clock, otherwise the stored one, which is then cached |
| `SettingsCache.SettingsCache.Invalidate` | app/core/config/settings_cache.py:37-40 | Nothing cached |
| `VersionOrder.PrecedenceIsSemVer` | app/modules/runtime/service.py:183-211 | On identifier lists of any length the comparison is the precedence of section 11.4 of Semantic Versioning 2.0.0 |
| `VersionOrder.NewerIsHigher` | app/modules/runtime/service.py:165-180 | On every two versions newer is the precedence of section 11 of Semantic Versioning 2.0.0: major, minor, patch, a release above its pre-releases, then the identifiers |
| `VersionOrder.NewerTextIsHigher` | app/modules/runtime/service.py:165-180 | The same on the texts of two versions |
| `Ordering.TextOrderExactly` | app/modules/runtime/service.py:206-207 | Texts compare by their first difference, a beginning before what it begins |
| `VersionOrder.PrereleasesRank` | app/modules/runtime/service.py:183-211 | `_compare_prerelease` is antisymmetric and transitive |
| `VersionOrder.IsNewerIsStrictWeakOrder` | app/modules/runtime/service.py:165-180 | "Newer" is a strict weak order on parsed versions |
| `VersionOrder.NewerTextIsStrictWeakOrder` | app/modules/runtime/service.py:165-180 | And on texts: irreflexive and transitive always; being level is transitive through any text that parses, and a text that does not is level with everything |
| `VersionOrder.TiesExactly` | app/modules/runtime/service.py:183-211 | Identifier lists tie if and only if they are as long and equal up to leading zeros of numbers |
| `VersionOrder.LevelExactly` | app/modules/runtime/service.py:165-180 | Two versions are level if and only if their numbers are equal and so are their pre-releases, up to leading zeros |
| `VersionOrder.LevelIsEqual` | app/modules/runtime/service.py:165-180 | Without leading zeros only equal versions are level |
| `VersionOrder.ValidTiesAreEqual` | app/modules/runtime/service.py:183-211 | Without leading zeros only equal identifier lists tie |
| `VersionOrder.LeadingZeroTies` | app/modules/runtime/service.py:165-180 | Two different texts that parse, of which neither is newer |
| `VersionOrder.CompareIdentifierLists` | app/modules/runtime/service.py:191-211 | The loop is the lexicographic comparison |
| `VersionOrder.ParseIsExact` | app/modules/runtime/service.py:153-162 | A text parses to a version exactly when, stripped, it is that version written out, with or without `v` |
| `Decimal.PlaceValue` | app/modules/runtime/service.py:200-203 | Digits are read in decimal places |
| `Text.StripExactly` | app/modules/runtime/service.py:153-156 | Stripping removes the white space at both ends and nothing else |
| `Text.SpacesExactly` | app/modules/runtime/service.py:153-156 | The ten ASCII characters that are white space |
| `VersionOrder.PrereleaseCharsExactly` | app/modules/runtime/service.py:21-24 | The characters the pattern admits in a pre-release |
| `ReleaseVersions.ParseIsExact` | scripts/release_versions.py:67-73 | `parse_version` accepts exactly the grammar and reads it in the only way |
| `ReleaseVersions.PypiRoundTrip` | scripts/release_versions.py:52-64 | For every accepted version the canonical form of its PyPI spelling is the version itself |
| `ReleaseVersions.PypiSpelling` | scripts/release_versions.py:52-64 | On the text: `-alpha.N` is published as `aN`, `-beta.N` as `bN`, `-rc.N` as `rcN`, a release as it is |
| `ReleaseVersions.NoZeroSerial` | scripts/release_versions.py:18 | A serial that begins with zero is refused |
| `ReleaseVersions.PypiIsInjective` | scripts/release_versions.py:52-64 | Different versions have different PyPI spellings |
| `ReleaseVersions.TagRoundTrip` | scripts/release_versions.py:76-80 | Parsing the tag gives the same record |
| `ReleaseVersions.TagIsExact` | scripts/release_versions.py:19 | The tag pattern, scanned on its own, accepts exactly `v` followed by a text that `parse_version` accepts |
| `ReleaseVersions.CanonicalIsIdempotent` | scripts/release_versions.py:195-200 | Canonicalising twice is canonicalising once, and what it changes becomes a version that parses |
| `ReleaseVersions.SpellingsAreDisjoint` | scripts/release_versions.py:18-25 | No text has both spellings |
| `ReleaseVersions.MatchPep440Exact` | scripts/release_versions.py:195-200 | The PEP 440 pattern reads every spelling of its grammar as its parts |
| `ReleaseVersions.MatchPep440Sound` | scripts/release_versions.py:195-200 | And matches nothing else |
| `ForwardedChain.WalkChain` | app/core/middleware/api_firewall.py:112-121 | The loop returns the rightmost hop that is not trusted, or the leftmost if all are |
| `ForwardedChain.FirewallChain` | app/core/middleware/api_firewall.py:101-121 | That client exactly when every hop is an address, otherwise none |
| `ForwardedChain.LocalityChain` | app/core/request_locality.py:75-95 | The same, with an error for an invalid chain |
| `ForwardedChain.CopiesAgree` | app/core/request_locality.py:75-95 | The two loops, written out separately, find the same client on every valid chain, and fail on the same ones |
| `ForwardedChain.ClientIsUnique` | app/core/middleware/api_firewall.py:112-121 | A chain has one client |
| `ForwardedChain.PrependedHopsAreIgnored` | app/core/middleware/api_firewall.py:112-121 | Once some hop is untrusted, nothing written in front changes the client |
| `ForwardedChain.ForgedHeaderExactly` | app/core/middleware/api_firewall.py:77-121 | On the answer of the firewall: once some hop is untrusted, text in front of the header changes nothing if it is a chain of addresses, and otherwise makes the answer the proxy's own address; so the answer is the same if and only if that text is a chain of addresses or the header was not one |
| `ForwardedChain.ForgedHeaderInLocality` | app/core/request_locality.py:75-95 | The same for the other copy, with an error in place of the proxy |
| `ForwardedChain.InvalidHopHidesTheClient` | app/core/middleware/api_firewall.py:106-110 | A reported client that writes one word in front which is no address is seen as the proxy |
| `ForwardedChain.WalkIgnoresFront` | app/core/middleware/api_firewall.py:112-121 | The walk along a header with text in front ends at the same hop once some hop is untrusted |
| `ForwardedChain.TrustedChainBelievesTheFront` | app/core/middleware/api_firewall.py:112-121 | Otherwise a hop written in front is the answer |
| `ForwardedChain.ResolveConnectionClientIp` | app/core/middleware/api_firewall.py:77-94 | Headers count only behind a trusted socket and with a valid chain; otherwise the socket |
| `ForwardedChain.SocketIsTheClient` | app/core/middleware/api_firewall.py:77-94 | Without trust in headers or socket, without a header, or with a hop that is no address, the client is the socket |

## Left out

- HTTP, FastAPI routing, SQLAlchemy sessions, logging, metrics, audit logs and request logs.
- Address parsing, `pyotp` and encryption: they are function parameters, so the theorems hold for any such functions.
- Overlapping operations on the ledger: proxy, submit, poll, cancel, refresh and admin operations are one step each. The job row is loaded before the upstream call (app/modules/firecrawl/service.py:127-135), so two overlapping polls of one job could both settle it.
- How long a request may take between reading the allowlist and storing its decision, so the bound the TTL gives starts at the store.
- Callbacks registered for other namespaces, and the branch of `bump` for databases that are neither PostgreSQL nor SQLite.
- The election switched off, or on SQLite, in runs of several nodes: it is modelled for one node only.
- `record_failure` and `check_and_record` of the rate limiter; the query for the hint is one step with the refused insert.
- Rounding of floating-point numbers in the routing score, in `ceil(limit / 10)` and in clock arithmetic: reals and integers are used.
- Non-ASCII digits and whitespace in version patterns, and the other client-address headers of app/core/request_locality.py.
- Deletion of accounts and credentials, and the refresh scheduler's handling of failed refreshes.
- Password and session handling around TOTP, and the enrolment of a new secret beyond `set_totp_secret`.
- The runtime service's cached snapshot of the latest release, and the parts of the release scripts that read or write files and git.
- Backpressure, bulkhead and in-flight drain counters, request decompression, database backups and the frontend.
