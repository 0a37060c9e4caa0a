/**
 The repository and the proxy service as objects that update records in place,
 proved against the ledger's operations.
 */
module FirecrawlService {
  import opened Common
  import opened Routing
  import opened CreditLedger

  lemma {:induction false} ModifyOne(accounts: seq<AccountRecord>, i: nat, change: Change)
    requires CreditLedger.DistinctIds(accounts) && i < |accounts| && !change.InvalidateCredential?
    ensures accounts[i := Changed(accounts[i], change)] == Modify(accounts, accounts[i].id, change)
    ensures CreditLedger.DistinctIds(Modify(accounts, accounts[i].id, change))
  {
  }

  lemma {:induction false} ModifyNone(accounts: seq<AccountRecord>, id: string, change: Change)
    requires !change.InvalidateCredential? && forall i :: 0 <= i < |accounts| ==> accounts[i].id != id
    ensures Modify(accounts, id, change) == accounts
  {
  }

  /** The four numbers as reported, each as it was if it was not. */
  function Reported(a: AccountRecord, remaining: Option<int>, plan: Option<int>, activeJobs: Option<int>,
                    maxConcurrency: Option<int>): AccountRecord {
    AccountRecord(a.id, a.teamLabel, a.planType, a.status, a.monthlyBudgetCredits,
                  if remaining.Some? then remaining else a.remainingCreditsLive,
                  if plan.Some? then plan else a.planCreditsLive,
                  a.cooldownUntil,
                  if activeJobs.Some? then activeJobs else a.queueActiveJobs,
                  if maxConcurrency.Some? then maxConcurrency else a.queueMaxConcurrency,
                  a.credentials)
  }

  class FirecrawlRepository {
    var accounts: seq<AccountRecord>
    var jobs: seq<Job>

    ghost function View(): Ledger
      reads this
    {
      Ledger(accounts, jobs)
    }

    /** The account id is the primary key. */
    ghost predicate Valid()
      reads this
    {
      CreditLedger.DistinctIds(accounts)
    }

    constructor ()
      ensures Valid() && View() == Empty.ledger
    {
      accounts := [];
      jobs := [];
    }

    method FindAccount(id: string) returns (found: Option<nat>)
      ensures found.Some? ==> found.value < |accounts| && accounts[found.value].id == id
      ensures found.None? ==> forall i :: 0 <= i < |accounts| ==> accounts[i].id != id
    {
      for i := 0 to |accounts|
        invariant forall k :: 0 <= k < i ==> accounts[k].id != id
      {
        if accounts[i].id == id {
          return Some(i);
        }
      }
      return None;
    }

    method ApplySuccess(accountId: string, creditsUsed: int)
      requires Valid()
      modifies this`accounts
      ensures Valid() && accounts == Modify(old(accounts), accountId, Charge(creditsUsed))
    {
      var found := FindAccount(accountId);
      if found.None? {
        ModifyNone(accounts, accountId, Charge(creditsUsed));
        return;
      }
      ModifyOne(accounts, found.value, Charge(creditsUsed));
      var account := accounts[found.value];
      if account.remainingCreditsLive.Some? {
        account := account.(remainingCreditsLive := Some(Max(0, account.remainingCreditsLive.value - creditsUsed)));
      }
      if account.status.RateLimited? {
        account := account.(status := Active, cooldownUntil := None);
      }
      accounts := accounts[found.value := account];
    }

    method SettleJobOnce(j: nat, status: string, creditsUsed: int)
      requires Valid() && j < |jobs|
      modifies this
      ensures Valid()
      ensures old(jobs[j].creditsUsedFinal).Some? ==>
                accounts == old(accounts) && jobs == old(jobs)[j := old(jobs[j]).(status := status)]
      ensures old(jobs[j].creditsUsedFinal).None? ==>
                && jobs == old(jobs)[j := old(jobs[j]).(status := status, creditsUsedFinal := Some(creditsUsed))]
                && accounts == if old(jobs[j].accountId).None? then old(accounts)
                               else Modify(old(accounts), old(jobs[j].accountId).value, Charge(creditsUsed))
    {
      jobs := jobs[j := jobs[j].(status := status)];
      if jobs[j].creditsUsedFinal.Some? {
        return;
      }
      jobs := jobs[j := jobs[j].(creditsUsedFinal := Some(creditsUsed))];
      if jobs[j].accountId.Some? {
        ApplySuccess(jobs[j].accountId.value, creditsUsed);
      }
    }

    /** The credential with this key, wherever it is; nothing if there is none. */
    method MarkCredentialInvalid(credentialId: string)
      requires Valid()
      modifies this`accounts
      ensures Valid()
      ensures forall id :: accounts == Modify(old(accounts), id, InvalidateCredential(credentialId))
      ensures forall i :: 0 <= i < |accounts| ==> SameButInvalid(old(accounts)[i], accounts[i], credentialId)
    {
      for i := 0 to |accounts|
        invariant |accounts| == |old(accounts)|
        invariant forall k :: 0 <= k < i ==>
                    accounts[k] == Changed(old(accounts)[k], InvalidateCredential(credentialId))
        invariant forall k :: i <= k < |accounts| ==> accounts[k] == old(accounts)[k]
      {
        var account := accounts[i];
        accounts := accounts[i :=
          account.(credentials := WithCredentialStatus(account.credentials, credentialId, CredentialInvalid))];
      }
    }

    method MarkAccountCreditExhausted(accountId: string)
      requires Valid()
      modifies this`accounts
      ensures Valid() && accounts == Modify(old(accounts), accountId, Exhaust)
    {
      var found := FindAccount(accountId);
      if found.None? {
        ModifyNone(accounts, accountId, Exhaust);
        return;
      }
      ModifyOne(accounts, found.value, Exhaust);
      accounts := accounts[found.value := accounts[found.value].(status := CreditExhausted)];
    }

    method MarkAccountRateLimited(accountId: string, cooldownUntil: int)
      requires Valid()
      modifies this`accounts
      ensures Valid() && accounts == Modify(old(accounts), accountId, RateLimit(cooldownUntil))
    {
      var found := FindAccount(accountId);
      if found.None? {
        ModifyNone(accounts, accountId, RateLimit(cooldownUntil));
        return;
      }
      ModifyOne(accounts, found.value, RateLimit(cooldownUntil));
      accounts := accounts[found.value :=
        accounts[found.value].(status := RateLimited, cooldownUntil := Some(cooldownUntil))];
    }

    /** The refresh loop passes the record it has loaded. */
    method UpdateAccountRefreshSuccess(i: nat, remaining: Option<int>, plan: Option<int>,
                                       activeJobs: Option<int>, maxConcurrency: Option<int>)
      requires Valid() && i < |accounts|
      modifies this`accounts
      ensures Valid()
      ensures View()
              == Applied(old(View()), RefreshAccount(old(accounts[i].id), remaining, plan, activeJobs, maxConcurrency))
      ensures accounts
              == old(accounts)[i := Reported(old(accounts)[i], remaining, plan, activeJobs, maxConcurrency)]
    {
      ModifyOne(accounts, i, Refresh(remaining, plan, activeJobs, maxConcurrency));
      var account := accounts[i];
      if remaining.Some? {
        account := account.(remainingCreditsLive := remaining);
      }
      if plan.Some? {
        account := account.(planCreditsLive := plan);
      }
      if activeJobs.Some? {
        account := account.(queueActiveJobs := activeJobs);
      }
      if maxConcurrency.Some? {
        account := account.(queueMaxConcurrency := maxConcurrency);
      }
      accounts := accounts[i := account];
    }

    /** `one_or_none`: two matching rows are an error, reported here as no row. */
    method GetJobRecord(endpoint: string, upstreamJobId: string) returns (found: Option<nat>)
      ensures found == FindJob(jobs, endpoint, upstreamJobId)
      ensures found.Some? ==>
                && found.value < |jobs|
                && forall k :: 0 <= k < |jobs| ==>
                     (jobs[k].endpoint == endpoint && jobs[k].upstreamJobId == upstreamJobId <==> k == found.value)
    {
      found := None;
      for j := 0 to |jobs|
        invariant found.None? ==> forall k :: 0 <= k < j ==> !Matches(jobs[k], endpoint, upstreamJobId)
        invariant found.Some? ==>
                    && found.value < j && Matches(jobs[found.value], endpoint, upstreamJobId)
                    && forall k :: 0 <= k < j && Matches(jobs[k], endpoint, upstreamJobId) ==> k == found.value
      {
        if Matches(jobs[j], endpoint, upstreamJobId) {
          if found.Some? {
            return None;
          }
          found := Some(j);
        }
      }
      assert found.Some? ==> OneMatch(jobs, endpoint, upstreamJobId, found.value);
    }
  }

  class FirecrawlProxyService {
    const repository: FirecrawlRepository

    constructor (repository: FirecrawlRepository)
      ensures this.repository == repository
    {
      this.repository := repository;
    }

    method RecordOutcome(accountId: string, credentialId: string, response: Response, settleSuccess: bool)
      requires repository.Valid()
      modifies repository`accounts
      ensures repository.Valid()
      ensures repository.accounts ==
              match Outcome(credentialId, response, settleSuccess)
              case None => old(repository.accounts)
              case Some(change) => Modify(old(repository.accounts), accountId, change)
    {
      if Ok(response.status) && settleSuccess {
        repository.ApplySuccess(accountId, response.creditsUsed);
        return;
      }
      if response.status == 401 {
        repository.MarkCredentialInvalid(credentialId);
        return;
      }
      if response.status == 402 {
        repository.MarkAccountCreditExhausted(accountId);
        return;
      }
      if response.status == 429 {
        repository.MarkAccountRateLimited(accountId, CooldownUntil(response.retryAfter, response.at));
      }
    }

    /** Selection over the records as the repository lists them. */
    method SelectFor(q: Query) returns (r: Selection)
      requires repository.Valid()
      ensures r.Selected? <==> Select(List(repository.accounts), q).Some?
      ensures r.Selected? ==>
                && Select(List(repository.accounts), q) == Some(r.account)
                && ActiveCredential(r.account.credentials) == Some(r.credential)
    {
      assert Routing.DistinctIds(List(repository.accounts));
      r := SelectAccount(List(repository.accounts), q);
      SelectIsBest(List(repository.accounts), q);
    }

    /** `None` is `NoFirecrawlAccountAvailable`, raised before any request is made. */
    method Proxy(q: Query, response: Response) returns (account: Option<string>)
      requires repository.Valid()
      modifies repository
      ensures repository.Valid()
      ensures repository.View() == Applied(old(repository.View()), Op.Proxy(q, response))
      ensures account.Some? <==> Select(List(old(repository.accounts)), q).Some?
      ensures account.Some? ==> account.value == Select(List(old(repository.accounts)), q).value.id
    {
      var r := SelectFor(q);
      if r.NoAccountAvailable? {
        return None;
      }
      RecordOutcome(r.account.id, r.credential.id, response, true);
      return Some(r.account.id);
    }

    method SubmitJob(q: Query, response: Response, upstreamJobId: Option<string>) returns (account: Option<string>)
      requires repository.Valid()
      modifies repository
      ensures repository.Valid()
      ensures repository.View() == Applied(old(repository.View()), Submit(q, response, upstreamJobId))
      ensures account.Some? <==> Select(List(old(repository.accounts)), q).Some?
      ensures account.Some? ==> account.value == Select(List(old(repository.accounts)), q).value.id
    {
      var r := SelectFor(q);
      if r.NoAccountAvailable? {
        return None;
      }
      RecordOutcome(r.account.id, r.credential.id, response, false);
      if Ok(response.status) && upstreamJobId.Some? {
        repository.jobs := repository.jobs
          + [Job(Some(r.account.id), r.credential.id, q.endpoint, upstreamJobId.value, "submitted",
                 q.estimatedCredits, None)];
      }
      return Some(r.account.id);
    }

    method PollJob(endpoint: string, jobId: string, status: int, jobStatus: Option<string>, credits: Option<int>)
      returns (found: bool)
      requires repository.Valid()
      modifies repository
      ensures repository.Valid()
      ensures repository.View() == Applied(old(repository.View()), Poll(endpoint, jobId, status, jobStatus, credits))
      ensures found <==> FindJob(old(repository.jobs), endpoint, jobId).Some?
    {
      var job := repository.GetJobRecord(endpoint, jobId);
      if job.None? {
        return false;
      }
      var j := job.value;
      if Ok(status) {
        if jobStatus.Some? && jobStatus.value != "" {
          repository.jobs := repository.jobs[j := repository.jobs[j].(status := jobStatus.value)];
        }
        if jobStatus.Some? && IsTerminal(jobStatus.value) && credits.Some? {
          repository.SettleJobOnce(j, jobStatus.value, credits.value);
        }
      }
      return true;
    }

    method CancelJob(endpoint: string, jobId: string, status: int, jobStatus: Option<string>) returns (found: bool)
      requires repository.Valid()
      modifies repository`jobs
      ensures repository.View() == Applied(old(repository.View()), Cancel(endpoint, jobId, status, jobStatus))
      ensures found <==> FindJob(old(repository.jobs), endpoint, jobId).Some?
    {
      var job := repository.GetJobRecord(endpoint, jobId);
      if job.None? {
        return false;
      }
      if Ok(status) {
        var text := if jobStatus.Some? && jobStatus.value != "" then jobStatus.value else "cancelled";
        repository.jobs := repository.jobs[job.value := repository.jobs[job.value].(status := text)];
      }
      return true;
    }
  }
}
