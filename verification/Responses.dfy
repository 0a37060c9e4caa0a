/**
 What every answer of the upstream service does, status by status and field by field,
 and how long a credential it refused stays out of use.
 */
module Responses {
  import opened Common
  import opened Routing
  import opened CreditLedger
  import opened CreditHistory

  /** Account `i` is the one selected for the request. */
  predicate Serves(accounts: seq<AccountRecord>, q: Query, i: nat) {
    && i < |accounts| && CreditLedger.DistinctIds(accounts)
    && Select(List(accounts), q).Some? && Select(List(accounts), q).value.id == accounts[i].id
  }

  /** The selected account is active and its first active credential is used. */
  lemma {:induction false} ServingAccount(accounts: seq<AccountRecord>, q: Query, i: nat)
    requires Serves(accounts, q, i)
    ensures accounts[i].status.Active? && Select(List(accounts), q).value == ToDomain(accounts[i])
    ensures ActiveCredential(accounts[i].credentials).Some?
  {
    SelectIsBest(List(accounts), q);
    SelectedIsActive(accounts, q);
    var k :| 0 <= k < |accounts| && ToDomain(accounts[k]) == Select(List(accounts), q).value
      && accounts[k].status.Active?;
    assert k == i;
  }

  /** When a 429 lets the account cool down: 60 seconds, or what Retry-After says. */
  predicate CoolsUntil(r: Response, until: int) {
    until == r.at + (if r.retryAfter.None? then 60 else if r.retryAfter.value < 0 then 0 else r.retryAfter.value)
  }

  /** The answers that are not a success: only these three codes change anything. */
  predicate Refused(before: seq<AccountRecord>, i: nat, r: Response, after: seq<AccountRecord>)
    requires i < |before|
  {
    if r.status == 401 then
      && |after| == |before|
      && ActiveCredential(before[i].credentials).Some?
      && forall k :: 0 <= k < |before| ==>
           SameButInvalid(before[k], after[k], ActiveCredential(before[i].credentials).value.id)
    else if r.status == 402 then after == before[i := before[i].(status := CreditExhausted)]
    else if r.status == 429 then
      && |after| == |before| && after[i].cooldownUntil.Some? && CoolsUntil(r, after[i].cooldownUntil.value)
      && after == before[i := before[i].(status := RateLimited, cooldownUntil := after[i].cooldownUntil)]
    else after == before
  }

  function Adjusted(accounts: seq<AccountRecord>, id: string, change: Option<Change>): seq<AccountRecord> {
    if change.None? then accounts else Modify(accounts, id, change.value)
  }

  lemma {:induction false} RefusalExactly(accounts: seq<AccountRecord>, i: nat, r: Response, settleSuccess: bool)
    requires i < |accounts| && CreditLedger.DistinctIds(accounts) && ActiveCredential(accounts[i].credentials).Some?
    requires !(200 <= r.status <= 299)
    ensures var change := Outcome(ActiveCredential(accounts[i].credentials).value.id, r, settleSuccess);
            Refused(accounts, i, r, Adjusted(accounts, accounts[i].id, change))
  {
  }

  /** Serving a request is applying the outcome to the account that serves it. */
  lemma {:induction false} ServingChanges(s: System, q: Query, r: Response, jobId: Option<string>, i: nat)
    requires Serves(s.ledger.accounts, q, i)
    ensures var accounts := s.ledger.accounts;
            && ActiveCredential(accounts[i].credentials).Some?
            && Next(s, Proxy(q, r)).ledger.accounts
               == Adjusted(accounts, accounts[i].id, Outcome(ActiveCredential(accounts[i].credentials).value.id, r,
                 true))
            && Next(s, Submit(q, r, jobId)).ledger.accounts
               == Adjusted(accounts, accounts[i].id, Outcome(ActiveCredential(accounts[i].credentials).value.id, r,
                 false))
  {
    ServingAccount(s.ledger.accounts, q, i);
  }

  /** A request: a success is the charge and nothing else. */
  lemma {:induction false} ProxyExactly(s: System, q: Query, r: Response, i: nat)
    requires Serves(s.ledger.accounts, q, i)
    ensures var before, after := s.ledger.accounts, Next(s, Proxy(q, r)).ledger.accounts;
            if 200 <= r.status <= 299 then
              after == before[i := before[i].(remainingCreditsLive :=
                                  if before[i].remainingCreditsLive.None? then None
                                  else Some(Max(0, before[i].remainingCreditsLive.value - r.creditsUsed)))]
            else Refused(before, i, r, after)
    ensures Next(s, Proxy(q, r)).ledger.jobs == s.ledger.jobs
  {
    ServingAccount(s.ledger.accounts, q, i);
    ServingChanges(s, q, r, None, i);
    if !(200 <= r.status <= 299) {
      RefusalExactly(s.ledger.accounts, i, r, true);
    }
  }

  /** A submission: a success changes no account and adds the job, if it has an id. */
  lemma {:induction false} SubmitExactly(s: System, q: Query, r: Response, jobId: Option<string>, i: nat)
    requires Serves(s.ledger.accounts, q, i)
    ensures var before, after := s.ledger.accounts, Next(s, Submit(q, r, jobId)).ledger.accounts;
            if 200 <= r.status <= 299 then after == before else Refused(before, i, r, after)
  {
    ServingChanges(s, q, r, jobId, i);
    if !(200 <= r.status <= 299) {
      RefusalExactly(s.ledger.accounts, i, r, false);
    }
  }

  lemma {:induction false} SubmittedJobExactly(s: System, q: Query, r: Response, jobId: Option<string>, i: nat)
    requires Serves(s.ledger.accounts, q, i)
    ensures var before, after := s.ledger.jobs, Next(s, Submit(q, r, jobId)).ledger.jobs;
            var a := s.ledger.accounts[i];
            if 200 <= r.status <= 299 && jobId.Some? then
              && ActiveCredential(a.credentials).Some?
              && after == before + [Job(Some(a.id), ActiveCredential(a.credentials).value.id, q.endpoint, jobId.value,
                                        "submitted", q.estimatedCredits, None)]
            else after == before
  {
    ServingAccount(s.ledger.accounts, q, i);
  }

  /** With no account to select nothing happens. */
  lemma {:induction false} NobodyServes(s: System, q: Query, r: Response, jobId: Option<string>)
    requires Select(List(s.ledger.accounts), q).None?
    ensures Next(s, Proxy(q, r)).ledger == s.ledger && Next(s, Submit(q, r, jobId)).ledger == s.ledger
  {
  }

  // ---------------------------------------------------------------------------
  // Polls and cancellations
  // ---------------------------------------------------------------------------

  predicate SameLetter(c: char, lower: char) {
    c == lower || ('A' <= c <= 'Z' && c as int + 32 == lower as int)
  }

  /** Equal but for capitals. */
  predicate Reads(text: string, word: string) {
    |text| == |word| && forall i :: 0 <= i < |word| ==> SameLetter(text[i], word[i])
  }

  /** The six words that end a job. */
  predicate Ends(status: string) {
    || Reads(status, "completed") || Reads(status, "complete") || Reads(status, "finished")
    || Reads(status, "failed") || Reads(status, "cancelled") || Reads(status, "canceled")
  }

  lemma {:induction false} LowerReads(text: string, word: string)
    requires forall i :: 0 <= i < |word| ==> 'a' <= word[i] <= 'z'
    ensures Lower(text) == word <==> Reads(text, word)
  {
    if Lower(text) == word {
      forall i | 0 <= i < |word|
        ensures SameLetter(text[i], word[i])
      {
        assert Lower(text)[i] == word[i];
      }
    }
  }

  lemma {:induction false} TerminalExactly(status: string)
    ensures IsTerminal(status) <==> Ends(status)
  {
    LowerReads(status, "completed");
    LowerReads(status, "complete");
    LowerReads(status, "finished");
    LowerReads(status, "failed");
    LowerReads(status, "cancelled");
    LowerReads(status, "canceled");
  }

  /** A successful poll that says the job has ended and what it cost, the first time. */
  predicate IsSettling(job: Job, op: Op) {
    && op.Poll? && 200 <= op.status <= 299 && op.credits.Some? && job.creditsUsedFinal.None?
    && op.jobStatus.Some? && Ends(op.jobStatus.value)
  }

  /** What a settlement does to its account: the charge, and the end of rate limiting. */
  function Settled(a: AccountRecord, credits: int): AccountRecord {
    a.(remainingCreditsLive := if a.remainingCreditsLive.None? then None
                               else Some(Max(0, a.remainingCreditsLive.value - credits)),
       status := if a.status == RateLimited then Active else a.status,
       cooldownUntil := if a.status == RateLimited then None else a.cooldownUntil)
  }

  function Said(said: Option<string>, otherwise: string): string {
    if said.None? || said.value == "" then otherwise else said.value
  }

  lemma {:induction false} PollJobExactly(s: System, op: Op, j: nat)
    requires op.Poll? && OneMatch(s.ledger.jobs, op.endpoint, op.jobId, j)
    ensures Next(s, op).ledger.jobs ==
            if 200 <= op.status <= 299 then
              s.ledger.jobs[j := s.ledger.jobs[j].(status := Said(op.jobStatus, s.ledger.jobs[j].status),
                                                   creditsUsedFinal := if IsSettling(s.ledger.jobs[j], op)
                                                     then op.credits
                                                                       else s.ledger.jobs[j].creditsUsedFinal)]
            else s.ledger.jobs
  {
    if op.jobStatus.Some? {
      TerminalExactly(op.jobStatus.value);
    }
  }

  lemma {:induction false} PollAccountsExactly(s: System, op: Op, j: nat)
    requires op.Poll? && OneMatch(s.ledger.jobs, op.endpoint, op.jobId, j)
    ensures var before, after, job := s.ledger.accounts, Next(s, op).ledger.accounts, s.ledger.jobs[j];
            && |after| == |before|
            && forall k :: 0 <= k < |before| ==>
                 after[k] == if IsSettling(job, op) && job.accountId == Some(before[k].id)
                             then Settled(before[k], op.credits.value) else before[k]
  {
    if op.jobStatus.Some? {
      TerminalExactly(op.jobStatus.value);
    }
  }

  lemma {:induction false} CancelExactly(s: System, op: Op, j: nat)
    requires op.Cancel? && OneMatch(s.ledger.jobs, op.endpoint, op.jobId, j)
    ensures Next(s, op).ledger.accounts == s.ledger.accounts
    ensures Next(s, op).ledger.jobs ==
            if 200 <= op.status <= 299 then
              s.ledger.jobs[j := s.ledger.jobs[j].(status := Said(op.jobStatus, "cancelled"))]
            else s.ledger.jobs
  {
  }

  /** An id that no job row has, or two have, changes nothing. */
  lemma {:induction false} UnknownJob(s: System, op: Op)
    requires (op.Poll? || op.Cancel?) && forall j: nat :: !OneMatch(s.ledger.jobs, op.endpoint, op.jobId, j)
    ensures Next(s, op).ledger == s.ledger
  {
  }

  // ---------------------------------------------------------------------------
  // A refused credential stays out of use
  // ---------------------------------------------------------------------------

  /** The credential exists and is not active. */
  predicate Revoked(accounts: seq<AccountRecord>, id: string) {
    && HoldsCredential(accounts, id)
    && forall i, k ::
         0 <= i < |accounts| && 0 <= k < |accounts[i].credentials| && accounts[i].credentials[k].id == id ==>
           accounts[i].credentials[k].status != CredentialActive
  }

  predicate SetsCredential(op: Op, id: string) {
    op.AdminSetCredential? && op.credentialId == id
  }

  lemma {:induction false} ChangedKeepsCredentials(a: AccountRecord, change: Change)
    ensures var after := Changed(a, change);
            && |after.credentials| >= |a.credentials|
            && (forall k :: 0 <= k < |a.credentials| ==> after.credentials[k].id == a.credentials[k].id)
            && (forall k :: 0 <= k < |a.credentials| && after.credentials[k] != a.credentials[k] ==>
                  || change == InvalidateCredential(a.credentials[k].id)
                  || (change.SetCredentialStatus? && change.credId == a.credentials[k].id))
            && (!change.AddCredential? ==> |after.credentials| == |a.credentials|)
            && (change.AddCredential? ==> after.credentials == a.credentials + [change.credential])
  {
  }

  lemma {:induction false} RevokedModify(accounts: seq<AccountRecord>, id: string, change: Change, c: string)
    requires Revoked(accounts, c)
    requires !(change.SetCredentialStatus? && change.credId == c) && !(change.AddCredential?
             && change.credential.id == c)
    ensures Revoked(Modify(accounts, id, change), c)
  {
    var after := Modify(accounts, id, change);
    forall i | 0 <= i < |accounts|
      ensures |after[i].credentials| >= |accounts[i].credentials|
      ensures forall k :: 0 <= k < |accounts[i].credentials| ==>
                after[i].credentials[k].id == accounts[i].credentials[k].id
      ensures forall k :: 0 <= k < |after[i].credentials| && after[i].credentials[k].id == c ==>
                after[i].credentials[k].status != CredentialActive
    {
      ChangedKeepsCredentials(accounts[i], change);
    }
    var i, k :| 0 <= i < |accounts| && 0 <= k < |accounts[i].credentials| && accounts[i].credentials[k].id == c;
    assert after[i].credentials[k].id == c;
  }

  lemma {:induction false} RevokedNext(l: Ledger, op: Op, c: string)
    requires Revoked(l.accounts, c) && !SetsCredential(op, c)
    ensures Revoked(Applied(l, op).accounts, c)
  {
    var after := Applied(l, op).accounts;
    if op.AdminCreate? {
      if after != l.accounts {
        var i, k :| 0 <= i < |l.accounts| && 0 <= k < |l.accounts[i].credentials|
          && l.accounts[i].credentials[k].id == c;
        assert after[i].credentials[k].id == c;
      }
    } else {
      var effect := Effect(l, op);
      if effect.Some? {
        RevokedModify(l.accounts, effect.value.0, effect.value.1, c);
      }
    }
  }

  lemma {:induction false} RevokedRun(s: System, ops: seq<Op>, c: string)
    requires Revoked(s.ledger.accounts, c) && forall k :: 0 <= k < |ops| ==> !SetsCredential(ops[k], c)
    ensures Revoked(Run(s, ops).ledger.accounts, c)
  {
    if ops != [] {
      RevokedRun(s, ops[..|ops| - 1], c);
      RevokedNext(Run(s, ops[..|ops| - 1]).ledger, ops[|ops| - 1], c);
    }
  }

  /** The credential a request uses, if it is served. */
  function UsedCredential(accounts: seq<AccountRecord>, q: Query): Option<Credential> {
    match Select(List(accounts), q)
    case None => None
    case Some(a) => ActiveCredential(a.credentials)
  }

  lemma {:induction false} RevokedIsNotUsed(accounts: seq<AccountRecord>, c: string, q: Query)
    requires Revoked(accounts, c)
    ensures UsedCredential(accounts, q).Some? ==> UsedCredential(accounts, q).value.id != c
  {
    SelectIsBest(List(accounts), q);
    var a := Select(List(accounts), q);
    if a.Some? {
      var i :| 0 <= i < |List(accounts)| && List(accounts)[i] == a.value;
      assert a.value.credentials == accounts[i].credentials;
    }
  }

  lemma {:induction false} RefusalRevokes(s: System, q: Query, r: Response, i: nat, after: seq<AccountRecord>)
    requires Serves(s.ledger.accounts, q, i) && r.status == 401 && Refused(s.ledger.accounts, i, r, after)
    ensures UsedCredential(s.ledger.accounts, q).Some? && Revoked(after, UsedCredential(s.ledger.accounts, q).value.id)
  {
    var before := s.ledger.accounts;
    ServingAccount(before, q, i);
    var used := ActiveCredential(before[i].credentials).value;
    var k :| 0 <= k < |before[i].credentials| && before[i].credentials[k] == used;
    assert SameButInvalid(before[i], after[i], used.id);
    assert after[i].credentials[k].id == used.id;
  }

  /** In every run: a credential whose request was answered 401, proxied or submitted, is
      used for no request at any time until an admin sets its status. */
  lemma {:induction false} RevokedUntilAdmin(before: seq<Op>, q: Query, r: Response, jobId: Option<string>,
                                             submitted: bool,
                                             i: nat, ops: seq<Op>, later: Query)
    requires Serves(Run(Empty, before).ledger.accounts, q, i) && r.status == 401
    requires var used := UsedCredential(Run(Empty, before).ledger.accounts, q);
             used.Some? ==> forall k :: 0 <= k < |ops| ==> !SetsCredential(ops[k], used.value.id)
    ensures var s := Run(Empty, before);
            var t := Run(Next(s, if submitted then Submit(q, r, jobId) else Proxy(q, r)), ops);
            var used, next := UsedCredential(s.ledger.accounts, q), UsedCredential(t.ledger.accounts, later);
            used.Some? && (next.Some? ==> next.value.id != used.value.id)
  {
    var s := Run(Empty, before);
    var u := Next(s, if submitted then Submit(q, r, jobId) else Proxy(q, r));
    if submitted {
      SubmitExactly(s, q, r, jobId, i);
    } else {
      ProxyExactly(s, q, r, i);
    }
    RefusalRevokes(s, q, r, i, u.ledger.accounts);
    var c := UsedCredential(s.ledger.accounts, q).value.id;
    RevokedRun(u, ops, c);
    RevokedIsNotUsed(Run(u, ops).ledger.accounts, c, later);
  }

  // ---------------------------------------------------------------------------
  // What an admin changes
  // ---------------------------------------------------------------------------

  /** An update sets the fields it names, on that account, and no others. */
  lemma {:induction false} UpdateExactly(s: System, id: string, p: Patch, i: nat)
    requires i < |s.ledger.accounts|
    ensures var before, after := s.ledger.accounts[i], Next(s, AdminUpdate(id, p)).ledger.accounts[i];
            if before.id != id then after == before
            else
              && after == AccountRecord(before.id, before.teamLabel, before.planType, after.status,
                                        after.monthlyBudgetCredits, after.remainingCreditsLive, after.planCreditsLive,
                                        after.cooldownUntil, before.queueActiveJobs, after.queueMaxConcurrency,
                                        before.credentials)
              && after.status == (if p.status.Some? then p.status.value else before.status)
              && after.monthlyBudgetCredits
                 == (if p.monthlyBudgetCredits.Some? then p.monthlyBudgetCredits.value else before.monthlyBudgetCredits)
              && after.remainingCreditsLive
                 == (if p.remainingCreditsLive.Some? then p.remainingCreditsLive.value else before.remainingCreditsLive)
              && after.planCreditsLive
                 == (if p.planCreditsLive.Some? then p.planCreditsLive.value else before.planCreditsLive)
              && after.queueMaxConcurrency
                 == (if p.queueMaxConcurrency.Some? then p.queueMaxConcurrency.value else before.queueMaxConcurrency)
              && after.cooldownUntil == (if p.cooldownUntil.Some? then p.cooldownUntil.value else before.cooldownUntil)
  {
  }

  /** An admin sets the status of one credential of one account and nothing else. */
  lemma {:induction false} SetCredentialExactly(s: System, id: string, c: string, status: CredentialStatus, i: nat)
    requires i < |s.ledger.accounts|
    ensures var before, after := s.ledger.accounts[i], Next(s, AdminSetCredential(id, c, status)).ledger.accounts[i];
            if before.id != id then after == before
            else
              && after == before.(credentials := after.credentials) && |after.credentials| == |before.credentials|
              && forall k :: 0 <= k < |before.credentials| ==>
                   after.credentials[k] == if before.credentials[k].id == c then Credential(c, status)
                                           else before.credentials[k]
  {
  }

  /** A new credential is the account's last one, if no account has one of that id. */
  lemma {:induction false} AddCredentialExactly(s: System, id: string, c: Credential, i: nat)
    requires i < |s.ledger.accounts|
    ensures var before, after := s.ledger.accounts[i], Next(s, AdminAddCredential(id, c)).ledger.accounts[i];
            after == if before.id == id && !HoldsCredential(s.ledger.accounts, c.id)
                     then before.(credentials := before.credentials + [c]) else before
  {
  }

  /** What the router is told of a record: unknown credits count as none, and the plan's
      credits are the reported ones, else the monthly budget, else 1; zero is unknown. */
  lemma {:induction false} RecordAsAccount(r: AccountRecord)
    ensures var a := ToDomain(r);
            && (a.id, a.teamLabel, a.planType) == (r.id, r.teamLabel, r.planType)
            && (a.status, a.credentials, a.cooldownUntil) == (r.status, r.credentials, r.cooldownUntil)
            && a.remainingCredits == (if r.remainingCreditsLive.Some? then r.remainingCreditsLive.value else 0)
            && a.planCredits == (if r.planCreditsLive.Some? && r.planCreditsLive.value != 0 then r.planCreditsLive.value
                                 else if r.monthlyBudgetCredits.Some? && r.monthlyBudgetCredits.value != 0
                                 then r.monthlyBudgetCredits.value else 1)
            && a.queueActiveJobs == (if r.queueActiveJobs.Some? then r.queueActiveJobs.value else 0)
            && a.queueMaxConcurrency == r.queueMaxConcurrency
            && a.inflight == 0 && a.rpmUsed == map[] && a.recentErrorCount == 0
  {
  }
}
