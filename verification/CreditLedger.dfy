/**
 Accounts, jobs and credits.  Each proxy, submit, poll, cancel, refresh or admin
 operation is one step, so operations do not overlap.  Times are seconds.
 */
module CreditLedger {
  import opened Common
  import opened Routing

  datatype AccountRecord = AccountRecord(
    id: string,
    teamLabel: string,
    planType: string,
    status: AccountStatus,
    monthlyBudgetCredits: Option<int>,
    remainingCreditsLive: Option<int>,
    planCreditsLive: Option<int>,
    cooldownUntil: Option<int>,
    queueActiveJobs: Option<int>,
    queueMaxConcurrency: Option<int>,
    credentials: seq<Credential>)

  datatype Job = Job(
    accountId: Option<string>,
    credentialId: string,
    endpoint: string,
    upstreamJobId: string,
    status: string,
    estimatedCreditsReserved: int,
    creditsUsedFinal: Option<int>)

  datatype Ledger = Ledger(accounts: seq<AccountRecord>, jobs: seq<Job>)

  /** Python's `a or b` on an optional integer. */
  function Or(a: Option<int>, b: int): int {
    if a.Some? && a.value != 0 then a.value else b
  }

  function ToDomain(r: AccountRecord): Account {
    Account(r.id, r.teamLabel, r.planType, Or(r.remainingCreditsLive, 0),
            Or(r.planCreditsLive, Or(r.monthlyBudgetCredits, 1)), r.status, r.credentials, r.cooldownUntil,
            0, map[], Or(r.queueActiveJobs, 0), r.queueMaxConcurrency, 0)
  }

  /** `list_accounts`; by `Routing.SelectIgnoresOrder` its order is irrelevant. */
  function List(accounts: seq<AccountRecord>): seq<Account> {
    seq(|accounts|, i requires 0 <= i < |accounts| => ToDomain(accounts[i]))
  }

  // ---------------------------------------------------------------------------
  // What can happen to one account
  // ---------------------------------------------------------------------------

  datatype Patch = Patch(
    status: Option<AccountStatus>,
    monthlyBudgetCredits: Option<Option<int>>,
    remainingCreditsLive: Option<Option<int>>,
    planCreditsLive: Option<Option<int>>,
    queueMaxConcurrency: Option<Option<int>>,
    cooldownUntil: Option<Option<int>>)

  datatype Change =
    | Charge(credits: int)
    | InvalidateCredential(credentialId: string)
    | Exhaust
    | RateLimit(cooldown: int)
    | Refresh(remaining: Option<int>, plan: Option<int>, activeJobs: Option<int>, maxConcurrency: Option<int>)
    | Update(patch: Patch)
    | AddCredential(credential: Credential)
    | SetCredentialStatus(credId: string, credStatus: CredentialStatus)

  function WithCredentialStatus(cs: seq<Credential>, id: string, status: CredentialStatus): seq<Credential> {
    seq(|cs|, i requires 0 <= i < |cs| => if cs[i].id == id then cs[i].(status := status) else cs[i])
  }

  function Kept<T>(reported: Option<T>, stored: Option<T>): Option<T> {
    if reported.Some? then reported else stored
  }

  function Changed(a: AccountRecord, change: Change): (r: AccountRecord)
    ensures r.id == a.id && r.teamLabel == a.teamLabel
  {
    match change
    case Charge(credits) =>
      var paid := if a.remainingCreditsLive.None? then a
                  else a.(remainingCreditsLive := Some(Max(0, a.remainingCreditsLive.value - credits)));
      if a.status.RateLimited? then paid.(status := Active, cooldownUntil := None) else paid
    case InvalidateCredential(c) => a.(credentials := WithCredentialStatus(a.credentials, c, CredentialInvalid))
    case Exhaust => a.(status := CreditExhausted)
    case RateLimit(until) => a.(status := RateLimited, cooldownUntil := Some(until))
    case Refresh(remaining, plan, activeJobs, maxConcurrency) =>
      a.(remainingCreditsLive := Kept(remaining, a.remainingCreditsLive),
         planCreditsLive := Kept(plan, a.planCreditsLive),
         queueActiveJobs := Kept(activeJobs, a.queueActiveJobs),
         queueMaxConcurrency := Kept(maxConcurrency, a.queueMaxConcurrency))
    case Update(p) =>
      a.(status := p.status.GetOr(a.status),
         monthlyBudgetCredits := p.monthlyBudgetCredits.GetOr(a.monthlyBudgetCredits),
         remainingCreditsLive := p.remainingCreditsLive.GetOr(a.remainingCreditsLive),
         planCreditsLive := p.planCreditsLive.GetOr(a.planCreditsLive),
         queueMaxConcurrency := p.queueMaxConcurrency.GetOr(a.queueMaxConcurrency),
         cooldownUntil := p.cooldownUntil.GetOr(a.cooldownUntil))
    case AddCredential(c) => a.(credentials := a.credentials + [c])
    case SetCredentialStatus(c, status) => a.(credentials := WithCredentialStatus(a.credentials, c, status))
  }

  /** A change to one account; a credential is invalidated by its own key, whatever
      account it belongs to. */
  function Modify(accounts: seq<AccountRecord>, id: string, change: Change): seq<AccountRecord> {
    seq(|accounts|, i requires 0 <= i < |accounts| =>
      if accounts[i].id == id || change.InvalidateCredential? then Changed(accounts[i], change) else accounts[i])
  }

  /** `after` is `before` with exactly that credential invalid. */
  predicate SameButInvalid(before: AccountRecord, after: AccountRecord, credentialId: string) {
    && after == before.(credentials := after.credentials)
    && |after.credentials| == |before.credentials|
    && forall k :: 0 <= k < |after.credentials| ==>
         if before.credentials[k].id == credentialId then
           after.credentials[k] == Credential(credentialId, CredentialInvalid)
         else after.credentials[k] == before.credentials[k]
  }

  predicate DistinctIds(accounts: seq<AccountRecord>) {
    forall i, j :: 0 <= i < j < |accounts| ==> accounts[i].id != accounts[j].id
  }

  // ---------------------------------------------------------------------------
  // Operations
  // ---------------------------------------------------------------------------

  const COOLDOWN_SECONDS := 60

  /** `_cooldown_until`; `None` is a missing or unreadable Retry-After header. */
  function CooldownUntil(retryAfter: Option<int>, now: int): int {
    if retryAfter.None? then now + COOLDOWN_SECONDS else now + Max(0, retryAfter.value)
  }

  predicate Ok(status: int) {
    200 <= status < 300
  }

  /** What came back: the status, the credits `estimate_credits` reads from it, the
      Retry-After header, and when. */
  datatype Response = Response(status: int, creditsUsed: int, retryAfter: Option<int>, at: int)

  /** `_record_outcome`: what a response does to the account that served it. */
  function Outcome(credentialId: string, r: Response, settleSuccess: bool): Option<Change> {
    if Ok(r.status) && settleSuccess then Some(Charge(r.creditsUsed))
    else if r.status == 401 then Some(InvalidateCredential(credentialId))
    else if r.status == 402 then Some(Exhaust)
    else if r.status == 429 then Some(RateLimit(CooldownUntil(r.retryAfter, r.at)))
    else None
  }

  function Lower(text: string): string {
    seq(|text|, i requires 0 <= i < |text| =>
      if 'A' <= text[i] <= 'Z' then (text[i] as int + 32) as char else text[i])
  }

  predicate IsTerminal(status: string) {
    Lower(status) in {"completed", "complete", "finished", "failed", "cancelled", "canceled"}
  }

  datatype Op =
    | Proxy(q: Query, response: Response)
    | Submit(q: Query, response: Response, upstreamJobId: Option<string>)
    | Poll(endpoint: string, jobId: string, status: int, jobStatus: Option<string>, credits: Option<int>)
    | Cancel(endpoint: string, jobId: string, status: int, jobStatus: Option<string>)
    | RefreshAccount(account: string, remaining: Option<int>, plan: Option<int>, activeJobs: Option<int>,
                     maxConcurrency: Option<int>)
    | AdminUpdate(account: string, patch: Patch)
    | AdminCreate(record: AccountRecord)
    | AdminAddCredential(account: string, credential: Credential)
    | AdminSetCredential(account: string, credentialId: string, credentialStatus: CredentialStatus)

  predicate Matches(job: Job, endpoint: string, jobId: string) {
    job.endpoint == endpoint && job.upstreamJobId == jobId
  }

  /** `get_job_record(...).one_or_none()`: exactly one matching row, or the request
      finds nothing or fails. */
  predicate OneMatch(jobs: seq<Job>, endpoint: string, jobId: string, j: nat) {
    && j < |jobs| && Matches(jobs[j], endpoint, jobId)
    && forall k :: 0 <= k < |jobs| && Matches(jobs[k], endpoint, jobId) ==> k == j
  }

  ghost function FindJob(jobs: seq<Job>, endpoint: string, jobId: string): (r: Option<nat>)
    ensures r.Some? ==> OneMatch(jobs, endpoint, jobId, r.value)
    ensures r.None? ==> forall j: nat :: !OneMatch(jobs, endpoint, jobId, j)
  {
    if exists j: nat :: OneMatch(jobs, endpoint, jobId, j)
    then (var j: nat :| OneMatch(jobs, endpoint, jobId, j); Some(j))
    else None
  }

  /** The first terminal poll that reports credits settles the job. */
  predicate Settles(job: Job, op: Op) {
    op.Poll? && Ok(op.status) && op.jobStatus.Some? && IsTerminal(op.jobStatus.value) && op.credits.Some?
    && job.creditsUsedFinal.None?
  }

  function JobAfter(job: Job, op: Op): Job
    requires op.Poll? || op.Cancel?
  {
    if !Ok(op.status) then job
    else if op.Cancel? then
      job.(status := if op.jobStatus.Some? && op.jobStatus.value != "" then op.jobStatus.value else "cancelled")
    else
      job.(status := if op.jobStatus.Some? && op.jobStatus.value != "" then op.jobStatus.value else job.status,
           creditsUsedFinal := if Settles(job, op) then op.credits else job.creditsUsedFinal)
  }

  predicate HoldsCredential(accounts: seq<AccountRecord>, id: string) {
    exists i, k :: 0 <= i < |accounts| && 0 <= k < |accounts[i].credentials| && accounts[i].credentials[k].id == id
  }

  /** The account an operation changes, and how. */
  ghost function Effect(l: Ledger, op: Op): Option<(string, Change)> {
    match op
    case Proxy(q, response) =>
      (match Select(List(l.accounts), q)
       case None => None
       case Some(a) =>
         var credential := ActiveCredential(a.credentials);
         match Outcome(if credential.Some? then credential.value.id else "", response, true)
         case None => None
         case Some(change) => Some((a.id, change)))
    case Submit(q, response, _) =>
      (match Select(List(l.accounts), q)
       case None => None
       case Some(a) =>
         var credential := ActiveCredential(a.credentials);
         match Outcome(if credential.Some? then credential.value.id else "", response, false)
         case None => None
         case Some(change) => Some((a.id, change)))
    case Poll(endpoint, jobId, _, _, _) =>
      (match FindJob(l.jobs, endpoint, jobId)
       case None => None
       case Some(j) =>
         if Settles(l.jobs[j], op) && l.jobs[j].accountId.Some? then
           Some((l.jobs[j].accountId.value, Charge(op.credits.value)))
         else None)
    case Cancel(_, _, _, _) => None
    case RefreshAccount(a, remaining, plan, activeJobs, maxConcurrency) =>
      Some((a, Refresh(remaining, plan, activeJobs, maxConcurrency)))
    case AdminUpdate(a, patch) => Some((a, Update(patch)))
    case AdminCreate(_) => None
    case AdminAddCredential(a, c) =>
      // A credential's id is its key: a second one is a conflict.
      if HoldsCredential(l.accounts, c.id) then None else Some((a, AddCredential(c)))
    case AdminSetCredential(a, c, status) => Some((a, SetCredentialStatus(c, status)))
  }

  /** A new account starts active, with no cooldown and no credentials. */
  predicate Creatable(l: Ledger, r: AccountRecord) {
    && r.status.Active? && r.cooldownUntil.None? && r.credentials == []
    && forall a :: a in l.accounts ==> a.id != r.id && a.teamLabel != r.teamLabel
  }

  function SubmittedJob(l: Ledger, op: Op): Option<Job> {
    if !op.Submit? || !Ok(op.response.status) || op.upstreamJobId.None? then None
    else
      match Select(List(l.accounts), op.q)
      case None => None
      case Some(a) =>
        var credential := ActiveCredential(a.credentials);
        Some(Job(Some(a.id), if credential.Some? then credential.value.id else "", op.q.endpoint,
                 op.upstreamJobId.value, "submitted", op.q.estimatedCredits, None))
  }

  ghost function Applied(l: Ledger, op: Op): Ledger {
    var accounts :=
      if op.AdminCreate? then (if Creatable(l, op.record) then l.accounts + [op.record] else l.accounts)
      else
        match Effect(l, op)
        case None => l.accounts
        case Some(e) => Modify(l.accounts, e.0, e.1);
    var jobs :=
      if op.Submit? then
        (match SubmittedJob(l, op) case None => l.jobs case Some(job) => l.jobs + [job])
      else if op.Poll? || op.Cancel? then
        match FindJob(l.jobs, op.endpoint, op.jobId)
        case None => l.jobs
        case Some(j) => l.jobs[j := JobAfter(l.jobs[j], op)]
      else l.jobs;
    Ledger(accounts, jobs)
  }

  // ---------------------------------------------------------------------------
  // The books: what was charged, to whom, for which job
  // ---------------------------------------------------------------------------

  datatype Event =
    | BaseSet(account: string, base: Option<int>)
    | Charged(account: string, amount: int, job: Option<nat>)
    | Submitted(account: string, jobRow: nat)

  /** What the books say of a change to account `id`. */
  function Entry(id: string, change: Change, job: Option<nat>): seq<Event> {
    match change
    case Charge(credits) => [Charged(id, credits, job)]
    case Refresh(remaining, _, _, _) => if remaining.Some? then [BaseSet(id, remaining)] else []
    case Update(p) => if p.remainingCreditsLive.Some? then [BaseSet(id, p.remainingCreditsLive.value)] else []
    case _ => []
  }

  ghost function Events(l: Ledger, op: Op): seq<Event> {
    var effect := Effect(l, op);
    if op.AdminCreate? then
      (if Creatable(l, op.record) then [BaseSet(op.record.id, op.record.remainingCreditsLive)] else [])
    else if op.Submit? && SubmittedJob(l, op).Some? then
      [Submitted(SubmittedJob(l, op).value.accountId.GetOr(""), |l.jobs|)]
    else if effect.None? then []
    else Entry(effect.value.0, effect.value.1, if op.Poll? then FindJob(l.jobs, op.endpoint, op.jobId) else None)
  }

  datatype System = System(ledger: Ledger, log: seq<Event>)

  ghost function Next(s: System, op: Op): System {
    System(Applied(s.ledger, op), s.log + Events(s.ledger, op))
  }

  ghost function Run(s: System, ops: seq<Op>): System {
    if ops == [] then s else Next(Run(s, ops[..|ops| - 1]), ops[|ops| - 1])
  }

  const Empty := System(Ledger([], []), [])
}
