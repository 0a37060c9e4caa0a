/**
 Which of the routing limits can bind through the service: records are turned into
 accounts without request rates or requests in flight, and no two share a label.
 */
module ServiceRouting {
  import opened Common
  import opened Routing
  import opened CreditLedger

  lemma {:induction false} NoRatesRecorded(records: seq<AccountRecord>, n: nat, team: string, endpoint: string)
    requires n <= |records|
    ensures FirstSum(List(records), n, team, Rpm(endpoint)) == 0
    ensures FirstSum(List(records), n, team, Inflight()) == 0
  {
    if n > 0 {
      NoRatesRecorded(records, n - 1, team, endpoint);
    }
  }

  /** The request-rate tables never reject anything. */
  lemma {:induction false} RpmNeverBinds(records: seq<AccountRecord>, i: nat, q: Query)
    requires i < |records|
    ensures var reason := ReasonFor(List(records), ToDomain(records[i]), q);
            reason != Some(AccountRpm) && reason != Some(TeamRpm)
  {
    var a := ToDomain(records[i]);
    NoRatesRecorded(records, |records|, a.teamLabel, q.endpoint);
    LimitsArePositive(a, q.endpoint);
  }

  predicate DistinctLabels(records: seq<AccountRecord>) {
    forall i, j :: 0 <= i < j < |records| ==> records[i].teamLabel != records[j].teamLabel
  }

  lemma {:induction false} LabelsNext(l: Ledger, op: Op)
    requires DistinctLabels(l.accounts)
    ensures DistinctLabels(Applied(l, op).accounts)
  {
    var after := Applied(l, op).accounts;
    assert forall i :: 0 <= i < |l.accounts| ==> after[i].teamLabel == l.accounts[i].teamLabel;
    if |after| > |l.accounts| {
      assert forall i :: 0 <= i < |l.accounts| ==> l.accounts[i] in l.accounts;
    }
  }

  lemma {:induction false} LabelsRun(ops: seq<Op>)
    ensures DistinctLabels(Run(Empty, ops).ledger.accounts)
  {
    if ops != [] {
      LabelsRun(ops[..|ops| - 1]);
      LabelsNext(Run(Empty, ops[..|ops| - 1]).ledger, ops[|ops| - 1]);
    }
  }

  lemma {:induction false} OwnLoadOnly(records: seq<AccountRecord>, i: nat, n: nat)
    requires DistinctLabels(records) && i < |records| && n <= |records|
    ensures FirstSum(List(records), n, records[i].teamLabel, ActiveJobs())
            == if i < n then Or(records[i].queueActiveJobs, 0) else 0
  {
    if n > 0 {
      OwnLoadOnly(records, i, n - 1);
      assert n - 1 < i ==> records[n - 1].teamLabel != records[i].teamLabel;
      assert i < n - 1 ==> records[i].teamLabel != records[n - 1].teamLabel;
    }
  }

  /** With distinct labels an account is admissible exactly when it is active, cool, can
      pay, has an active credential, and its own active jobs are below its limit. */
  lemma {:induction false} OwnLimitsDecide(records: seq<AccountRecord>, i: nat, q: Query)
    requires DistinctLabels(records) && i < |records|
    ensures var r, a := records[i], ToDomain(records[i]);
            var reason := ReasonFor(List(records), a, q);
            && reason != Some(AccountRpm) && reason != Some(TeamRpm) && reason != Some(TeamConcurrency)
            && (reason.None? <==>
                  && r.status.Active?
                  && (r.cooldownUntil.None? || r.cooldownUntil.value <= q.now)
                  && Or(r.remainingCreditsLive, 0) >= q.estimatedCredits
                  && (exists c :: c in r.credentials && c.status.CredentialActive?)
                  && Or(r.queueActiveJobs, 0) < ConcurrencyLimit(a))
  {
    var a := ToDomain(records[i]);
    RpmNeverBinds(records, i, q);
    NoRatesRecorded(records, |records|, a.teamLabel, q.endpoint);
    OwnLoadOnly(records, i, |records|);
    LimitsArePositive(a, q.endpoint);
  }

  /** In every run: neither a request rate nor the team is ever what rejects an account. */
  lemma {:induction false} OnlyOwnLimitsBind(ops: seq<Op>, i: nat, q: Query)
    requires i < |Run(Empty, ops).ledger.accounts|
    ensures var records := Run(Empty, ops).ledger.accounts;
            var reason := ReasonFor(List(records), ToDomain(records[i]), q);
            reason != Some(AccountRpm) && reason != Some(TeamRpm) && reason != Some(TeamConcurrency)
  {
    LabelsRun(ops);
    OwnLimitsDecide(Run(Empty, ops).ledger.accounts, i, q);
  }
}
