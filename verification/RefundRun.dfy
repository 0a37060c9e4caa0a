/**
 A run whose balance is not the clamped total of its charges.  A proxied response can
 only charge an account that can still pay, so the refund comes from a job submitted
 before the account was overspent.
 */
module RefundRun {
  import opened Common
  import opened Routing
  import opened CreditLedger
  import opened Responses

  /** The texts of the run; any will do. */
  datatype Names = Names(account: string, team: string, plan: string, key: string, endpoint: string, job: string)

  function SoleAccount(n: Names, remaining: int, credentials: seq<Credential>): AccountRecord {
    AccountRecord(n.account, n.team, n.plan, Active, None, Some(remaining), None, None, None, None, credentials)
  }

  function Key(n: Names): Credential {
    Credential(n.key, CredentialActive)
  }

  function SoleJob(n: Names): Job {
    Job(Some(n.account), n.key, n.endpoint, n.job, "submitted", 1, None)
  }

  function Created(n: Names, base: int): Op {
    AdminCreate(SoleAccount(n, base, []))
  }

  function Keyed(n: Names): Op {
    AdminAddCredential(n.account, Key(n))
  }

  function Submission(n: Names): Op {
    Submit(Query(n.endpoint, 1, 0), Response(200, 0, None, 0), Some(n.job))
  }

  function Spending(n: Names, spent: int): Op {
    Proxy(Query(n.endpoint, 1, 0), Response(200, spent, None, 0))
  }

  /** The job's first terminal poll, with a negative `creditsUsed`. */
  function Refund(n: Names, status: string, amount: int): Op {
    Poll(n.endpoint, n.job, 200, Some(status), Some(-amount))
  }

  /** An idle account that can pay one credit is selected when it is the only one. */
  lemma {:induction false} SoleAccountIsSelected(n: Names, remaining: int)
    requires remaining >= 1
    ensures Select(List([SoleAccount(n, remaining, [Key(n)])]), Query(n.endpoint, 1, 0))
            == Some(ToDomain(SoleAccount(n, remaining, [Key(n)])))
  {
    var a, q := ToDomain(SoleAccount(n, remaining, [Key(n)])), Query(n.endpoint, 1, 0);
    assert List([SoleAccount(n, remaining, [Key(n)])]) == [a];
    SoleTeamSum(a, a.teamLabel, Rpm(n.endpoint));
    SoleTeamSum(a, a.teamLabel, Inflight());
    SoleTeamSum(a, a.teamLabel, ActiveJobs());
    LimitsArePositive(a, n.endpoint);
    assert ActiveCredential(a.credentials) == Some(Key(n));
    assert Admissible([a], a, q);
    assert a in [a];
    SelectIsBest([a], q);
  }

  lemma {:induction false} CreateStep(n: Names, base: int)
    ensures Applied(Ledger([], []), Created(n, base)) == Ledger([SoleAccount(n, base, [])], [])
  {
  }

  lemma {:induction false} KeyStep(n: Names, base: int)
    ensures Applied(Ledger([SoleAccount(n, base, [])], []), Keyed(n)) == Ledger([SoleAccount(n, base, [Key(n)])], [])
  {
    assert Changed(SoleAccount(n, base, []), AddCredential(Key(n))) == SoleAccount(n, base, [] + [Key(n)]);
    assert [] + [Key(n)] == [Key(n)];
  }

  lemma {:induction false} SubmitStep(n: Names, base: int)
    requires base >= 1
    ensures Applied(Ledger([SoleAccount(n, base, [Key(n)])], []), Submission(n))
            == Ledger([SoleAccount(n, base, [Key(n)])], [SoleJob(n)])
  {
    SoleAccountIsSelected(n, base);
  }

  lemma {:induction false} SpendStep(n: Names, base: int, spent: int)
    requires base >= 1
    ensures Applied(Ledger([SoleAccount(n, base, [Key(n)])], [SoleJob(n)]), Spending(n, spent))
            == Ledger([SoleAccount(n, Max(0, base - spent), [Key(n)])], [SoleJob(n)])
  {
    SoleAccountIsSelected(n, base);
    assert Modify([SoleAccount(n, base, [Key(n)])], n.account, Charge(spent))
        == [SoleAccount(n, Max(0, base - spent), [Key(n)])];
  }

  lemma {:induction false} RunStep(ops: seq<Op>, op: Op, before: Ledger, after: Ledger)
    requires Run(Empty, ops).ledger == before && Applied(before, op) == after
    ensures Run(Empty, ops + [op]).ledger == after
  {
    assert (ops + [op])[..|ops|] == ops;
  }

  function Setup(n: Names, base: int): seq<Op> {
    [] + [Created(n, base)] + [Keyed(n)] + [Submission(n)]
  }

  lemma {:induction false} SetupRun(n: Names, base: int)
    requires base >= 1
    ensures Run(Empty, Setup(n, base)).ledger == Ledger([SoleAccount(n, base, [Key(n)])], [SoleJob(n)])
  {
    var l0, l1 := Ledger([], []), Ledger([SoleAccount(n, base, [])], []);
    var l2, l3 := Ledger([SoleAccount(n, base, [Key(n)])], []), Ledger([SoleAccount(n, base, [Key(n)])], [SoleJob(n)]);
    CreateStep(n, base);
    RunStep([], Created(n, base), l0, l1);
    KeyStep(n, base);
    RunStep([] + [Created(n, base)], Keyed(n), l1, l2);
    SubmitStep(n, base);
    RunStep([] + [Created(n, base)] + [Keyed(n)], Submission(n), l2, l3);
  }

  lemma {:induction false} OverspentRun(n: Names, base: int, spent: int)
    requires 1 <= base <= spent
    ensures Run(Empty, Setup(n, base) + [Spending(n, spent)]).ledger
            == Ledger([SoleAccount(n, 0, [Key(n)])], [SoleJob(n)])
  {
    SetupRun(n, base);
    SpendStep(n, base, spent);
    RunStep(Setup(n, base), Spending(n, spent),
            Ledger([SoleAccount(n, base, [Key(n)])], [SoleJob(n)]),
            Ledger([SoleAccount(n, 0, [Key(n)])], [SoleJob(n)]));
  }

  /** The poll settles the job of an account with nothing left. */
  lemma {:induction false} RefundStep(s: System, n: Names, status: string, amount: int)
    requires s.ledger == Ledger([SoleAccount(n, 0, [Key(n)])], [SoleJob(n)]) && Ends(status) && amount >= 1
    ensures Next(s, Refund(n, status, amount)).ledger.accounts == [SoleAccount(n, amount, [Key(n)])]
  {
    assert OneMatch(s.ledger.jobs, n.endpoint, n.job, 0);
    PollAccountsExactly(s, Refund(n, status, amount), 0);
  }

  lemma {:induction false} RunSnoc(ops: seq<Op>, op: Op)
    ensures Run(Empty, ops + [op]) == Next(Run(Empty, ops), op)
  {
    assert (ops + [op])[..|ops|] == ops;
  }

  /** From `base` credits, after spending at least those and refunding some, the
      balance is the whole refund: the clamped total only if nothing was overspent. */
  lemma {:induction false} RefundBreaksClampedTotal(n: Names, base: int, spent: int, status: string, amount: int)
    requires 1 <= base <= spent && Ends(status) && amount >= 1
    ensures Run(Empty, Setup(n, base) + [Spending(n, spent)] + [Refund(n, status, amount)]).ledger.accounts
            == [SoleAccount(n, amount, [Key(n)])]
    ensures amount == Max(0, base - (spent - amount)) <==> spent == base
  {
    var ops := Setup(n, base) + [Spending(n, spent)];
    OverspentRun(n, base, spent);
    RunSnoc(ops, Refund(n, status, amount));
    RefundStep(Run(Empty, ops), n, status, amount);
  }
}
