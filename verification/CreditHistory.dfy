/** What every run of operations keeps true of balances, jobs and account status. */
module CreditHistory {
  import opened Common
  import opened Routing
  import opened CreditLedger

  // ---------------------------------------------------------------------------
  // Clamped subtraction, in closed form
  // ---------------------------------------------------------------------------

  /** Charges are taken one by one and the balance never drops below zero. */
  function Balance(base: int, charges: seq<int>): int {
    if charges == [] then base
    else Max(0, Balance(base, charges[..|charges| - 1]) - charges[|charges| - 1])
  }

  function Sum(xs: seq<int>): int {
    if xs == [] then 0 else Sum(xs[..|xs| - 1]) + xs[|xs| - 1]
  }

  lemma {:induction false} SumSuffixSnoc(xs: seq<int>, k: nat)
    requires k < |xs|
    ensures Sum(xs[k..]) == Sum(xs[..|xs| - 1][k..]) + xs[|xs| - 1]
  {
    assert xs[k..][..|xs| - 1 - k] == xs[..|xs| - 1][k..];
  }

  /** For any charges, refunds included: the balance is the largest of what the base
      leaves and of what each later moment at zero leaves. */
  lemma {:induction false} BalanceIsLargestSuffix(base: int, cs: seq<int>)
    requires cs != []
    ensures Balance(base, cs) >= base - Sum(cs)
    ensures forall k :: 1 <= k <= |cs| ==> Balance(base, cs) >= -Sum(cs[k..])
    ensures Balance(base, cs) == base - Sum(cs) || exists k :: 1 <= k <= |cs| && Balance(base, cs) == -Sum(cs[k..])
  {
    var n := |cs| - 1;
    var front, c := cs[..n], cs[n];
    assert cs[n + 1..] == [];
    forall k | 1 <= k <= n
      ensures Sum(cs[k..]) == Sum(front[k..]) + c
    {
      SumSuffixSnoc(cs, k);
    }
    if n > 0 {
      BalanceIsLargestSuffix(base, front);
      if Balance(base, front) != base - Sum(front) && Balance(base, front) - c >= 0 {
        var k :| 1 <= k <= n && Balance(base, front) == -Sum(front[k..]);
        assert Balance(base, cs) == -Sum(cs[k..]);
      }
    }
    if Balance(base, cs) == 0 {
      assert Balance(base, cs) == -Sum(cs[n + 1..]);
    }
  }

  /** Clamping step by step equals clamping the total exactly when no run of latest
      charges refunds more than that total leaves. */
  lemma {:induction false} ClampedTotalExactly(base: int, cs: seq<int>)
    requires cs != []
    ensures Balance(base, cs) == Max(0, base - Sum(cs))
            <==> forall k :: 1 <= k < |cs| ==> -Sum(cs[k..]) <= Max(0, base - Sum(cs))
  {
    BalanceIsLargestSuffix(base, cs);
    assert cs[|cs|..] == [];
  }

  predicate NonNegative(xs: seq<int>) {
    forall i :: 0 <= i < |xs| ==> xs[i] >= 0
  }

  lemma {:induction false} SumNonNegative(xs: seq<int>)
    requires NonNegative(xs)
    ensures Sum(xs) >= 0
  {
    if xs != [] {
      SumNonNegative(xs[..|xs| - 1]);
    }
  }

  lemma {:induction false} ClampedTotal(base: int, cs: seq<int>)
    requires base >= 0 && NonNegative(cs)
    ensures Balance(base, cs) == Max(0, base - Sum(cs))
  {
    if cs != [] {
      forall k | 1 <= k < |cs|
        ensures Sum(cs[k..]) >= 0
      {
        SumNonNegative(cs[k..]);
      }
      ClampedTotalExactly(base, cs);
    }
  }

  // ---------------------------------------------------------------------------
  // Reading the log
  // ---------------------------------------------------------------------------

  /** The base last given to an account by creation, refresh or an admin. */
  function LastBase(log: seq<Event>, id: string): Option<Option<int>> {
    FirstBase(log, |log|, id)
  }

  /** The charges made to an account since then. */
  function ChargesSinceBase(log: seq<Event>, id: string): seq<int> {
    FirstCharges(log, |log|, id)
  }

  /** Every charge ever made for a job row: account and amount. */
  function JobCharges(log: seq<Event>, j: nat): seq<(string, int)> {
    FirstJobCharges(log, |log|, j)
  }

  function Submitters(log: seq<Event>, j: nat): seq<string> {
    FirstSubmitters(log, |log|, j)
  }

  // The same, from the first `n` entries of the log.

  function FirstBase(log: seq<Event>, n: nat, id: string): Option<Option<int>>
    requires n <= |log|
  {
    if n == 0 then None
    else if log[n - 1].BaseSet? && log[n - 1].account == id then Some(log[n - 1].base)
    else FirstBase(log, n - 1, id)
  }

  function FirstCharges(log: seq<Event>, n: nat, id: string): seq<int>
    requires n <= |log|
  {
    if n == 0 then [] else ChargesAfter(FirstCharges(log, n - 1, id), log[n - 1], id)
  }

  function ChargesAfter(charges: seq<int>, e: Event, id: string): seq<int> {
    if e.account != id || e.Submitted? then charges
    else if e.BaseSet? then []
    else charges + [e.amount]
  }

  function FirstJobCharges(log: seq<Event>, n: nat, j: nat): seq<(string, int)>
    requires n <= |log|
  {
    if n == 0 then []
    else
      var e := log[n - 1];
      FirstJobCharges(log, n - 1, j) + (if e.Charged? && e.job == Some(j) then [(e.account, e.amount)] else [])
  }

  function FirstSubmitters(log: seq<Event>, n: nat, j: nat): seq<string>
    requires n <= |log|
  {
    if n == 0 then []
    else
      var e := log[n - 1];
      FirstSubmitters(log, n - 1, j) + (if e.Submitted? && e.jobRow == j then [e.account] else [])
  }

  lemma {:induction false} BooksPrefix(a: seq<Event>, b: seq<Event>, n: nat, id: string)
    requires n <= |a| && n <= |b| && forall k :: 0 <= k < n ==> a[k] == b[k]
    ensures FirstBase(a, n, id) == FirstBase(b, n, id) && FirstCharges(a, n, id) == FirstCharges(b, n, id)
  {
    if n > 0 {
      BooksPrefix(a, b, n - 1, id);
    }
  }

  lemma {:induction false} JobLogPrefix(a: seq<Event>, b: seq<Event>, n: nat, j: nat)
    requires n <= |a| && n <= |b| && forall k :: 0 <= k < n ==> a[k] == b[k]
    ensures FirstJobCharges(a, n, j) == FirstJobCharges(b, n, j) && FirstSubmitters(a, n, j) == FirstSubmitters(b, n, j)
  {
    if n > 0 {
      JobLogPrefix(a, b, n - 1, j);
    }
  }

  lemma {:induction false} BooksSnoc(log: seq<Event>, e: Event, id: string)
    ensures LastBase(log + [e], id) == if e.BaseSet? && e.account == id then Some(e.base) else LastBase(log, id)
    ensures ChargesSinceBase(log + [e], id) == ChargesAfter(ChargesSinceBase(log, id), e, id)
  {
    BooksPrefix(log, log + [e], |log|, id);
  }

  /** `Next` appends at most one event. */
  lemma {:induction false} OneEvent(s: System, op: Op)
    ensures var events := Events(s.ledger, op);
            && |events| <= 1
            && (events == [] ==> Next(s, op).log == s.log)
            && (events != [] ==> Next(s, op).log == s.log + [events[0]])
  {
    var events := Events(s.ledger, op);
    assert s.log + [] == s.log;
    assert events != [] ==> events == [events[0]];
  }

  // ---------------------------------------------------------------------------
  // Balances
  // ---------------------------------------------------------------------------

  predicate Booked(log: seq<Event>, a: AccountRecord) {
    var base := LastBase(log, a.id);
    && base.Some?
    && a.remainingCreditsLive ==
       if base.value.None? then None else Some(Balance(base.value.value, ChargesSinceBase(log, a.id)))
  }

  predicate BooksInv(s: System) {
    && CreditLedger.DistinctIds(s.ledger.accounts)
    && forall i :: 0 <= i < |s.ledger.accounts| ==> Booked(s.log, s.ledger.accounts[i])
  }

  lemma {:induction false} BalanceSnoc(base: int, cs: seq<int>, c: int)
    ensures Balance(base, cs + [c]) == Max(0, Balance(base, cs) - c)
  {
    assert (cs + [c])[..|cs|] == cs;
  }

  /** What an entry in the log says about an account's balance before and after. */
  predicate Entered(before: AccountRecord, e: Event, after: AccountRecord) {
    && after.id == before.id
    && after.remainingCreditsLive ==
       if e.account != before.id then before.remainingCreditsLive
       else match e
         case BaseSet(_, base) => base
         case Charged(_, amount, _) =>
           if before.remainingCreditsLive.None? then None
           else Some(Max(0, before.remainingCreditsLive.value - amount))
         case Submitted(_, _) => before.remainingCreditsLive
  }

  lemma {:induction false} BookedSnoc(log: seq<Event>, before: AccountRecord, e: Event, after: AccountRecord)
    requires Booked(log, before) && Entered(before, e, after)
    ensures Booked(log + [e], after)
  {
    BooksSnoc(log, e, before.id);
    var base, charges := LastBase(log, before.id).value, ChargesSinceBase(log, before.id);
    if e.Charged? && e.account == before.id && base.Some? {
      BalanceSnoc(base.value, charges, e.amount);
    }
  }

  lemma {:induction false} ModifiedEntry(accounts: seq<AccountRecord>, id: string, change: Change, job: Option<nat>,
                                         i: nat)
    requires i < |accounts|
    ensures var before, after, events := accounts[i], Modify(accounts, id, change)[i], Entry(id, change, job);
            && after.id == before.id
            && (events == [] ==> after.remainingCreditsLive == before.remainingCreditsLive)
            && (events != [] ==> Entered(before, events[0], after))
  {
  }

  /** The log entry of an operation tells what it does to every existing account. */
  lemma {:induction false} EntryIsRight(s: System, op: Op, i: nat)
    requires i < |s.ledger.accounts|
    ensures var before, after := s.ledger.accounts[i], Applied(s.ledger, op).accounts[i];
            var events := Events(s.ledger, op);
            && after.id == before.id
            && (events == [] ==> after.remainingCreditsLive == before.remainingCreditsLive)
            && (events != [] ==> Entered(before, events[0], after))
  {
    var effect := Effect(s.ledger, op);
    if op.AdminCreate? {
      assert s.ledger.accounts[i] in s.ledger.accounts;
    } else if effect.Some? {
      var job := if op.Poll? then FindJob(s.ledger.jobs, op.endpoint, op.jobId) else None;
      ModifiedEntry(s.ledger.accounts, effect.value.0, effect.value.1, job, i);
    }
  }

  lemma {:induction false} BookedNext(s: System, op: Op, i: nat)
    requires BooksInv(s) && i < |Next(s, op).ledger.accounts|
    ensures Booked(Next(s, op).log, Next(s, op).ledger.accounts[i])
  {
    OneEvent(s, op);
    var events, after := Events(s.ledger, op), Next(s, op).ledger.accounts[i];
    if i >= |s.ledger.accounts| {
      BooksSnoc(s.log, events[0], after.id);
    } else {
      EntryIsRight(s, op, i);
      assert Booked(s.log, s.ledger.accounts[i]);
      if events != [] {
        BookedSnoc(s.log, s.ledger.accounts[i], events[0], after);
      }
    }
  }

  lemma {:induction false} BooksNext(s: System, op: Op)
    requires BooksInv(s)
    ensures BooksInv(Next(s, op))
  {
    forall i | 0 <= i < |Next(s, op).ledger.accounts|
      ensures Booked(Next(s, op).log, Next(s, op).ledger.accounts[i])
    {
      BookedNext(s, op, i);
    }
  }

  lemma {:induction false} BooksRun(ops: seq<Op>)
    ensures BooksInv(Run(Empty, ops))
  {
    if ops != [] {
      BooksRun(ops[..|ops| - 1]);
      BooksNext(Run(Empty, ops[..|ops| - 1]), ops[|ops| - 1]);
    }
  }

  /** The balance is the clamped total of the books: always when nothing negative was
      booked, and otherwise exactly when no run of latest charges refunds too much. */
  predicate InBalance(log: seq<Event>, a: AccountRecord) {
    var base, charges := LastBase(log, a.id), ChargesSinceBase(log, a.id);
    && base.Some?
    && (base.value.None? <==> a.remainingCreditsLive.None?)
    && (base.value.Some? ==>
          var total := Max(0, base.value.value - Sum(charges));
          && (base.value.value >= 0 && NonNegative(charges) ==> a.remainingCreditsLive.value == total)
          && (charges == [] ==> a.remainingCreditsLive.value == base.value.value)
          && (charges != [] ==>
                (a.remainingCreditsLive.value == total
                 <==> forall k :: 1 <= k < |charges| ==> -Sum(charges[k..]) <= total)))
  }

  lemma {:induction false} BookedIsInBalance(log: seq<Event>, a: AccountRecord)
    requires Booked(log, a)
    ensures InBalance(log, a)
  {
    var base, charges := LastBase(log, a.id).value, ChargesSinceBase(log, a.id);
    if base.Some? {
      if base.value >= 0 && NonNegative(charges) {
        ClampedTotal(base.value, charges);
      }
      if charges != [] {
        ClampedTotalExactly(base.value, charges);
      }
    }
  }

  /** In every run every account's balance is what its last base leaves after all
      later charges, never below zero; an account without a base has no balance. */
  lemma {:induction false} BalanceMatchesHistory(ops: seq<Op>, i: nat)
    requires i < |Run(Empty, ops).ledger.accounts|
    ensures InBalance(Run(Empty, ops).log, Run(Empty, ops).ledger.accounts[i])
  {
    BooksRun(ops);
    BookedIsInBalance(Run(Empty, ops).log, Run(Empty, ops).ledger.accounts[i]);
  }

  // ---------------------------------------------------------------------------
  // Jobs
  // ---------------------------------------------------------------------------

  predicate JobBooked(s: System, j: nat) {
    if j >= |s.ledger.jobs| then JobCharges(s.log, j) == [] && Submitters(s.log, j) == []
    else
      var job := s.ledger.jobs[j];
      && job.accountId.Some?
      && Submitters(s.log, j) == [job.accountId.value]
      && JobCharges(s.log, j) ==
         (if job.creditsUsedFinal.None? then [] else [(job.accountId.value, job.creditsUsedFinal.value)])
  }

  lemma {:induction false} JobLogSnoc(log: seq<Event>, e: Event, j: nat)
    ensures JobCharges(log + [e], j)
            == JobCharges(log, j) + (if e.Charged? && e.job == Some(j) then [(e.account, e.amount)] else [])
    ensures Submitters(log + [e], j)
            == Submitters(log, j) + (if e.Submitted? && e.jobRow == j then [e.account] else [])
  {
    JobLogPrefix(log, log + [e], |log|, j);
  }

  lemma {:induction false} JobLogNext(s: System, op: Op, j: nat)
    ensures var events := Events(s.ledger, op);
            && JobCharges(Next(s, op).log, j)
               == JobCharges(s.log, j)
                  + (if events != [] && events[0].Charged? && events[0].job == Some(j)
                     then [(events[0].account, events[0].amount)] else [])
            && Submitters(Next(s, op).log, j)
               == Submitters(s.log, j)
                  + (if events != [] && events[0].Submitted? && events[0].jobRow == j then [events[0].account] else [])
  {
    OneEvent(s, op);
    if Events(s.ledger, op) != [] {
      JobLogSnoc(s.log, Events(s.ledger, op)[0], j);
    }
  }

  ghost predicate PolledJobBooked(s: System, op: Op) {
    op.Poll? ==>
      var found := FindJob(s.ledger.jobs, op.endpoint, op.jobId);
      found.Some? ==> JobBooked(s, found.value)
  }

  lemma {:induction false} SubmitEvents(l: Ledger, op: Op)
    requires op.Submit?
    ensures var job, events := SubmittedJob(l, op), Events(l, op);
            && (job.Some? ==>
                  && job.value.accountId.Some? && job.value.creditsUsedFinal.None?
                  && events == [Submitted(job.value.accountId.value, |l.jobs|)])
            && (job.None? ==> events == [])
            && Applied(l, op).jobs == l.jobs + (if job.Some? then [job.value] else [])
  {
  }

  lemma {:induction false} SubmitLog(s: System, op: Op, j: nat)
    requires op.Submit?
    ensures var job := SubmittedJob(s.ledger, op);
            && JobCharges(Next(s, op).log, j) == JobCharges(s.log, j)
            && Submitters(Next(s, op).log, j)
               == Submitters(s.log, j)
                  + (if job.Some? && j == |s.ledger.jobs| then [job.value.accountId.GetOr("")] else [])
  {
    SubmitEvents(s.ledger, op);
    JobLogNext(s, op, j);
  }

  lemma {:induction false} SubmitBooks(s: System, op: Op, j: nat)
    requires op.Submit? && JobBooked(s, j)
    ensures JobBooked(Next(s, op), j)
  {
    SubmitEvents(s.ledger, op);
    SubmitLog(s, op, j);
  }

  lemma {:induction false} PollLog(s: System, op: Op, j: nat)
    requires op.Poll? && PolledJobBooked(s, op)
    ensures var found := FindJob(s.ledger.jobs, op.endpoint, op.jobId);
            && Submitters(Next(s, op).log, j) == Submitters(s.log, j)
            && JobCharges(Next(s, op).log, j)
               == JobCharges(s.log, j)
                  + (if found == Some(j) && Settles(s.ledger.jobs[j], op)
                     then [(s.ledger.jobs[j].accountId.GetOr(""), op.credits.GetOr(0))] else [])
  {
    JobLogNext(s, op, j);
    var found := FindJob(s.ledger.jobs, op.endpoint, op.jobId);
    if found.Some? && Settles(s.ledger.jobs[found.value], op) {
      assert Events(s.ledger, op) == [Charged(s.ledger.jobs[found.value].accountId.value, op.credits.value, found)];
    } else {
      assert Events(s.ledger, op) == [];
    }
  }

  lemma {:induction false} PollBooks(s: System, op: Op, j: nat)
    requires op.Poll? && JobBooked(s, j) && PolledJobBooked(s, op)
    ensures JobBooked(Next(s, op), j)
  {
    PollLog(s, op, j);
  }

  /** No other operation logs a job, or changes an owner or final credits. */
  lemma {:induction false} OtherIsSilent(s: System, op: Op, j: nat)
    requires !op.Submit? && !op.Poll?
    ensures JobCharges(Next(s, op).log, j) == JobCharges(s.log, j)
            && Submitters(Next(s, op).log, j) == Submitters(s.log, j)
  {
    var events := Events(s.ledger, op);
    assert events == [] || events[0].BaseSet? || (events[0].Charged? && events[0].job.None?);
    JobLogNext(s, op, j);
  }

  lemma {:induction false} OtherKeepsRow(l: Ledger, op: Op, j: nat)
    requires !op.Submit? && !op.Poll?
    ensures var jobs := Applied(l, op).jobs;
            && |jobs| == |l.jobs|
            && (j < |jobs| ==>
                  && jobs[j].accountId == l.jobs[j].accountId
                  && jobs[j].creditsUsedFinal == l.jobs[j].creditsUsedFinal)
  {
  }

  lemma {:induction false} OtherBooks(s: System, op: Op, j: nat)
    requires !op.Submit? && !op.Poll? && JobBooked(s, j)
    ensures JobBooked(Next(s, op), j)
  {
    OtherIsSilent(s, op, j);
    OtherKeepsRow(s.ledger, op, j);
  }

  lemma {:induction false} JobsNext(s: System, op: Op, j: nat)
    requires JobBooked(s, j) && PolledJobBooked(s, op)
    ensures JobBooked(Next(s, op), j)
  {
    match op
    case Submit(_, _, _) => SubmitBooks(s, op, j);
    case Poll(_, _, _, _, _) => PollBooks(s, op, j);
    case _ => OtherBooks(s, op, j);
  }

  lemma {:induction false} JobsRun(ops: seq<Op>)
    ensures forall j :: JobBooked(Run(Empty, ops), j)
  {
    if ops != [] {
      JobsRun(ops[..|ops| - 1]);
      forall j
        ensures JobBooked(Run(Empty, ops), j)
      {
        JobsNext(Run(Empty, ops[..|ops| - 1]), ops[|ops| - 1], j);
      }
    }
  }

  /** In every run a job row is charged at most once: not before it is settled, then
      for exactly its final credits, and only to the account that submitted it. */
  lemma {:induction false} JobIsChargedOnce(ops: seq<Op>, j: nat)
    ensures var s := Run(Empty, ops);
            && |JobCharges(s.log, j)| <= 1
            && (j < |s.ledger.jobs| ==>
                  && |Submitters(s.log, j)| == 1
                  && (JobCharges(s.log, j) == [] <==> s.ledger.jobs[j].creditsUsedFinal.None?)
                  && (s.ledger.jobs[j].creditsUsedFinal.Some? ==>
                        JobCharges(s.log, j) == [(Submitters(s.log, j)[0], s.ledger.jobs[j].creditsUsedFinal.value)]))
  {
    JobsRun(ops);
    assert JobBooked(Run(Empty, ops), j);
  }

  /** Once set, `credits_used_final` and the owner of a job never change again. */
  lemma {:induction false} FinalCreditsAreWriteOnce(s: System, ops: seq<Op>, j: nat)
    requires j < |s.ledger.jobs|
    ensures var t := Run(s, ops);
            && j < |t.ledger.jobs|
            && t.ledger.jobs[j].accountId == s.ledger.jobs[j].accountId
            && (s.ledger.jobs[j].creditsUsedFinal.Some? ==>
                  t.ledger.jobs[j].creditsUsedFinal == s.ledger.jobs[j].creditsUsedFinal)
  {
    if ops != [] {
      FinalCreditsAreWriteOnce(s, ops[..|ops| - 1], j);
    }
  }

  // ---------------------------------------------------------------------------
  // The account status machine
  // ---------------------------------------------------------------------------

  predicate SetsStatus(op: Op, id: string) {
    op.AdminUpdate? && op.account == id && op.patch.status.Some?
  }

  /** Only an active account is ever selected. */
  lemma {:induction false} SelectedIsActive(accounts: seq<AccountRecord>, q: Query)
    ensures var r := Select(List(accounts), q);
            r.Some? ==>
              exists i :: 0 <= i < |accounts| && ToDomain(accounts[i]) == r.value && accounts[i].status.Active?
  {
    SelectIsBest(List(accounts), q);
    var r := Select(List(accounts), q);
    if r.Some? {
      var i :| 0 <= i < |List(accounts)| && List(accounts)[i] == r.value;
      assert ToDomain(accounts[i]) == r.value;
    }
  }

  lemma {:induction false} NotSelected(accounts: seq<AccountRecord>, i: nat, q: Query)
    requires i < |accounts| && CreditLedger.DistinctIds(accounts) && !accounts[i].status.Active?
    ensures Select(List(accounts), q).Some? ==> Select(List(accounts), q).value.id != accounts[i].id
  {
    SelectedIsActive(accounts, q);
  }

  lemma {:induction false} ModifyKeepsIds(s: System, op: Op, i: nat)
    requires i < |s.ledger.accounts|
    ensures i < |Next(s, op).ledger.accounts| && Next(s, op).ledger.accounts[i].id == s.ledger.accounts[i].id
  {
  }

  /** Whoever serves a request, an inactive account is as it was. */
  lemma {:induction false} ServingKeepsStatus(s: System, op: Op, i: nat)
    requires BooksInv(s) && i < |s.ledger.accounts| && !s.ledger.accounts[i].status.Active?
    requires op.Proxy? || op.Submit?
    ensures i < |Next(s, op).ledger.accounts| && Next(s, op).ledger.accounts[i].status == s.ledger.accounts[i].status
  {
    NotSelected(s.ledger.accounts, i, op.q);
  }

  /** A poll changes a status only by settling a job of a rate-limited account. */
  lemma {:induction false} PollStatus(s: System, op: Op, i: nat)
    requires op.Poll? && i < |s.ledger.accounts|
    ensures var a, t := s.ledger.accounts[i], Next(s, op);
            && i < |t.ledger.accounts|
            && (t.ledger.accounts[i].status == a.status
                || (a.status.RateLimited? && t.ledger.accounts[i].status.Active?
                    && exists e :: e in Events(s.ledger, op) && e.Charged? && e.account == a.id && e.job.Some?))
  {
    var effect := Effect(s.ledger, op);
    if effect.Some? && effect.value.0 == s.ledger.accounts[i].id {
      assert Events(s.ledger, op)[0] in Events(s.ledger, op);
    }
  }

  /** An inactive account changes status only by an admin, or, when rate limited, by
      the settlement of one of its jobs. */
  lemma {:induction false} StatusNext(s: System, op: Op, i: nat)
    requires BooksInv(s) && i < |s.ledger.accounts| && !s.ledger.accounts[i].status.Active?
    requires !SetsStatus(op, s.ledger.accounts[i].id)
    ensures var t := Next(s, op);
            var a := s.ledger.accounts[i];
            && i < |t.ledger.accounts| && t.ledger.accounts[i].id == a.id
            && (t.ledger.accounts[i].status == a.status
                || (a.status.RateLimited? && t.ledger.accounts[i].status.Active?
                    && exists e :: e in Events(s.ledger, op) && e.Charged? && e.account == a.id && e.job.Some?))
  {
    ModifyKeepsIds(s, op, i);
    if op.Proxy? || op.Submit? {
      ServingKeepsStatus(s, op, i);
    } else if op.Poll? {
      PollStatus(s, op, i);
    }
  }

  /** Credit exhaustion lasts, from any state that the books explain. */
  lemma {:induction false} ExhaustedRun(s: System, ops: seq<Op>, i: nat)
    requires BooksInv(s) && i < |s.ledger.accounts| && s.ledger.accounts[i].status.CreditExhausted?
    requires forall k :: 0 <= k < |ops| ==> !SetsStatus(ops[k], s.ledger.accounts[i].id)
    ensures var t := Run(s, ops);
            && BooksInv(t)
            && i < |t.ledger.accounts| && t.ledger.accounts[i].id == s.ledger.accounts[i].id
            && t.ledger.accounts[i].status.CreditExhausted?
  {
    if ops != [] {
      var front := ops[..|ops| - 1];
      ExhaustedRun(s, front, i);
      BooksNext(Run(s, front), ops[|ops| - 1]);
      StatusNext(Run(s, front), ops[|ops| - 1], i);
    }
  }

  /** After a 402 the account is out of every selection, for any request at any
      time, until an admin sets its status. */
  lemma {:induction false} ExhaustedUntilAdmin(before: seq<Op>, ops: seq<Op>, i: nat, q: Query)
    requires i < |Run(Empty, before).ledger.accounts|
    requires var s := Run(Empty, before);
             s.ledger.accounts[i].status.CreditExhausted?
             && forall k :: 0 <= k < |ops| ==> !SetsStatus(ops[k], s.ledger.accounts[i].id)
    ensures var s, t := Run(Empty, before), Run(Run(Empty, before), ops);
            && i < |t.ledger.accounts| && t.ledger.accounts[i].id == s.ledger.accounts[i].id
            && t.ledger.accounts[i].status.CreditExhausted?
            && (Select(List(t.ledger.accounts), q).Some? ==>
                  Select(List(t.ledger.accounts), q).value.id != s.ledger.accounts[i].id)
  {
    BooksRun(before);
    ExhaustedRun(Run(Empty, before), ops, i);
    NotSelected(Run(Run(Empty, before), ops).ledger.accounts, i, q);
  }

  predicate JobSettledFor(log: seq<Event>, id: string) {
    exists e :: e in log && e.Charged? && e.account == id && e.job.Some?
  }

  /** Between `s` and `t` account `i` stayed rate limited, unless a job of its was settled. */
  predicate LimitedSince(s: System, t: System, i: nat) {
    && BooksInv(t) && s.log <= t.log
    && i < |s.ledger.accounts| && i < |t.ledger.accounts|
    && t.ledger.accounts[i].id == s.ledger.accounts[i].id
    && (t.ledger.accounts[i].status.RateLimited? || JobSettledFor(t.log[|s.log|..], s.ledger.accounts[i].id))
  }

  lemma {:induction false} LimitedNext(s: System, u: System, op: Op, i: nat)
    requires LimitedSince(s, u, i) && !SetsStatus(op, s.ledger.accounts[i].id)
    ensures LimitedSince(s, Next(u, op), i)
  {
    var id := s.ledger.accounts[i].id;
    var t := Next(u, op);
    BooksNext(u, op);
    ModifyKeepsIds(u, op, i);
    assert t.log[|s.log|..] == u.log[|s.log|..] + Events(u.ledger, op);
    if JobSettledFor(u.log[|s.log|..], id) {
      var e :| e in u.log[|s.log|..] && e.Charged? && e.account == id && e.job.Some?;
      assert e in t.log[|s.log|..];
    } else {
      StatusNext(u, op, i);
      if !t.ledger.accounts[i].status.RateLimited? {
        var e :| e in Events(u.ledger, op) && e.Charged? && e.account == id && e.job.Some?;
        assert e in t.log[|s.log|..];
      }
    }
  }

  lemma {:induction false} LimitedRun(s: System, ops: seq<Op>, i: nat)
    requires LimitedSince(s, s, i)
    requires forall k :: 0 <= k < |ops| ==> !SetsStatus(ops[k], s.ledger.accounts[i].id)
    ensures LimitedSince(s, Run(s, ops), i)
  {
    if ops != [] {
      LimitedRun(s, ops[..|ops| - 1], i);
      LimitedNext(s, Run(s, ops[..|ops| - 1]), ops[|ops| - 1], i);
    }
  }

  /** After a 429 the account is out of every selection, even after `cooldown_until`
      has passed, until an admin sets its status or one of its jobs is settled. */
  lemma {:induction false} RateLimitedUntilSettlement(before: seq<Op>, ops: seq<Op>, i: nat, q: Query)
    requires i < |Run(Empty, before).ledger.accounts|
    requires var s := Run(Empty, before);
             s.ledger.accounts[i].status.RateLimited?
             && forall k :: 0 <= k < |ops| ==> !SetsStatus(ops[k], s.ledger.accounts[i].id)
    ensures var s, t := Run(Empty, before), Run(Run(Empty, before), ops);
            var selected := Select(List(t.ledger.accounts), q);
            && LimitedSince(s, t, i)
            && (selected.Some? && selected.value.id == s.ledger.accounts[i].id ==>
                  JobSettledFor(t.log[|s.log|..], s.ledger.accounts[i].id))
  {
    BooksRun(before);
    var s := Run(Empty, before);
    LimitedRun(s, ops, i);
    var t := Run(s, ops);
    if t.ledger.accounts[i].status.RateLimited? {
      NotSelected(t.ledger.accounts, i, q);
    }
  }

  /** The upstream codes that start those two states. */
  lemma {:induction false} ProxySetsStatus(s: System, q: Query, r: Response, i: nat)
    requires i < |s.ledger.accounts| && Select(List(s.ledger.accounts), q).Some?
    requires s.ledger.accounts[i].id == Select(List(s.ledger.accounts), q).value.id
    ensures var a := Next(s, Proxy(q, r)).ledger.accounts[i];
            && (r.status == 402 ==> a.status.CreditExhausted?)
            && (r.status == 429 ==>
                  a.status.RateLimited? && a.cooldownUntil == Some(CooldownUntil(r.retryAfter, r.at))
                  && CooldownUntil(r.retryAfter, r.at) >= r.at)
  {
  }

  /** The same for a submission. */
  lemma {:induction false} SubmitSetsStatus(s: System, q: Query, r: Response, jobId: Option<string>, i: nat)
    requires i < |s.ledger.accounts| && Select(List(s.ledger.accounts), q).Some?
    requires s.ledger.accounts[i].id == Select(List(s.ledger.accounts), q).value.id
    ensures var a := Next(s, Submit(q, r, jobId)).ledger.accounts[i];
            && (r.status == 402 ==> a.status.CreditExhausted?)
            && (r.status == 429 ==>
                  a.status.RateLimited? && a.cooldownUntil == Some(CooldownUntil(r.retryAfter, r.at))
                  && CooldownUntil(r.retryAfter, r.at) >= r.at)
  {
  }

  /** A selected account could pay the estimate when it was selected. */
  lemma {:induction false} SelectedCanPay(accounts: seq<AccountRecord>, q: Query)
    ensures var r := Select(List(accounts), q);
            r.Some? ==> exists i :: 0 <= i < |accounts| && accounts[i].id == r.value.id
                                    && Or(accounts[i].remainingCreditsLive, 0) >= q.estimatedCredits
  {
    SelectIsBest(List(accounts), q);
    SelectedIsActive(accounts, q);
  }
}
