/**
 Account selection: an account is admissible when nothing rejects it, and the
 admissible account with the greatest (score, id) is chosen.  Times are clock
 ticks; scores are exact reals.
 */
module Routing {
  import opened Common
  import opened Ordering

  datatype CredentialStatus = CredentialActive | CredentialPaused | CredentialInvalid

  datatype Credential = Credential(id: string, status: CredentialStatus)

  datatype AccountStatus = Active | RateLimited | CreditExhausted | Paused | Invalid

  datatype Account = Account(
    id: string,
    teamLabel: string,
    planType: string,
    remainingCredits: int,
    planCredits: int,
    status: AccountStatus,
    credentials: seq<Credential>,
    cooldownUntil: Option<int>,
    inflight: int,
    rpmUsed: map<string, int>,
    queueActiveJobs: int,
    queueMaxConcurrency: Option<int>,
    recentErrorCount: int)

  /** What is asked: an endpoint, the credits it may cost, and the time. */
  datatype Query = Query(endpoint: string, estimatedCredits: int, now: int)

  datatype Reason =
    | BadStatus(status: AccountStatus)
    | Cooldown | Credits | Credentials
    | AccountRpm | AccountConcurrency | TeamRpm | TeamConcurrency

  datatype Selection =
    | Selected(account: Account, credential: Credential)
    | NoAccountAvailable(rejections: map<string, Reason>)

  const DEFAULT_RPM_LIMIT := 10
  const DEFAULT_CONCURRENCY_LIMIT := 2

  const ENDPOINT_RPM_BY_PLAN: map<string, map<string, int>> := map[
    "free" := map["scrape" := 10, "map" := 10, "crawl" := 1, "search" := 5, "batch_scrape" := 1],
    "hobby" := map["scrape" := 100, "map" := 100, "crawl" := 15, "search" := 50, "batch_scrape" := 15],
    "standard" := map["scrape" := 500, "map" := 500, "crawl" := 50, "search" := 250, "batch_scrape" := 50],
    "growth" := map["scrape" := 5000, "map" := 5000, "crawl" := 250, "search" := 2500, "batch_scrape" := 250]]

  const CONCURRENCY_BY_PLAN: map<string, int> := map["free" := 2, "hobby" := 5, "standard" := 50, "growth" := 100]

  function Get<K>(m: map<K, int>, k: K, default: int): int {
    if k in m then m[k] else default
  }

  function RpmLimit(a: Account, endpoint: string): int {
    if a.planType in ENDPOINT_RPM_BY_PLAN then Get(ENDPOINT_RPM_BY_PLAN[a.planType], endpoint, DEFAULT_RPM_LIMIT)
    else DEFAULT_RPM_LIMIT
  }

  function ConcurrencyLimit(a: Account): int {
    if a.queueMaxConcurrency.Some? then a.queueMaxConcurrency.value
    else Get(CONCURRENCY_BY_PLAN, a.planType, DEFAULT_CONCURRENCY_LIMIT)
  }

  /** The limits of the plans; a reported concurrency limit comes before the plan's. */
  lemma {:induction false} PlanLimits(a: Account, other: string)
    requires other !in {"scrape", "map", "crawl", "search", "batch_scrape"}
    ensures var rpm := (RpmLimit(a, "scrape"), RpmLimit(a, "map"), RpmLimit(a, "crawl"), RpmLimit(a, "search"),
                        RpmLimit(a, "batch_scrape"));
            && (a.planType == "free" ==> rpm == (10, 10, 1, 5, 1))
            && (a.planType == "hobby" ==> rpm == (100, 100, 15, 50, 15))
            && (a.planType == "standard" ==> rpm == (500, 500, 50, 250, 50))
            && (a.planType == "growth" ==> rpm == (5000, 5000, 250, 2500, 250))
            && (a.planType !in {"free", "hobby", "standard", "growth"} ==> rpm == (10, 10, 10, 10, 10))
            && RpmLimit(a, other) == 10
    ensures ConcurrencyLimit(a) == if a.queueMaxConcurrency.Some? then a.queueMaxConcurrency.value
                                   else if a.planType == "free" then 2
                                   else if a.planType == "hobby" then 5
                                   else if a.planType == "standard" then 50
                                   else if a.planType == "growth" then 100
                                   else 2
  {
  }

  lemma {:induction false} LimitsArePositive(a: Account, endpoint: string)
    ensures RpmLimit(a, endpoint) >= 1
    ensures a.queueMaxConcurrency.None? ==> ConcurrencyLimit(a) >= 2
  {
  }

  function ActiveCredential(credentials: seq<Credential>): (r: Option<Credential>)
    ensures r.Some? ==>
              exists i :: 0 <= i < |credentials| && credentials[i] == r.value && credentials[i].status.CredentialActive?
                          && forall k :: 0 <= k < i ==> !credentials[k].status.CredentialActive?
    ensures r.None? ==> forall c :: c in credentials ==> !c.status.CredentialActive?
  {
    if credentials == [] then None
    else if credentials[0].status.CredentialActive? then Some(credentials[0])
    else
      var rest := ActiveCredential(credentials[1..]);
      assert rest.Some? ==>
          exists i :: 0 <= i < |credentials| && credentials[i] == rest.value && credentials[i].status.CredentialActive?
                      && forall k :: 0 <= k < i ==> !credentials[k].status.CredentialActive? by {
        if rest.Some? {
          var i :| 0 <= i < |credentials[1..]| && credentials[1..][i] == rest.value
                   && credentials[1..][i].status.CredentialActive?
                   && forall k :: 0 <= k < i ==> !credentials[1..][k].status.CredentialActive?;
          assert forall k :: 0 < k < i + 1 ==> credentials[k] == credentials[1..][k - 1];
          assert credentials[i + 1] == rest.value;
        }
      }
      rest
  }

  // ---------------------------------------------------------------------------
  // Team totals, as sums over the accounts that share a label
  // ---------------------------------------------------------------------------

  type Measure = Account -> int

  function TeamSum(accounts: seq<Account>, team: string, m: Measure): int {
    FirstSum(accounts, |accounts|, team, m)
  }

  function Part(a: Account, team: string, m: Measure): int {
    if a.teamLabel == team then m(a) else 0
  }

  /** The sum over the first `n`. */
  function FirstSum(accounts: seq<Account>, n: nat, team: string, m: Measure): int
    requires n <= |accounts|
  {
    if n == 0 then 0 else FirstSum(accounts, n - 1, team, m) + Part(accounts[n - 1], team, m)
  }

  lemma {:induction false} SoleTeamSum(a: Account, team: string, m: Measure)
    ensures TeamSum([a], team, m) == Part(a, team, m)
  {
    assert FirstSum([a], 0, team, m) == 0;
  }

  function Rpm(endpoint: string): Measure {
    (a: Account) => Get(a.rpmUsed, endpoint, 0)
  }

  function Inflight(): Measure {
    (a: Account) => a.inflight
  }

  function ActiveJobs(): Measure {
    (a: Account) => a.queueActiveJobs
  }

  function TeamRpmUsed(accounts: seq<Account>, a: Account, endpoint: string): int {
    TeamSum(accounts, a.teamLabel, Rpm(endpoint))
  }

  function TeamLoad(accounts: seq<Account>, a: Account): int {
    TeamSum(accounts, a.teamLabel, Inflight()) + TeamSum(accounts, a.teamLabel, ActiveJobs())
  }

  function RejectionReason(a: Account, credential: Option<Credential>, q: Query, teamRpm: int,
                           teamLoad: int): Option<Reason> {
    if !a.status.Active? then Some(BadStatus(a.status))
    else if a.cooldownUntil.Some? && a.cooldownUntil.value > q.now then Some(Cooldown)
    else if a.remainingCredits < q.estimatedCredits then Some(Credits)
    else if credential.None? then Some(Credentials)
    else if Get(a.rpmUsed, q.endpoint, 0) >= RpmLimit(a, q.endpoint) then Some(AccountRpm)
    else if a.inflight + a.queueActiveJobs >= ConcurrencyLimit(a) then Some(AccountConcurrency)
    else if teamRpm >= RpmLimit(a, q.endpoint) then Some(TeamRpm)
    else if teamLoad >= ConcurrencyLimit(a) then Some(TeamConcurrency)
    else None
  }

  /** The eight tests in the order in which they are made, each with its reason. */
  function Tests(a: Account, credential: Option<Credential>, q: Query, teamRpm: int,
                 teamLoad: int): seq<(bool, Reason)> {
    [(a.status != Active, BadStatus(a.status)),
     (a.cooldownUntil.Some? && q.now < a.cooldownUntil.value, Cooldown),
     (q.estimatedCredits > a.remainingCredits, Credits),
     (credential.None?, Credentials),
     (RpmLimit(a, q.endpoint) <= Get(a.rpmUsed, q.endpoint, 0), AccountRpm),
     (ConcurrencyLimit(a) <= a.inflight + a.queueActiveJobs, AccountConcurrency),
     (RpmLimit(a, q.endpoint) <= teamRpm, TeamRpm),
     (ConcurrencyLimit(a) <= teamLoad, TeamConcurrency)]
  }

  /** The reason is that of the first test that fails. */
  lemma {:induction false} ReasonIsFirstFailure(a: Account, credential: Option<Credential>, q: Query, teamRpm: int,
                                                teamLoad: int, k: nat)
    requires var tests := Tests(a, credential, q, teamRpm, teamLoad);
             k <= |tests| && (forall i :: 0 <= i < k ==> !tests[i].0) && (k < |tests| ==> tests[k].0)
    ensures var tests := Tests(a, credential, q, teamRpm, teamLoad);
            RejectionReason(a, credential, q, teamRpm, teamLoad) == if k < |tests| then Some(tests[k].1) else None
  {
    var tests := Tests(a, credential, q, teamRpm, teamLoad);
    assert |tests| == 8;
    assert k > 0 ==> !tests[0].0;
    assert k > 1 ==> !tests[1].0;
    assert k > 2 ==> !tests[2].0;
    assert k > 3 ==> !tests[3].0;
    assert k > 4 ==> !tests[4].0;
    assert k > 5 ==> !tests[5].0;
    assert k > 6 ==> !tests[6].0;
    assert k > 7 ==> !tests[7].0;
  }

  /** `part / max(1, whole)`. */
  function Share(part: int, whole: int): real {
    part as real / Max(1, whole) as real
  }

  function Health(recentErrorCount: int): real {
    1.0 / (1 + Max(0, recentErrorCount)) as real
  }

  function Score(a: Account, q: Query, teamRpm: int, teamLoad: int): real {
    var budget := Share(a.remainingCredits, a.planCredits);
    var rpm := 1.0 - Share(teamRpm, RpmLimit(a, q.endpoint));
    var concurrency := 1.0 - Share(teamLoad, ConcurrencyLimit(a));
    Weighted(budget, rpm, concurrency, Health(a.recentErrorCount))
  }

  function Weighted(budget: real, rpm: real, concurrency: real, health: real): real {
    budget * 0.45 + rpm * 0.25 + concurrency * 0.20 + health * 0.10
  }

  function ReasonFor(accounts: seq<Account>, a: Account, q: Query): Option<Reason> {
    RejectionReason(a, ActiveCredential(a.credentials), q, TeamRpmUsed(accounts, a, q.endpoint), TeamLoad(accounts, a))
  }

  predicate Admissible(accounts: seq<Account>, a: Account, q: Query) {
    ReasonFor(accounts, a, q).None?
  }

  function ScoreFor(accounts: seq<Account>, a: Account, q: Query): real {
    Score(a, q, TeamRpmUsed(accounts, a, q.endpoint), TeamLoad(accounts, a))
  }

  /** `b` beats `a` in the order of (score, id). */
  predicate Beats(accounts: seq<Account>, q: Query, b: Account, a: Account) {
    var sb, sa := ScoreFor(accounts, b, q), ScoreFor(accounts, a, q);
    sb > sa || (sb == sa && CompareText(b.id, a.id) > 0)
  }

  predicate IsBest(accounts: seq<Account>, q: Query, a: Account) {
    && a in accounts
    && Admissible(accounts, a, q)
    && forall b :: b in accounts && Admissible(accounts, b, q) ==> !Beats(accounts, q, b, a)
  }

  predicate DistinctIds(accounts: seq<Account>) {
    forall i, j :: 0 <= i < j < |accounts| ==> accounts[i].id != accounts[j].id
  }

  lemma {:induction false} BeatsIsAnOrder(accounts: seq<Account>, q: Query, a: Account, b: Account, c: Account)
    ensures !(Beats(accounts, q, a, b) && Beats(accounts, q, b, a))
    ensures !Beats(accounts, q, a, b) && !Beats(accounts, q, b, c) ==> !Beats(accounts, q, a, c)
    ensures a.id != b.id ==> Beats(accounts, q, a, b) || Beats(accounts, q, b, a)
  {
    TextRanks();
    TextTie(a.id, b.id);
    assert CompareText(a.id, b.id) == -CompareText(b.id, a.id);
  }

  // ---------------------------------------------------------------------------
  // Selection as a function, and its meaning
  // ---------------------------------------------------------------------------

  /** The best of the first `n` accounts; team totals are over all of them. */
  function SelectAmong(accounts: seq<Account>, q: Query, n: nat): Option<Account>
    requires n <= |accounts|
  {
    if n == 0 then None
    else
      var best, a := SelectAmong(accounts, q, n - 1), accounts[n - 1];
      if Admissible(accounts, a, q) && (best.None? || Beats(accounts, q, a, best.value)) then Some(a) else best
  }

  function Select(accounts: seq<Account>, q: Query): Option<Account> {
    SelectAmong(accounts, q, |accounts|)
  }

  lemma {:induction false} SelectAmongIsBest(accounts: seq<Account>, q: Query, n: nat)
    requires n <= |accounts|
    ensures var r := SelectAmong(accounts, q, n);
            && (r.Some? ==> r.value in accounts[..n] && Admissible(accounts, r.value, q))
            && (forall b :: b in accounts[..n] && Admissible(accounts, b, q) ==>
                  r.Some? && !Beats(accounts, q, b, r.value))
  {
    if n > 0 {
      SelectAmongIsBest(accounts, q, n - 1);
      var best, a, r := SelectAmong(accounts, q, n - 1), accounts[n - 1], SelectAmong(accounts, q, n);
      assert accounts[..n] == accounts[..n - 1] + [a];
      forall b | b in accounts[..n] && Admissible(accounts, b, q)
        ensures r.Some? && !Beats(accounts, q, b, r.value)
      {
        if best.Some? {
          BeatsIsAnOrder(accounts, q, b, best.value, a);
          BeatsIsAnOrder(accounts, q, a, best.value, a);
        }
        BeatsIsAnOrder(accounts, q, a, a, a);
      }
    }
  }

  /** Some account is chosen exactly when one is admissible, and it is a best one. */
  lemma {:induction false} SelectIsBest(accounts: seq<Account>, q: Query)
    ensures Select(accounts, q).Some? <==> exists a :: a in accounts && Admissible(accounts, a, q)
    ensures Select(accounts, q).Some? ==> IsBest(accounts, q, Select(accounts, q).value)
  {
    SelectAmongIsBest(accounts, q, |accounts|);
    assert accounts[..|accounts|] == accounts;
  }

  lemma {:induction false} BestIsUnique(accounts: seq<Account>, q: Query, a: Account, b: Account)
    requires DistinctIds(accounts) && IsBest(accounts, q, a) && IsBest(accounts, q, b)
    ensures a == b
  {
    if a.id != b.id {
      BeatsIsAnOrder(accounts, q, a, b, a);
    }
  }

  // ---------------------------------------------------------------------------
  // The order in which accounts are listed does not matter
  // ---------------------------------------------------------------------------

  function Without<T>(xs: seq<T>, i: nat): seq<T>
    requires i < |xs|
  {
    xs[..i] + xs[i + 1..]
  }

  lemma {:induction false} FirstSumPrefix(xs: seq<Account>, ys: seq<Account>, n: nat, team: string, m: Measure)
    requires n <= |xs| && n <= |ys| && forall k :: 0 <= k < n ==> xs[k] == ys[k]
    ensures FirstSum(xs, n, team, m) == FirstSum(ys, n, team, m)
  {
    if n > 0 {
      FirstSumPrefix(xs, ys, n - 1, team, m);
    }
  }

  lemma {:induction false} FirstSumWithout(xs: seq<Account>, ys: seq<Account>, i: nat, n: nat, team: string, m: Measure)
    requires i < n <= |xs| && |ys| == |xs| - 1
    requires (forall k :: 0 <= k < i ==> xs[k] == ys[k]) && (forall k :: i <= k < |ys| ==> ys[k] == xs[k + 1])
    ensures FirstSum(xs, n, team, m) == FirstSum(ys, n - 1, team, m) + Part(xs[i], team, m)
  {
    if n == i + 1 {
      FirstSumPrefix(xs, ys, i, team, m);
    } else {
      FirstSumWithout(xs, ys, i, n - 1, team, m);
      assert ys[n - 2] == xs[n - 1];
    }
  }

  lemma {:induction false} TeamSumWithout(accounts: seq<Account>, team: string, m: Measure, i: nat)
    requires i < |accounts|
    ensures TeamSum(accounts, team, m) == TeamSum(Without(accounts, i), team, m) + Part(accounts[i], team, m)
  {
    FirstSumWithout(accounts, Without(accounts, i), i, |accounts|, team, m);
  }

  lemma {:induction false} MultisetWithout<T>(xs: seq<T>, i: nat)
    requires i < |xs|
    ensures multiset(Without(xs, i)) == multiset(xs) - multiset{xs[i]}
  {
    assert xs == xs[..i] + [xs[i]] + xs[i + 1..];
  }

  lemma {:induction false} TeamSumPermuted(xs: seq<Account>, ys: seq<Account>, team: string, m: Measure)
    requires multiset(xs) == multiset(ys)
    ensures TeamSum(xs, team, m) == TeamSum(ys, team, m)
    decreases |xs|
  {
    assert |multiset(xs)| == |multiset(ys)|;
    if xs != [] {
      var n := |xs| - 1;
      assert xs[n] in multiset(ys);
      var i :| 0 <= i < |ys| && ys[i] == xs[n];
      MultisetWithout(xs, n);
      MultisetWithout(ys, i);
      TeamSumPermuted(Without(xs, n), Without(ys, i), team, m);
      TeamSumWithout(xs, team, m, n);
      TeamSumWithout(ys, team, m, i);
    }
  }

  lemma {:induction false} PermutedSame(xs: seq<Account>, ys: seq<Account>, q: Query, a: Account)
    requires multiset(xs) == multiset(ys)
    ensures ReasonFor(xs, a, q) == ReasonFor(ys, a, q) && ScoreFor(xs, a, q) == ScoreFor(ys, a, q)
  {
    TeamSumPermuted(xs, ys, a.teamLabel, Rpm(q.endpoint));
    TeamSumPermuted(xs, ys, a.teamLabel, Inflight());
    TeamSumPermuted(xs, ys, a.teamLabel, ActiveJobs());
  }

  lemma {:induction false} BestIgnoresOrder(xs: seq<Account>, ys: seq<Account>, q: Query, a: Account)
    requires multiset(xs) == multiset(ys) && IsBest(ys, q, a)
    ensures IsBest(xs, q, a)
  {
    assert forall b :: b in xs <==> b in multiset(xs);
    assert forall b :: b in ys <==> b in multiset(ys);
    PermutedSame(xs, ys, q, a);
    forall b | b in xs && Admissible(xs, b, q)
      ensures !Beats(xs, q, b, a)
    {
      PermutedSame(xs, ys, q, b);
      assert !Beats(ys, q, b, a);
    }
  }

  lemma {:induction false} SelectIgnoresOrder(xs: seq<Account>, ys: seq<Account>, q: Query)
    requires multiset(xs) == multiset(ys) && DistinctIds(xs)
    ensures Select(xs, q) == Select(ys, q)
  {
    SelectIsBest(xs, q);
    SelectIsBest(ys, q);
    if Select(ys, q).Some? {
      BestIgnoresOrder(xs, ys, q, Select(ys, q).value);
      BestIsUnique(xs, q, Select(xs, q).value, Select(ys, q).value);
    } else if Select(xs, q).Some? {
      BestIgnoresOrder(ys, xs, q, Select(xs, q).value);
    }
  }

  // ---------------------------------------------------------------------------
  // Team limits subsume account limits
  // ---------------------------------------------------------------------------

  predicate NonNegativeUsage(accounts: seq<Account>) {
    forall a :: a in accounts ==>
      a.inflight >= 0 && a.queueActiveJobs >= 0 && forall e :: e in a.rpmUsed ==> a.rpmUsed[e] >= 0
  }

  lemma {:induction false} FirstSumAtLeast(accounts: seq<Account>, n: nat, team: string, m: Measure)
    requires n <= |accounts| && forall a :: a in accounts ==> m(a) >= 0
    ensures FirstSum(accounts, n, team, m) >= 0
    ensures forall k :: 0 <= k < n ==> FirstSum(accounts, n, team, m) >= Part(accounts[k], team, m)
  {
    if n > 0 {
      FirstSumAtLeast(accounts, n - 1, team, m);
      assert accounts[n - 1] in accounts;
    }
  }

  lemma {:induction false} TeamSumAtLeast(accounts: seq<Account>, team: string, m: Measure, a: Account)
    requires forall b :: b in accounts ==> m(b) >= 0
    requires a in accounts && a.teamLabel == team
    ensures TeamSum(accounts, team, m) >= m(a) >= 0
  {
    FirstSumAtLeast(accounts, |accounts|, team, m);
    var k :| 0 <= k < |accounts| && accounts[k] == a;
    assert Part(accounts[k], team, m) == m(a);
  }

  /** With non-negative usage the two account-level limit tests reject nothing the
      team-level tests would not reject. */
  lemma {:induction false} TeamLimitsImplyAccountLimits(accounts: seq<Account>, a: Account, q: Query)
    requires NonNegativeUsage(accounts) && a in accounts
    ensures Admissible(accounts, a, q) <==>
              && a.status.Active?
              && (a.cooldownUntil.None? || a.cooldownUntil.value <= q.now)
              && a.remainingCredits >= q.estimatedCredits
              && (exists c :: c in a.credentials && c.status.CredentialActive?)
              && TeamRpmUsed(accounts, a, q.endpoint) < RpmLimit(a, q.endpoint)
              && TeamLoad(accounts, a) < ConcurrencyLimit(a)
  {
    TeamSumAtLeast(accounts, a.teamLabel, Rpm(q.endpoint), a);
    TeamSumAtLeast(accounts, a.teamLabel, Inflight(), a);
    TeamSumAtLeast(accounts, a.teamLabel, ActiveJobs(), a);
    assert Rpm(q.endpoint)(a) == Get(a.rpmUsed, q.endpoint, 0);
    assert Inflight()(a) == a.inflight && ActiveJobs()(a) == a.queueActiveJobs;
  }

  // ---------------------------------------------------------------------------
  // What the score rewards
  // ---------------------------------------------------------------------------

  /** A share grows in proportion: by `k` parts of the whole for every amount `k`. */
  lemma {:induction false} ShareSlope(part: int, k: int, whole: int)
    ensures (Share(part + k, whole) - Share(part, whole)) * Max(1, whole) as real == k as real
  {
    var w := Max(1, whole) as real;
    Quotient(part as real, w, Share(part, whole));
    assert Share(part + k, whole) * w == (part + k) as real;
    assert Share(part, whole) * w == part as real;
  }

  lemma {:induction false} Scaled(x: real, weight: real, w: real, k: real)
    requires x * w == k
    ensures (x * weight) * w == weight * k
  {
    assert (x * weight) * w == weight * (x * w);
  }

  // What a rise of one ratio from `low` to `high` is worth, `k` of `w` parts.

  lemma {:induction false} BudgetRise(low: real, high: real, w: real, k: real, x: real, y: real, health: real)
    requires (high - low) * w == k
    ensures (Weighted(high, x, y, health) - Weighted(low, x, y, health)) * w == 0.45 * k
  {
    assert Weighted(high, x, y, health) - Weighted(low, x, y, health) == (high - low) * 0.45;
    Scaled(high - low, 0.45, w, k);
  }

  lemma {:induction false} RpmRise(low: real, high: real, w: real, k: real, x: real, y: real, health: real)
    requires (high - low) * w == k
    ensures (Weighted(x, 1.0 - low, y, health) - Weighted(x, 1.0 - high, y, health)) * w == 0.25 * k
  {
    assert Weighted(x, 1.0 - low, y, health) - Weighted(x, 1.0 - high, y, health) == (high - low) * 0.25;
    Scaled(high - low, 0.25, w, k);
  }

  lemma {:induction false} ConcurrencyRise(low: real, high: real, w: real, k: real, x: real, y: real, health: real)
    requires (high - low) * w == k
    ensures (Weighted(x, y, 1.0 - low, health) - Weighted(x, y, 1.0 - high, health)) * w == 0.20 * k
  {
    assert Weighted(x, y, 1.0 - low, health) - Weighted(x, y, 1.0 - high, health) == (high - low) * 0.20;
    Scaled(high - low, 0.20, w, k);
  }

  /** Every credit more is worth its part of the budget, times 0.45. */
  lemma {:induction false} BudgetWeight(a: Account, q: Query, teamRpm: int, teamLoad: int, k: int)
    ensures var more := a.(remainingCredits := a.remainingCredits + k);
            (Score(more, q, teamRpm, teamLoad) - Score(a, q, teamRpm, teamLoad)) * Max(1, a.planCredits) as real
            == 0.45 * k as real
  {
    var limit, health := a.planCredits, Health(a.recentErrorCount);
    var low, high := Share(a.remainingCredits, limit), Share(a.remainingCredits + k, limit);
    var x, y := 1.0 - Share(teamRpm, RpmLimit(a, q.endpoint)), 1.0 - Share(teamLoad, ConcurrencyLimit(a));
    assert Score(a, q, teamRpm, teamLoad) == Weighted(low, x, y, health);
    assert Score(a.(remainingCredits := a.remainingCredits + k), q, teamRpm, teamLoad) == Weighted(high, x, y, health);
    ShareSlope(a.remainingCredits, k, limit);
    BudgetRise(low, high, Max(1, limit) as real, k as real, x, y, health);
  }

  /** Every request more in the team's minute costs its part of the rate, times 0.25. */
  lemma {:induction false} RpmWeight(a: Account, q: Query, teamRpm: int, teamLoad: int, k: int)
    ensures var limit := Max(1, RpmLimit(a, q.endpoint));
            (Score(a, q, teamRpm, teamLoad) - Score(a, q, teamRpm + k, teamLoad)) * limit as real == 0.25 * k as real
  {
    var limit, health := RpmLimit(a, q.endpoint), Health(a.recentErrorCount);
    var low, high := Share(teamRpm, limit), Share(teamRpm + k, limit);
    var x, y := Share(a.remainingCredits, a.planCredits), 1.0 - Share(teamLoad, ConcurrencyLimit(a));
    assert Score(a, q, teamRpm, teamLoad) == Weighted(x, 1.0 - low, y, health);
    assert Score(a, q, teamRpm + k, teamLoad) == Weighted(x, 1.0 - high, y, health);
    ShareSlope(teamRpm, k, limit);
    RpmRise(low, high, Max(1, limit) as real, k as real, x, y, health);
  }

  /** Everything more the team has running costs its part of the limit, times 0.20. */
  lemma {:induction false} ConcurrencyWeight(a: Account, q: Query, teamRpm: int, teamLoad: int, k: int)
    ensures (Score(a, q, teamRpm, teamLoad) - Score(a, q, teamRpm, teamLoad + k)) * Max(1, ConcurrencyLimit(a)) as real
            == 0.20 * k as real
  {
    var limit, health := ConcurrencyLimit(a), Health(a.recentErrorCount);
    var low, high := Share(teamLoad, limit), Share(teamLoad + k, limit);
    var x, y := Share(a.remainingCredits, a.planCredits), 1.0 - Share(teamRpm, RpmLimit(a, q.endpoint));
    assert Score(a, q, teamRpm, teamLoad) == Weighted(x, y, 1.0 - low, health);
    assert Score(a, q, teamRpm, teamLoad + k) == Weighted(x, y, 1.0 - high, health);
    ShareSlope(teamLoad, k, limit);
    ConcurrencyRise(low, high, Max(1, limit) as real, k as real, x, y, health);
  }

  /** `n` recent errors leave `1 / (1 + n)` of the 0.10 that health is worth. */
  lemma {:induction false} HealthWeight(a: Account, q: Query, teamRpm: int, teamLoad: int, n: nat)
    ensures Score(a.(recentErrorCount := n), q, teamRpm, teamLoad)
            == Score(a.(recentErrorCount := 0), q, teamRpm, teamLoad) - 0.10 + 0.10 / (1 + n) as real
  {
    Quotient(1.0, 1.0, 1.0);
    var x := 1.0 / (1 + n) as real;
    Quotient(1.0, (1 + n) as real, x);
    assert (x * 0.10) * (1 + n) as real == 0.10;
    Quotient(0.10, (1 + n) as real, x * 0.10);
  }

  /** A full budget, no team load and no errors score exactly 1. */
  lemma {:induction false} PerfectScore(a: Account, q: Query)
    requires a.planCredits >= 1 && a.remainingCredits == a.planCredits && a.recentErrorCount <= 0
    ensures Score(a, q, 0, 0) == 1.0
  {
    Quotient(a.planCredits as real, a.planCredits as real, 1.0);
    Quotient(0.0, Max(1, RpmLimit(a, q.endpoint)) as real, 0.0);
    Quotient(0.0, Max(1, ConcurrencyLimit(a)) as real, 0.0);
    Quotient(1.0, 1.0, 1.0);
  }

  /** Of two admissible accounts that differ in id and credits only, the one with fewer
      credits is not selected; if there are no others, the one with more is. */
  lemma {:induction false} MoreCreditsWin(accounts: seq<Account>, q: Query, a: Account, b: Account)
    requires a in accounts && b in accounts && Admissible(accounts, a, q) && Admissible(accounts, b, q)
    requires a == b.(id := a.id, remainingCredits := a.remainingCredits) && a.remainingCredits > b.remainingCredits
    ensures !IsBest(accounts, q, b)
    ensures (forall c :: c in accounts ==> c == a || c == b) ==> Select(accounts, q) == Some(a)
  {
    MoreCreditsBeat(accounts, q, a, b);
    SelectIsBest(accounts, q);
  }

  lemma {:induction false} MoreCreditsBeat(accounts: seq<Account>, q: Query, a: Account, b: Account)
    requires a == b.(id := a.id, remainingCredits := a.remainingCredits) && a.remainingCredits > b.remainingCredits
    ensures Beats(accounts, q, a, b)
  {
    MoreCreditsScoreMore(b, q, TeamRpmUsed(accounts, b, q.endpoint), TeamLoad(accounts, b),
                         a.remainingCredits - b.remainingCredits);
  }

  lemma {:induction false} MoreCreditsScoreMore(a: Account, q: Query, teamRpm: int, teamLoad: int, k: int)
    requires k > 0
    ensures Score(a.(remainingCredits := a.remainingCredits + k), q, teamRpm, teamLoad) > Score(a, q, teamRpm, teamLoad)
  {
    BudgetWeight(a, q, teamRpm, teamLoad, k);
    var more := a.(remainingCredits := a.remainingCredits + k);
    Positive(Score(more, q, teamRpm, teamLoad) - Score(a, q, teamRpm, teamLoad), Max(1, a.planCredits) as real);
  }

  lemma {:induction false} Positive(x: real, w: real)
    requires w > 0.0 && x * w > 0.0
    ensures x > 0.0
  {
    if x <= 0.0 {
      NotPositive(x, w);
      assert false;
    }
  }

  lemma {:induction false} NotPositive(x: real, w: real)
    requires w > 0.0 && x <= 0.0
    ensures x * w <= 0.0
  {
  }

  /** Of two admissible accounts with the same score, the one whose id comes first in the
      alphabet is not selected. */
  lemma {:induction false} TieGoesToLaterId(accounts: seq<Account>, q: Query, a: Account, b: Account)
    requires a in accounts && b in accounts && Admissible(accounts, a, q) && Admissible(accounts, b, q)
    requires ScoreFor(accounts, a, q) == ScoreFor(accounts, b, q) && After(a.id, b.id)
    ensures !IsBest(accounts, q, b)
  {
    TextOrderExactly(a.id, b.id);
    assert Beats(accounts, q, a, b);
  }

  lemma {:induction false} Quotient(n: real, d: real, x: real)
    requires d != 0.0 && x * d == n
    ensures n / d == x
  {
  }

  // ---------------------------------------------------------------------------
  // The loops of the source
  // ---------------------------------------------------------------------------

  datatype TeamUsage = TeamUsage(rpmUsedByEndpoint: map<string, int>, inflight: int, activeJobs: int)

  method AddRpm(total: map<string, int>, used: map<string, int>) returns (sum: map<string, int>)
    ensures forall e :: Get(sum, e, 0) == Get(total, e, 0) + Get(used, e, 0)
  {
    sum := total;
    var todo := used.Keys;
    while todo != {}
      invariant todo <= used.Keys
      invariant forall e :: Get(sum, e, 0) == Get(total, e, 0) + (if e in todo then 0 else Get(used, e, 0))
      decreases |todo|
    {
      var e :| e in todo;
      sum := sum[e := Get(sum, e, 0) + used[e]];
      todo := todo - {e};
    }
  }

  ghost predicate TotalsFor(accounts: seq<Account>, team: string, usage: TeamUsage) {
    && usage.inflight == TeamSum(accounts, team, Inflight())
    && usage.activeJobs == TeamSum(accounts, team, ActiveJobs())
    && forall e :: Get(usage.rpmUsedByEndpoint, e, 0) == TeamSum(accounts, team, Rpm(e))
  }

  lemma {:induction false} NoTeamNoSum(accounts: seq<Account>, n: nat, team: string, m: Measure)
    requires n <= |accounts| && forall a :: a in accounts ==> a.teamLabel != team
    ensures FirstSum(accounts, n, team, m) == 0
  {
    if n > 0 {
      NoTeamNoSum(accounts, n - 1, team, m);
      assert accounts[n - 1] in accounts;
    }
  }

  lemma {:induction false} NewTeamStartsAtZero(accounts: seq<Account>, team: string)
    requires forall a :: a in accounts ==> a.teamLabel != team
    ensures TotalsFor(accounts, team, TeamUsage(map[], 0, 0))
  {
    NoTeamNoSum(accounts, |accounts|, team, Inflight());
    NoTeamNoSum(accounts, |accounts|, team, ActiveJobs());
    forall e
      ensures TeamSum(accounts, team, Rpm(e)) == 0
    {
      NoTeamNoSum(accounts, |accounts|, team, Rpm(e));
    }
  }

  lemma {:induction false} TeamSumSnoc(accounts: seq<Account>, a: Account, team: string, m: Measure)
    ensures TeamSum(accounts + [a], team, m) == TeamSum(accounts, team, m) + Part(a, team, m)
  {
    FirstSumPrefix(accounts, accounts + [a], |accounts|, team, m);
  }

  /** The totals `after` are `before` and the account's own usage. */
  ghost predicate Adds(before: TeamUsage, a: Account, after: TeamUsage) {
    && after.inflight == before.inflight + a.inflight
    && after.activeJobs == before.activeJobs + a.queueActiveJobs
    && forall e :: Get(after.rpmUsedByEndpoint, e, 0) == Get(before.rpmUsedByEndpoint, e, 0) + Get(a.rpmUsed, e, 0)
  }

  lemma {:induction false} TotalsSnoc(accounts: seq<Account>, a: Account, team: string, before: TeamUsage,
                                      after: TeamUsage)
    requires TotalsFor(accounts, team, before)
    requires if a.teamLabel != team then after == before else Adds(before, a, after)
    ensures TotalsFor(accounts + [a], team, after)
  {
    TeamSumSnoc(accounts, a, team, Inflight());
    TeamSumSnoc(accounts, a, team, ActiveJobs());
    forall e
      ensures Get(after.rpmUsedByEndpoint, e, 0) == TeamSum(accounts + [a], team, Rpm(e))
    {
      TeamSumSnoc(accounts, a, team, Rpm(e));
      assert Rpm(e)(a) == Get(a.rpmUsed, e, 0);
    }
  }

  predicate HasMember(accounts: seq<Account>, team: string) {
    exists a :: a in accounts && a.teamLabel == team
  }

  /** Exactly the labels that occur, each with its totals. */
  ghost predicate UsageOf(accounts: seq<Account>, usage: map<string, TeamUsage>) {
    && (forall a :: a in accounts ==> a.teamLabel in usage)
    && (forall team :: team in usage ==> HasMember(accounts, team))
    && (forall team :: team in usage ==> TotalsFor(accounts, team, usage[team]))
  }

  function UsageBefore(usage: map<string, TeamUsage>, team: string): TeamUsage {
    if team in usage then usage[team] else TeamUsage(map[], 0, 0)
  }

  /** One round of the loop: `after` is what the account's team has then. */
  lemma {:induction false} UsageNext(accounts: seq<Account>, a: Account, usage: map<string, TeamUsage>,
                                     after: TeamUsage)
    requires UsageOf(accounts, usage)
    requires Adds(UsageBefore(usage, a.teamLabel), a, after)
    ensures UsageOf(accounts + [a], usage[a.teamLabel := after])
  {
    var longer, next := accounts + [a], usage[a.teamLabel := after];
    forall team | team in next
      ensures HasMember(longer, team)
    {
      if team == a.teamLabel {
        assert a in longer;
      } else {
        var b :| b in accounts && b.teamLabel == team;
        assert b in longer;
      }
    }
    forall team | team in next
      ensures TotalsFor(longer, team, next[team])
    {
      if team !in usage {
        NewTeamStartsAtZero(accounts, team);
      }
      TotalsSnoc(accounts, a, team, UsageBefore(usage, team), next[team]);
    }
  }

  lemma {:induction false} UsageOfPrefix(accounts: seq<Account>, i: nat, usage: map<string, TeamUsage>,
                                         after: TeamUsage)
    requires i < |accounts| && UsageOf(accounts[..i], usage)
    requires Adds(UsageBefore(usage, accounts[i].teamLabel), accounts[i], after)
    ensures UsageOf(accounts[..i + 1], usage[accounts[i].teamLabel := after])
  {
    UsageNext(accounts[..i], accounts[i], usage, after);
    assert accounts[..i + 1] == accounts[..i] + [accounts[i]];
  }

  method AddUsage(before: TeamUsage, a: Account) returns (after: TeamUsage)
    ensures Adds(before, a, after)
  {
    var rpm := AddRpm(before.rpmUsedByEndpoint, a.rpmUsed);
    after := TeamUsage(rpm, before.inflight + a.inflight, before.activeJobs + a.queueActiveJobs);
  }

  method BuildTeamUsage(accounts: seq<Account>) returns (usage: map<string, TeamUsage>)
    ensures UsageOf(accounts, usage)
  {
    usage := map[];
    for i := 0 to |accounts|
      invariant UsageOf(accounts[..i], usage)
    {
      var a := accounts[i];
      var totals := if a.teamLabel in usage then usage[a.teamLabel] else TeamUsage(map[], 0, 0);
      totals := AddUsage(totals, a);
      UsageOfPrefix(accounts, i, usage, totals);
      usage := usage[a.teamLabel := totals];
    }
    assert accounts[..|accounts|] == accounts;
  }

  /** Score, account and the credential that will be used. */
  type Candidate = (real, Account, Credential)

  ghost predicate Candidates(accounts: seq<Account>, q: Query, n: nat, candidates: seq<Candidate>)
    requires n <= |accounts|
  {
    && (forall c :: c in candidates ==>
          && c.1 in accounts[..n] && Admissible(accounts, c.1, q) && c.0 == ScoreFor(accounts, c.1, q)
          && ActiveCredential(c.1.credentials) == Some(c.2))
    && (forall a :: a in accounts[..n] && Admissible(accounts, a, q) ==> exists c :: c in candidates && c.1 == a)
  }

  ghost predicate Rejections(accounts: seq<Account>, q: Query, n: nat, rejections: map<string, Reason>)
    requires n <= |accounts|
  {
    && rejections.Keys == (set a | a in accounts[..n] && !Admissible(accounts, a, q) :: a.id)
    && (DistinctIds(accounts) ==> Explained(accounts, q, n, rejections))
  }

  predicate Explained(accounts: seq<Account>, q: Query, n: nat, rejections: map<string, Reason>)
    requires n <= |accounts|
  {
    forall k :: 0 <= k < n && !Admissible(accounts, accounts[k], q) ==>
      accounts[k].id in rejections && ReasonFor(accounts, accounts[k], q) == Some(rejections[accounts[k].id])
  }

  lemma {:induction false} CandidatesNext(accounts: seq<Account>, q: Query, n: nat, before: seq<Candidate>,
                                          after: seq<Candidate>)
    requires n < |accounts| && Candidates(accounts, q, n, before)
    requires var a := accounts[n];
             if Admissible(accounts, a, q) then
               after == before + [(ScoreFor(accounts, a, q), a, ActiveCredential(a.credentials).value)]
             else after == before
    ensures Candidates(accounts, q, n + 1, after)
  {
    var a := accounts[n];
    assert accounts[..n + 1] == accounts[..n] + [a];
    assert forall c :: c in before ==> c in after;
    if Admissible(accounts, a, q) {
      assert after[|before|] in after && after[|before|].1 == a;
    }
  }

  lemma {:induction false} RejectionsNext(accounts: seq<Account>, q: Query, n: nat, before: map<string, Reason>,
                                          after: map<string, Reason>)
    requires n < |accounts| && Rejections(accounts, q, n, before)
    requires var reason := ReasonFor(accounts, accounts[n], q);
             after == if reason.None? then before else before[accounts[n].id := reason.value]
    ensures Rejections(accounts, q, n + 1, after)
  {
    assert accounts[..n + 1] == accounts[..n] + [accounts[n]];
    assert DistinctIds(accounts) ==> Explained(accounts, q, n + 1, after);
  }

  lemma {:induction false} AllExplained(accounts: seq<Account>, q: Query, rejections: map<string, Reason>, a: Account)
    requires Explained(accounts, q, |accounts|, rejections) && a in accounts && !Admissible(accounts, a, q)
    ensures a.id in rejections && ReasonFor(accounts, a, q) == Some(rejections[a.id])
  {
    var k :| 0 <= k < |accounts| && accounts[k] == a;
  }

  /** The dictionary gives every account the totals that judge it. */
  lemma {:induction false} UsageGives(accounts: seq<Account>, usage: map<string, TeamUsage>, a: Account,
                                      endpoint: string)
    requires UsageOf(accounts, usage) && a in accounts
    ensures a.teamLabel in usage
    ensures Get(usage[a.teamLabel].rpmUsedByEndpoint, endpoint, 0) == TeamRpmUsed(accounts, a, endpoint)
    ensures usage[a.teamLabel].inflight + usage[a.teamLabel].activeJobs == TeamLoad(accounts, a)
  {
    assert TotalsFor(accounts, a.teamLabel, usage[a.teamLabel]);
  }

  /** The reason against an account or, without one, the candidate it is. */
  predicate Verdict(accounts: seq<Account>, q: Query, a: Account, reason: Option<Reason>,
                    candidate: Option<Candidate>) {
    && reason == ReasonFor(accounts, a, q)
    && if reason.Some? then candidate.None?
       else && ActiveCredential(a.credentials).Some?
            && candidate == Some((ScoreFor(accounts, a, q), a, ActiveCredential(a.credentials).value))
  }

  method JudgeOne(ghost accounts: seq<Account>, a: Account, q: Query, usage: map<string, TeamUsage>)
    returns (reason: Option<Reason>, candidate: Option<Candidate>)
    requires UsageOf(accounts, usage) && a in accounts
    ensures Verdict(accounts, q, a, reason, candidate)
  {
    UsageGives(accounts, usage, a, q.endpoint);
    var totals := usage[a.teamLabel];
    var teamRpm := Get(totals.rpmUsedByEndpoint, q.endpoint, 0);
    var credential := ActiveCredential(a.credentials);
    reason := RejectionReason(a, credential, q, teamRpm, totals.inflight + totals.activeJobs);
    if reason.Some? {
      return reason, None;
    }
    candidate := Some((Score(a, q, teamRpm, totals.inflight + totals.activeJobs), a, credential.value));
  }

  ghost predicate Judged(accounts: seq<Account>, q: Query, n: nat, candidates: seq<Candidate>,
                         rejections: map<string, Reason>)
    requires n <= |accounts|
  {
    Candidates(accounts, q, n, candidates) && Rejections(accounts, q, n, rejections)
  }

  /** One round of the loop. */
  lemma {:induction false} JudgedNext(accounts: seq<Account>, q: Query, n: nat, candidates: seq<Candidate>,
                                      rejections: map<string, Reason>,
                                      reason: Option<Reason>, candidate: Option<Candidate>)
    requires n < |accounts| && Judged(accounts, q, n, candidates, rejections)
    requires Verdict(accounts, q, accounts[n], reason, candidate)
    ensures reason.Some? ==> Judged(accounts, q, n + 1, candidates, rejections[accounts[n].id := reason.value])
    ensures reason.None? ==> candidate.Some? && Judged(accounts, q, n + 1, candidates + [candidate.value], rejections)
  {
    if reason.Some? {
      CandidatesNext(accounts, q, n, candidates, candidates);
      RejectionsNext(accounts, q, n, rejections, rejections[accounts[n].id := reason.value]);
    } else {
      CandidatesNext(accounts, q, n, candidates, candidates + [candidate.value]);
      RejectionsNext(accounts, q, n, rejections, rejections);
    }
  }

  method Judge(accounts: seq<Account>, q: Query) returns (candidates: seq<Candidate>, rejections: map<string, Reason>)
    ensures Judged(accounts, q, |accounts|, candidates, rejections)
  {
    var usage := BuildTeamUsage(accounts);
    candidates, rejections := [], map[];
    for i := 0 to |accounts|
      invariant Judged(accounts, q, i, candidates, rejections)
    {
      var reason, candidate := JudgeOne(accounts, accounts[i], q, usage);
      JudgedNext(accounts, q, i, candidates, rejections, reason, candidate);
      if reason.Some? {
        rejections := rejections[accounts[i].id := reason.value];
      } else {
        candidates := candidates + [candidate.value];
      }
    }
  }

  /** `max` with the key (score, id). */
  method Greatest(accounts: seq<Account>, q: Query, candidates: seq<Candidate>) returns (best: Candidate)
    requires candidates != []
    requires forall c :: c in candidates ==> c.0 == ScoreFor(accounts, c.1, q)
    ensures best in candidates
    ensures forall c :: c in candidates ==> !Beats(accounts, q, c.1, best.1)
  {
    best := candidates[0];
    BeatsIsAnOrder(accounts, q, best.1, best.1, best.1);
    for i := 1 to |candidates|
      invariant best in candidates
      invariant forall c :: c in candidates[..i] ==> !Beats(accounts, q, c.1, best.1)
    {
      var c := candidates[i];
      assert candidates[..i + 1] == candidates[..i] + [c];
      if c.0 > best.0 || (c.0 == best.0 && CompareText(c.1.id, best.1.id) > 0) {
        forall d | d in candidates[..i + 1]
          ensures !Beats(accounts, q, d.1, c.1)
        {
          BeatsIsAnOrder(accounts, q, d.1, best.1, c.1);
          BeatsIsAnOrder(accounts, q, c.1, best.1, c.1);
          BeatsIsAnOrder(accounts, q, c.1, c.1, c.1);
        }
        best := c;
      }
    }
    assert candidates[..|candidates|] == candidates;
  }

  method SelectAccount(accounts: seq<Account>, q: Query) returns (r: Selection)
    ensures r.Selected? <==> exists a :: a in accounts && Admissible(accounts, a, q)
    ensures r.Selected? ==>
              IsBest(accounts, q, r.account) && ActiveCredential(r.account.credentials) == Some(r.credential)
    ensures r.Selected? && DistinctIds(accounts) ==> Select(accounts, q) == Some(r.account)
    ensures r.NoAccountAvailable? ==> r.rejections.Keys == set a | a in accounts :: a.id
    ensures r.NoAccountAvailable? && DistinctIds(accounts) ==>
              forall a :: a in accounts ==> ReasonFor(accounts, a, q) == Some(r.rejections[a.id])
  {
    var candidates, rejections := Judge(accounts, q);
    assert accounts[..|accounts|] == accounts;
    if candidates == [] {
      if DistinctIds(accounts) {
        forall a | a in accounts
          ensures a.id in rejections && ReasonFor(accounts, a, q) == Some(rejections[a.id])
        {
          AllExplained(accounts, q, rejections, a);
        }
      }
      return NoAccountAvailable(rejections);
    }
    assert candidates[0] in candidates;
    var best := Greatest(accounts, q, candidates);
    r := Selected(best.1, best.2);
    assert IsBest(accounts, q, r.account);
    SelectIsBest(accounts, q);
    if DistinctIds(accounts) {
      BestIsUnique(accounts, q, r.account, Select(accounts, q).value);
    }
  }
}
