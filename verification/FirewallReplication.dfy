/**
 Any number of replicas that share one allowlist and one version table.  A step is
 what runs between two `await` points: a middleware lookup, its database read, its
 fill; a handler's commit, its local invalidation, its bump; a poller's read and the
 application of what it read.  A step that is not enabled changes nothing, so every
 sequence of steps is a run and every interleaving is one of them.
 */
module FirewallReplication {
  import opened Common
  import opened FirewallCache

  datatype Config = Config(normalize: AddressParser, ttlSeconds: real)

  /** A middleware request after a cache miss; `version` was captured with the miss. */
  datatype Reader =
    | Missed(ip: string, version: nat)
    | Decided(ip: string, version: nat, allowed: bool)

  /** A handler that has committed its change; it still has to bump. */
  datatype Writer = Writer(replica: nat, invalidated: bool)

  /** `snapshot` holds the rows a poll has read and not yet applied.
      `tainted` records that the replica missed a change while it had decisions
      cached or in flight: its first poll skipped the callbacks, or the bump of
      another replica's change was lost.  Any later invalidation clears it. */
  datatype Replica = Replica(
    poller: PollState,
    snapshot: Option<seq<VersionRow>>,
    readers: map<nat, Reader>,
    tainted: bool)

  datatype System = System(
    allowlist: set<string>,
    versions: map<string, int>,
    replicas: map<nat, Replica>,
    writers: map<nat, Writer>)

  datatype Change = Add(ip: string) | Remove(ip: string)

  datatype Step =
    | Join(replica: nat)
    | LookUp(replica: nat, reader: nat, ip: string, now: real)
    | ReadAllowlist(replica: nat, reader: nat)
    | FillCache(replica: nat, reader: nat, now: real)
    | AbortReader(replica: nat, reader: nat)
    | Commit(replica: nat, writer: nat, change: Change)
    | InvalidateLocally(writer: nat)
    | Bump(writer: nat)
    | LoseBump(writer: nat)
    | BumpOther(namespace: string)
    | PollRead(replica: nat, rows: seq<VersionRow>)
    | PollApply(replica: nat)

  const FreshReplica := Replica(PollState(map[], false, Cache(map[], 0)), None, map[], false)

  /** Any allowlist, any version table the application itself could have written,
      and replicas whose processes have just started. */
  ghost predicate Start(s: System) {
    && (NAMESPACE_FIREWALL in s.versions ==> s.versions[NAMESPACE_FIREWALL] >= 1)
    && (forall r :: r in s.replicas ==> s.replicas[r] == FreshReplica)
    && s.writers == map[]
  }

  ghost predicate Lists(rows: seq<VersionRow>, versions: map<string, int>) {
    && DistinctNamespaces(rows)
    && forall n :: VersionOf(rows, n) == (if n in versions then Some(versions[n]) else None)
  }

  function Bumped(versions: map<string, int>, namespace: string): map<string, int> {
    versions[namespace := (if namespace in versions then versions[namespace] else 0) + 1]
  }

  function Changed(cfg: Config, allowlist: set<string>, change: Change): (set<string>, AdminOutcome) {
    match change
    case Add(ip) => AddIp(cfg.normalize, allowlist, ip)
    case Remove(ip) => RemoveIp(cfg.normalize, allowlist, ip)
  }

  /** No decision is cached and none in flight could still be stored. */
  ghost predicate Quiet(rep: Replica) {
    && rep.poller.cache.entries == map[]
    && forall id :: id in rep.readers && rep.readers[id].Decided? ==>
         rep.readers[id].version != rep.poller.cache.version
  }

  ghost function ApplyPoll(rep: Replica): Replica
    requires rep.snapshot.Some?
  {
    var version := VersionOf(rep.snapshot.value, NAMESPACE_FIREWALL);
    var fired := version.Some? && Fires(rep.poller, NAMESPACE_FIREWALL, version.value);
    var skipped := version.Some? && NAMESPACE_FIREWALL !in rep.poller.known && !rep.poller.initialized;
    Replica(Polled(rep.poller, rep.snapshot), None, rep.readers,
            !fired && (rep.tainted || (skipped && !Quiet(rep))))
  }

  function InvalidateReplica(rep: Replica): Replica {
    rep.(poller := rep.poller.(cache := Invalidate(rep.poller.cache)), tainted := false)
  }

  /** A bump by `writer` was lost: only the writer itself, which has cleared its cache,
      and replicas with nothing to forget are none the worse. */
  ghost function Overlooked(replicas: map<nat, Replica>, writer: nat): map<nat, Replica> {
    map r | r in replicas ::
      if r == writer || Quiet(replicas[r]) then replicas[r] else replicas[r].(tainted := true)
  }

  /** What a step does to the replica it runs on. */
  ghost function Local(cfg: Config, s: System, rep: Replica, step: Step): Replica {
    var cache := rep.poller.cache;
    match step
    case LookUp(_, id, ip, now) =>
      if id in rep.readers || Lookup(cache, ip, now).Some? then rep
      else rep.(readers := rep.readers[id := Missed(ip, cache.version)])
    case ReadAllowlist(_, id) =>
      if id !in rep.readers || !rep.readers[id].Missed? then rep
      else
        var Missed(ip, version) := rep.readers[id];
        rep.(readers := rep.readers[id := Decided(ip, version, IsIpAllowed(cfg.normalize, s.allowlist, Some(ip)))])
    case FillCache(_, id, now) =>
      if id !in rep.readers || !rep.readers[id].Decided? then rep
      else
        var Decided(ip, version, allowed) := rep.readers[id];
        rep.(poller := rep.poller.(cache := Fill(cache, ip, allowed, now + cfg.ttlSeconds, Some(version))),
             readers := rep.readers - {id})
    case AbortReader(_, id) => rep.(readers := rep.readers - {id})
    case PollRead(_, rows) =>
      if rep.snapshot.Some? || !Lists(rows, s.versions) then rep else rep.(snapshot := Some(rows))
    case PollApply(_) => if rep.snapshot.None? then rep else ApplyPoll(rep)
    case _ => rep
  }

  ghost function Next(cfg: Config, s: System, step: Step): System {
    match step
    case Join(r) =>
      if r in s.replicas then s else s.(replicas := s.replicas[r := FreshReplica])
    case Commit(r, w, change) =>
      var (allowlist, outcome) := Changed(cfg, s.allowlist, change);
      if r !in s.replicas || w in s.writers || !(outcome.Created? || outcome.Deleted?) then s
      else s.(allowlist := allowlist, writers := s.writers[w := Writer(r, false)])
    case InvalidateLocally(w) =>
      if w !in s.writers || s.writers[w].invalidated || s.writers[w].replica !in s.replicas then s
      else
        var r := s.writers[w].replica;
        s.(replicas := s.replicas[r := InvalidateReplica(s.replicas[r])], writers := s.writers[w := Writer(r, true)])
    case Bump(w) =>
      if w !in s.writers || !s.writers[w].invalidated then s
      else s.(versions := Bumped(s.versions, NAMESPACE_FIREWALL), writers := s.writers - {w})
    case LoseBump(w) =>
      if w !in s.writers || !s.writers[w].invalidated then s
      else s.(writers := s.writers - {w}, replicas := Overlooked(s.replicas, s.writers[w].replica))
    case BumpOther(namespace) =>
      if namespace == NAMESPACE_FIREWALL then s else s.(versions := Bumped(s.versions, namespace))
    case _ =>
      if step.replica !in s.replicas then s
      else s.(replicas := s.replicas[step.replica := Local(cfg, s, s.replicas[step.replica], step)])
  }

  ghost function Run(cfg: Config, s: System, steps: seq<Step>): System {
    if steps == [] then s else Next(cfg, Run(cfg, s, steps[..|steps| - 1]), steps[|steps| - 1])
  }

  // ---------------------------------------------------------------------------
  // Agreement with the allowlist
  // ---------------------------------------------------------------------------

  function DatabaseVersion(s: System): int {
    if NAMESPACE_FIREWALL in s.versions then s.versions[NAMESPACE_FIREWALL] else 0
  }

  function KnownVersion(rep: Replica): int {
    if NAMESPACE_FIREWALL in rep.poller.known then rep.poller.known[NAMESPACE_FIREWALL] else 0
  }

  /** Every cached decision, and every decision in flight that the version guard
      would still store, is the one the current allowlist gives. */
  ghost predicate Agrees(cfg: Config, s: System, rep: Replica) {
    && Coherent(cfg.normalize, s.allowlist, rep.poller.cache)
    && forall id ::
         id in rep.readers && rep.readers[id].Decided? && rep.readers[id].version == rep.poller.cache.version ==>
         rep.readers[id].allowed == IsIpAllowed(cfg.normalize, s.allowlist, Some(rep.readers[id].ip))
  }

  /** A handler whose change replica `r` has not been told of: another replica's before
      its bump, or its own before `invalidate_all`. */
  predicate Untold(s: System, r: nat, w: nat) {
    w in s.writers && !(s.writers[w].replica == r && s.writers[w].invalidated)
  }

  /** A change is still on its way to this replica, or was missed by it. */
  ghost predicate Pending(s: System, r: nat, rep: Replica) {
    rep.tainted || KnownVersion(rep) != DatabaseVersion(s) || exists w :: Untold(s, r, w)
  }

  ghost predicate Sound(cfg: Config, s: System, r: nat, rep: Replica) {
    Tracks(s, rep) && (Pending(s, r, rep) || Agrees(cfg, s, rep))
  }

  ghost predicate Tracks(s: System, rep: Replica) {
    && KnownVersion(rep) <= DatabaseVersion(s)
    && (NAMESPACE_FIREWALL in rep.poller.known ==> KnownVersion(rep) >= 1)
    && (rep.snapshot.Some? ==>
          && DistinctNamespaces(rep.snapshot.value)
          && var v := VersionOf(rep.snapshot.value, NAMESPACE_FIREWALL);
             v.Some? ==> 1 <= v.value <= DatabaseVersion(s))
    && forall id :: id in rep.readers ==> rep.readers[id].version <= rep.poller.cache.version
  }

  ghost predicate Inv(cfg: Config, s: System) {
    && (NAMESPACE_FIREWALL in s.versions ==> s.versions[NAMESPACE_FIREWALL] >= 1)
    && forall r :: r in s.replicas ==> Sound(cfg, s, r, s.replicas[r])
  }

  /** A poll that moves the known version clears the cache, except the first. */
  lemma {:induction false} ApplyPollKeeps(cfg: Config, s: System, r: nat, rep: Replica)
    requires rep.snapshot.Some? && Sound(cfg, s, r, rep)
    ensures Sound(cfg, s, r, ApplyPoll(rep))
  {
    PollSeesOneRow(rep.poller, rep.snapshot.value);
  }

  lemma {:induction false} LocalKeeps(cfg: Config, s: System, r: nat, rep: Replica, step: Step)
    requires Inv(cfg, s) && Sound(cfg, s, r, rep)
    ensures Sound(cfg, s, r, Local(cfg, s, rep, step))
  {
    if step.PollApply? && rep.snapshot.Some? {
      ApplyPollKeeps(cfg, s, r, rep);
    }
  }

  predicate IsLocal(step: Step) {
    step.LookUp? || step.ReadAllowlist? || step.FillCache? || step.AbortReader? || step.PollRead? || step.PollApply?
  }

  /** How a step looks from a replica it does not touch: it cannot tell the states
      apart, or there is a change for it to learn about. */
  ghost predicate Unseen(s: System, t: System, r: nat) {
    || (&& t.allowlist == s.allowlist && DatabaseVersion(t) == DatabaseVersion(s)
        && forall w :: Untold(s, r, w) ==> Untold(t, r, w))
    || (DatabaseVersion(t) >= DatabaseVersion(s) && exists w :: Untold(t, r, w))
    || DatabaseVersion(t) > DatabaseVersion(s)
  }

  lemma {:induction false} UntouchedKeeps(cfg: Config, s: System, t: System, r: nat, rep: Replica)
    requires Sound(cfg, s, r, rep) && Unseen(s, t, r)
    ensures Sound(cfg, t, r, rep)
  {
  }

  /** A handler that has cleared its own cache: its replica is right, all others wait. */
  lemma {:induction false} InvalidateKeeps(cfg: Config, s: System, w: nat, r: nat)
    requires r in s.replicas && Sound(cfg, s, r, s.replicas[r])
    ensures var t := Next(cfg, s, InvalidateLocally(w));
            r in t.replicas && Sound(cfg, t, r, t.replicas[r])
  {
    var t := Next(cfg, s, InvalidateLocally(w));
    if t != s && s.writers[w].replica != r {
      assert Untold(t, r, w);
      UntouchedKeeps(cfg, s, t, r, s.replicas[r]);
    }
  }

  /** A bump that is lost: to its own replica it makes no difference, and others that
      had anything to forget are tainted. */
  lemma {:induction false} LoseBumpKeeps(cfg: Config, s: System, w: nat, r: nat)
    requires r in s.replicas && Sound(cfg, s, r, s.replicas[r])
    ensures var t := Next(cfg, s, LoseBump(w));
            r in t.replicas && Sound(cfg, t, r, t.replicas[r])
  {
    var t := Next(cfg, s, LoseBump(w));
    if t != s && s.writers[w].replica == r {
      assert Unseen(s, t, r);
      UntouchedKeeps(cfg, s, t, r, s.replicas[r]);
    }
  }

  lemma {:induction false} CommitKeeps(cfg: Config, s: System, step: Step, r: nat)
    requires step.Commit? && r in s.replicas && Sound(cfg, s, r, s.replicas[r])
    ensures var t := Next(cfg, s, step);
            r in t.replicas && Sound(cfg, t, r, t.replicas[r])
  {
    var t := Next(cfg, s, step);
    if t != s {
      assert Untold(t, r, step.writer);
      UntouchedKeeps(cfg, s, t, r, s.replicas[r]);
    }
  }

  lemma {:induction false} BumpKeeps(cfg: Config, s: System, step: Step, r: nat)
    requires (step.Bump? || step.BumpOther? || step.Join?) && r in s.replicas && Sound(cfg, s, r, s.replicas[r])
    ensures var t := Next(cfg, s, step);
            r in t.replicas && Sound(cfg, t, r, t.replicas[r])
  {
    UntouchedKeeps(cfg, s, Next(cfg, s, step), r, s.replicas[r]);
  }

  lemma {:induction false} SharedStepKeeps(cfg: Config, s: System, step: Step, r: nat)
    requires !IsLocal(step) && r in s.replicas && Sound(cfg, s, r, s.replicas[r])
    ensures var t := Next(cfg, s, step);
            r in t.replicas && Sound(cfg, t, r, t.replicas[r])
  {
    if step.InvalidateLocally? {
      InvalidateKeeps(cfg, s, step.writer, r);
    } else if step.LoseBump? {
      LoseBumpKeeps(cfg, s, step.writer, r);
    } else if step.Commit? {
      CommitKeeps(cfg, s, step, r);
    } else {
      BumpKeeps(cfg, s, step, r);
    }
  }

  lemma {:induction false} LocalStepKeeps(cfg: Config, s: System, step: Step, r: nat)
    requires Inv(cfg, s) && IsLocal(step) && r in s.replicas
    ensures var t := Next(cfg, s, step);
            r in t.replicas && Sound(cfg, t, r, t.replicas[r])
  {
    var t := Next(cfg, s, step);
    assert Sound(cfg, s, r, s.replicas[r]);
    LocalKeeps(cfg, s, r, s.replicas[r], step);
    UntouchedKeeps(cfg, s, t, r, t.replicas[r]);
  }

  lemma {:induction false} NewcomerIsSound(cfg: Config, s: System, r: nat)
    requires NAMESPACE_FIREWALL in s.versions ==> s.versions[NAMESPACE_FIREWALL] >= 1
    ensures Sound(cfg, s, r, FreshReplica)
  {
  }

  lemma {:induction false} VersionsKeep(cfg: Config, s: System, step: Step)
    requires NAMESPACE_FIREWALL in s.versions ==> s.versions[NAMESPACE_FIREWALL] >= 1
    ensures var t := Next(cfg, s, step);
            && (NAMESPACE_FIREWALL in t.versions ==> t.versions[NAMESPACE_FIREWALL] >= 1)
            && forall r :: r in t.replicas && r !in s.replicas ==> t.replicas[r] == FreshReplica
  {
  }

  lemma {:induction false} NextKeeps(cfg: Config, s: System, step: Step)
    requires Inv(cfg, s)
    ensures Inv(cfg, Next(cfg, s, step))
  {
    var t := Next(cfg, s, step);
    VersionsKeep(cfg, s, step);
    forall r | r in t.replicas
      ensures Sound(cfg, t, r, t.replicas[r])
    {
      if r !in s.replicas {
        NewcomerIsSound(cfg, t, r);
      } else if IsLocal(step) {
        LocalStepKeeps(cfg, s, step, r);
      } else {
        assert Sound(cfg, s, r, s.replicas[r]);
        SharedStepKeeps(cfg, s, step, r);
      }
    }
  }

  lemma {:induction false} RunKeeps(cfg: Config, s: System, steps: seq<Step>)
    requires Start(s)
    ensures Inv(cfg, Run(cfg, s, steps))
  {
    if steps != [] {
      RunKeeps(cfg, s, steps[..|steps| - 1]);
      NextKeeps(cfg, Run(cfg, s, steps[..|steps| - 1]), steps[|steps| - 1]);
    }
  }

  /** In every run a replica that knows the database version decides as the current
      allowlist does, once no other replica's handler is between its commit and its
      bump and none of its own is between its commit and `invalidate_all`; unless it
      is tainted. */
  lemma {:induction false} CaughtUpReplicaAgrees(cfg: Config, s: System, steps: seq<Step>, r: nat)
    requires Start(s)
    ensures var t := Run(cfg, s, steps);
            r in t.replicas && (forall w :: !Untold(t, r, w)) && !t.replicas[r].tainted
            && KnownVersion(t.replicas[r]) == DatabaseVersion(t)
            ==> Agrees(cfg, t, t.replicas[r])
  {
    RunKeeps(cfg, s, steps);
  }

  /** One undisturbed poll is enough: afterwards the replica knows the database
      version, and if no handler is on its way it decides as the allowlist does. */
  lemma {:induction false} OnePollCatchesUp(cfg: Config, s: System, steps: seq<Step>, r: nat, rows: seq<VersionRow>)
    requires Start(s)
    requires var t := Run(cfg, s, steps);
             && r in t.replicas && t.replicas[r].poller.initialized && t.replicas[r].snapshot.None?
             && Lists(rows, t.versions) && (forall w :: !Untold(t, r, w))
             && (t.replicas[r].tainted ==> KnownVersion(t.replicas[r]) != DatabaseVersion(t))
    ensures var t := Run(cfg, s, steps);
            var u := Next(cfg, Next(cfg, t, PollRead(r, rows)), PollApply(r));
            && r in u.replicas && u.allowlist == t.allowlist
            && KnownVersion(u.replicas[r]) == DatabaseVersion(u)
            && Agrees(cfg, u, u.replicas[r])
  {
    RunKeeps(cfg, s, steps);
    var t := Run(cfg, s, steps);
    var t1 := Next(cfg, t, PollRead(r, rows));
    NextKeeps(cfg, t, PollRead(r, rows));
    NextKeeps(cfg, t1, PollApply(r));
    PollSeesOneRow(t.replicas[r].poller, rows);
    assert VersionOf(rows, NAMESPACE_FIREWALL)
        == (if NAMESPACE_FIREWALL in t.versions then Some(t.versions[NAMESPACE_FIREWALL]) else None);
    var u := Next(cfg, t1, PollApply(r));
    assert t1.replicas[r] == t.replicas[r].(snapshot := Some(rows));
    assert u.replicas[r] == ApplyPoll(t1.replicas[r]);
  }

  // ---------------------------------------------------------------------------
  // The replica that makes all changes itself needs no poll
  // ---------------------------------------------------------------------------

  ghost predicate OnlyWriter(steps: seq<Step>, r: nat) {
    forall i :: 0 <= i < |steps| && steps[i].Commit? ==> steps[i].replica == r
  }

  predicate Unfinished(s: System, w: nat) {
    w in s.writers && !s.writers[w].invalidated
  }

  ghost predicate WellFormed(rep: Replica) {
    && (rep.snapshot.Some? ==> DistinctNamespaces(rep.snapshot.value))
    && forall id :: id in rep.readers ==> rep.readers[id].version <= rep.poller.cache.version
  }

  ghost predicate HomeInv(cfg: Config, s: System, r: nat) {
    && (forall w :: w in s.writers ==> s.writers[w].replica == r)
    && (r in s.replicas ==>
          && WellFormed(s.replicas[r])
          && ((exists w :: Unfinished(s, w)) || Agrees(cfg, s, s.replicas[r])))
  }

  lemma {:induction false} HomeNextKeeps(cfg: Config, s: System, step: Step, r: nat)
    requires HomeInv(cfg, s, r)
    requires step.Commit? ==> step.replica == r
    ensures HomeInv(cfg, Next(cfg, s, step), r)
  {
    if IsLocal(step) {
      assert forall w :: Unfinished(s, w) ==> Unfinished(Next(cfg, s, step), w);
      if step.replica == r && r in s.replicas {
        HomeLocalKeeps(cfg, s, step, r);
      }
    } else {
      HomeSharedKeeps(cfg, s, step, r);
    }
  }

  /** A replica's own steps never break its agreement: reads are of the current
      allowlist, and a poll keeps the cache or empties it. */
  lemma {:induction false} LocalKeepsAgreement(cfg: Config, s: System, rep: Replica, step: Step)
    requires WellFormed(rep)
    ensures WellFormed(Local(cfg, s, rep, step))
    ensures Agrees(cfg, s, rep) ==> Agrees(cfg, s, Local(cfg, s, rep, step))
  {
    if step.PollApply? && rep.snapshot.Some? {
      PollSeesOneRow(rep.poller, rep.snapshot.value);
    }
  }

  lemma {:induction false} HomeLocalKeeps(cfg: Config, s: System, step: Step, r: nat)
    requires HomeInv(cfg, s, r) && IsLocal(step) && step.replica == r && r in s.replicas
    ensures HomeInv(cfg, Next(cfg, s, step), r)
  {
    LocalKeepsAgreement(cfg, s, s.replicas[r], step);
    assert forall w :: Unfinished(s, w) ==> Unfinished(Next(cfg, s, step), w);
  }

  lemma {:induction false} HomeSharedKeeps(cfg: Config, s: System, step: Step, r: nat)
    requires HomeInv(cfg, s, r) && !IsLocal(step)
    requires step.Commit? ==> step.replica == r
    ensures HomeInv(cfg, Next(cfg, s, step), r)
  {
    var t := Next(cfg, s, step);
    if step.Commit? {
      assert t == s || Unfinished(t, step.writer);
    } else if !step.InvalidateLocally? {
      assert forall w :: Unfinished(s, w) ==> Unfinished(t, w);
    }
  }

  /** When all changes are made on one replica, its cache is right whenever none of
      its handlers is between commit and `invalidate_all`: no poll, no bump and no
      condition on the first poll is needed. */
  lemma {:induction false} WritingReplicaAgrees(cfg: Config, s: System, steps: seq<Step>, r: nat)
    requires Start(s) && OnlyWriter(steps, r)
    ensures HomeInv(cfg, Run(cfg, s, steps), r)
    ensures var t := Run(cfg, s, steps);
            r in t.replicas && (forall w :: w in t.writers ==> t.writers[w].invalidated)
            ==> Agrees(cfg, t, t.replicas[r])
  {
    if steps != [] {
      assert OnlyWriter(steps[..|steps| - 1], r);
      WritingReplicaAgrees(cfg, s, steps[..|steps| - 1], r);
      HomeNextKeeps(cfg, Run(cfg, s, steps[..|steps| - 1]), steps[|steps| - 1], r);
    }
  }

  // ---------------------------------------------------------------------------
  // The two conditions of the agreement theorem are needed
  // ---------------------------------------------------------------------------

  lemma {:induction false} RunSnoc(cfg: Config, s: System, steps: seq<Step>, step: Step)
    ensures Run(cfg, s, steps + [step]) == Next(cfg, Run(cfg, s, steps), step)
  {
    assert (steps + [step])[..|steps|] == steps;
  }

  /** Replica 0 has cached that "a" may enter, under an empty allowlist. */
  function WarmHistory(): seq<Step> {
    [] + [LookUp(0, 0, "a", 0.0)] + [ReadAllowlist(0, 0)] + [FillCache(0, 0, 0.0)]
  }

  /** Replica 1 then allows only "b", clears its own cache and reaches its bump. */
  function StaleHistory(): seq<Step> {
    WarmHistory() + [Commit(1, 0, Add("b"))] + [InvalidateLocally(0)]
  }

  const AnyText := Config((ip: string) => Some(ip), 30.0)
  const TwoReplicas := System({}, map[], map[0 := FreshReplica, 1 := FreshReplica], map[])

  const WarmReplica := FreshReplica.(poller := PollState(map[], false, Cache(map["a" := Entry(true, 30.0)], 0)))

  lemma {:induction false} WarmHistoryRun()
    ensures Run(AnyText, TwoReplicas, WarmHistory())
            == TwoReplicas.(replicas := map[0 := WarmReplica, 1 := FreshReplica])
  {
    var s0 := TwoReplicas;
    var s1 := Next(AnyText, s0, LookUp(0, 0, "a", 0.0));
    var s2 := Next(AnyText, s1, ReadAllowlist(0, 0));
    var s3 := Next(AnyText, s2, FillCache(0, 0, 0.0));
    RunSnoc(AnyText, s0, [], LookUp(0, 0, "a", 0.0));
    RunSnoc(AnyText, s0, [] + [LookUp(0, 0, "a", 0.0)], ReadAllowlist(0, 0));
    RunSnoc(AnyText, s0, [] + [LookUp(0, 0, "a", 0.0)] + [ReadAllowlist(0, 0)], FillCache(0, 0, 0.0));
    assert s2.replicas[0].readers == map[0 := Decided("a", 0, true)];
    assert s3.replicas[0].readers == map[];
  }

  lemma {:induction false} StaleHistoryRun()
    ensures var t := Run(AnyText, TwoReplicas, StaleHistory());
            && t.allowlist == {"b"} && t.versions == map[]
            && t.writers == map[0 := Writer(1, true)]
            && 0 in t.replicas && t.replicas[0] == WarmReplica
  {
    WarmHistoryRun();
    RunSnoc(AnyText, TwoReplicas, WarmHistory(), Commit(1, 0, Add("b")));
    RunSnoc(AnyText, TwoReplicas, WarmHistory() + [Commit(1, 0, Add("b"))], InvalidateLocally(0));
    assert Run(AnyText, TwoReplicas, WarmHistory() + [Commit(1, 0, Add("b"))]).allowlist == {"b"};
  }

  /** A first poll that finds a version row on a warm cache: replica 0 then knows
      the database version, nothing is pending, and it still admits "a". */
  lemma {:induction false} WarmFirstPollStaysStale()
    ensures Start(TwoReplicas)
    ensures var t := Run(AnyText, TwoReplicas,
                         StaleHistory() + [Bump(0)] + [PollRead(0, [(NAMESPACE_FIREWALL, 1)])] + [PollApply(0)]);
            && 0 in t.replicas && t.writers == map[]
            && KnownVersion(t.replicas[0]) == DatabaseVersion(t)
            && t.replicas[0].tainted && !Agrees(AnyText, t, t.replicas[0])
  {
    StaleHistoryRun();
    var h := StaleHistory();
    var rows: seq<VersionRow> := [(NAMESPACE_FIREWALL, 1)];
    RunSnoc(AnyText, TwoReplicas, h, Bump(0));
    RunSnoc(AnyText, TwoReplicas, h + [Bump(0)], PollRead(0, rows));
    RunSnoc(AnyText, TwoReplicas, h + [Bump(0)] + [PollRead(0, rows)], PollApply(0));
    var s1 := Run(AnyText, TwoReplicas, h + [Bump(0)]);
    assert s1.versions == map[NAMESPACE_FIREWALL := 1];
    assert rows[..0] == [];
    assert Lists(rows, s1.versions);
    PollSeesOneRow(s1.replicas[0].poller, rows);
    var t := Next(AnyText, Next(AnyText, s1, PollRead(0, rows)), PollApply(0));
    assert "a" in t.replicas[0].poller.cache.entries;
  }

  /** A bump that fails is only logged: replica 0 never hears of the change. */
  lemma {:induction false} LostBumpStaysStale()
    ensures var t := Run(AnyText, TwoReplicas, StaleHistory() + [LoseBump(0)]);
            && 0 in t.replicas && t.writers == map[]
            && KnownVersion(t.replicas[0]) == DatabaseVersion(t)
            && t.replicas[0].tainted && !Agrees(AnyText, t, t.replicas[0])
  {
    StaleHistoryRun();
    RunSnoc(AnyText, TwoReplicas, StaleHistory(), LoseBump(0));
    var t := Run(AnyText, TwoReplicas, StaleHistory() + [LoseBump(0)]);
    assert "a" in t.replicas[0].poller.cache.entries;
  }
}
