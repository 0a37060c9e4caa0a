/**
 The scheduler's leader lease: one database row, taken by a conditional upsert and
 confirmed by reading it back.  Times are clock ticks; all nodes read one clock
 that never goes back.
 */
module LeaderLease {
  import opened Common

  datatype Lease = Lease(leader: string, acquiredAt: int, expiresAt: int)

  /** `INSERT ... ON CONFLICT DO UPDATE ... WHERE expired OR already mine`. */
  function Upsert(row: Option<Lease>, me: string, now: int, expiresAt: int): Option<Lease> {
    if row.None? || row.value.expiresAt < now || row.value.leader == me then Some(Lease(me, now, expiresAt))
    else row
  }

  /** `UPDATE ... SET expires_at WHERE leader_id = me`. */
  function Extend(row: Option<Lease>, me: string, expiresAt: int): Option<Lease> {
    if row.Some? && row.value.leader == me then Some(row.value.(expiresAt := expiresAt)) else row
  }

  predicate Names(row: Option<Lease>, node: string) {
    row.Some? && row.value.leader == node
  }

  // ---------------------------------------------------------------------------
  // One node, run without interruption
  // ---------------------------------------------------------------------------

  class LeaseTable {
    var row: Option<Lease>
  }

  datatype Settings = Settings(electionEnabled: bool, sqlite: bool, ttlSeconds: int)

  /** Where a database error strikes, if it does. */
  datatype Fault = NoFault | BeforeCommit | AfterCommit

  class LeaderElection {
    const leaderId: string
    var isLeader: bool

    constructor (leaderId: string)
      ensures this.leaderId == leaderId && !isLeader
    {
      this.leaderId := leaderId;
      isLeader := false;
    }

    method TryAcquire(settings: Settings, table: LeaseTable, now: int, fault: Fault) returns (acquired: bool)
      modifies this, table
      ensures acquired == isLeader
      ensures !settings.electionEnabled || settings.sqlite ==> acquired && table.row == old(table.row)
      ensures settings.electionEnabled && !settings.sqlite ==>
                && (fault.BeforeCommit? ==> table.row == old(table.row) && !acquired)
                && (!fault.BeforeCommit? ==>
                      table.row == Upsert(old(table.row), leaderId, now, now + settings.ttlSeconds))
                && (acquired <==> fault.NoFault? && Names(table.row, leaderId))
                && (acquired ==> table.row.value.expiresAt == now + settings.ttlSeconds)
    {
      if !settings.electionEnabled || settings.sqlite {
        isLeader := true;
        return true;
      }
      var expiresAt := now + settings.ttlSeconds;
      if fault.BeforeCommit? {
        isLeader := false;
        return false;
      }
      table.row := Upsert(table.row, leaderId, now, expiresAt);
      if fault.AfterCommit? {
        isLeader := false;
        return false;
      }
      isLeader := table.row.Some? && table.row.value.leader == leaderId;
      return isLeader;
    }

    /** The source reports success whether or not the update matched a row, so a
        `true` says nothing about who holds the lease: that is as it was. */
    method Renew(settings: Settings, table: LeaseTable, now: int, fault: Fault) returns (renewed: bool)
      modifies table
      ensures isLeader == old(isLeader)
      ensures renewed <==> isLeader && (!settings.electionEnabled || settings.sqlite || fault.NoFault?)
      ensures forall node :: Names(table.row, node) <==> Names(old(table.row), node)
      ensures isLeader && settings.electionEnabled && !settings.sqlite && !fault.BeforeCommit? ==>
                table.row == Extend(old(table.row), leaderId, now + settings.ttlSeconds)
    {
      if !isLeader {
        return false;
      }
      if !settings.electionEnabled || settings.sqlite {
        return true;
      }
      if fault.BeforeCommit? {
        return false;
      }
      table.row := Extend(table.row, leaderId, now + settings.ttlSeconds);
      return fault.NoFault?;
    }
  }

  // ---------------------------------------------------------------------------
  // All nodes, in every interleaving
  // ---------------------------------------------------------------------------

  /** What a node has in flight; a node does one thing at a time. */
  datatype Phase =
    | Idle
    | Acquiring(now: int, expiresAt: int)
    | Written(expiresAt: int)
    | Renewing(expiresAt: int)

  /** `lease` is the expiry the node last wrote into a row that named it: in its last
      successful `try_acquire`, or in a later renewal whose update matched the row,
      which the program itself does not look at. */
  datatype Node = Node(isLeader: bool, phase: Phase, lease: Option<int>)

  datatype System = System(clock: int, row: Option<Lease>, nodes: map<string, Node>)

  datatype Step =
    | Tick(to: int)
    | BeginAcquire(node: string)
    | WriteLease(node: string)
    | ReadBack(node: string)
    | FailAcquire(node: string)
    | BeginRenew(node: string)
    | WriteRenewal(node: string)
    | FailRenew(node: string)

  /** Each node has its own configured TTL. */
  type Ttl = string -> int

  function Put(s: System, n: string, node: Node): System {
    s.(nodes := s.nodes[n := node])
  }

  function Next(ttl: Ttl, s: System, step: Step): System {
    if step.Tick? then (if step.to < s.clock then s else s.(clock := step.to))
    else if step.node !in s.nodes then s
    else
      var n, node := step.node, s.nodes[step.node];
      match step
      case BeginAcquire(_) =>
        if !node.phase.Idle? then s
        else Put(s, n, node.(phase := Acquiring(s.clock, s.clock + ttl(n))))
      case WriteLease(_) =>
        if !node.phase.Acquiring? then s
        else Put(s, n, node.(phase := Written(node.phase.expiresAt)))
             .(row := Upsert(s.row, n, node.phase.now, node.phase.expiresAt))
      case ReadBack(_) =>
        if !node.phase.Written? then s
        else if Names(s.row, n) then Put(s, n, Node(true, Idle, Some(node.phase.expiresAt)))
        else Put(s, n, Node(false, Idle, node.lease))
      case FailAcquire(_) =>
        if !(node.phase.Acquiring? || node.phase.Written?) then s
        else Put(s, n, Node(false, Idle, node.lease))
      case BeginRenew(_) =>
        if !node.phase.Idle? || !node.isLeader then s
        else Put(s, n, node.(phase := Renewing(s.clock + ttl(n))))
      case WriteRenewal(_) =>
        if !node.phase.Renewing? then s
        else Put(s, n, node.(phase := Idle,
                             lease := if Names(s.row, n) then Some(node.phase.expiresAt) else node.lease))
             .(row := Extend(s.row, n, node.phase.expiresAt))
      case FailRenew(_) =>
        if !node.phase.Renewing? then s else Put(s, n, node.(phase := Idle))
  }

  function Run(ttl: Ttl, s: System, steps: seq<Step>): System {
    if steps == [] then s else Next(ttl, Run(ttl, s, steps[..|steps| - 1]), steps[|steps| - 1])
  }

  /** Any clock, any row a former process left behind, nodes that just started. */
  predicate Start(s: System) {
    forall n :: n in s.nodes ==> s.nodes[n] == Node(false, Idle, None)
  }

  /** The node acquired a lease that has not run out. */
  predicate HoldsLease(s: System, n: string) {
    n in s.nodes && s.nodes[n].lease.Some? && s.clock <= s.nodes[n].lease.value
  }

  predicate NodeInv(ttl: Ttl, s: System, n: string)
    requires n in s.nodes
  {
    var node := s.nodes[n];
    && (node.phase.Acquiring? ==> node.phase.now <= s.clock && node.phase.expiresAt == node.phase.now + ttl(n))
    && (!node.phase.Idle? ==> node.phase.expiresAt <= s.clock + ttl(n))
    && (node.phase.Written? && Names(s.row, n) ==> s.row.value.expiresAt >= node.phase.expiresAt)
    && (node.lease.Some? ==>
          && node.lease.value <= s.clock + ttl(n)
          && (!node.phase.Idle? ==> node.lease.value <= node.phase.expiresAt))
    && (HoldsLease(s, n) ==> Names(s.row, n) && s.row.value.expiresAt >= node.lease.value)
  }

  predicate Inv(ttl: Ttl, s: System) {
    forall n :: n in s.nodes ==> NodeInv(ttl, s, n)
  }

  lemma {:induction false} OwnStepKeeps(ttl: Ttl, s: System, step: Step)
    requires !step.Tick? && step.node in s.nodes && NodeInv(ttl, s, step.node)
    ensures NodeInv(ttl, Next(ttl, s, step), step.node)
  {
  }

  /** A write by another node touches a lease only once it has run out. */
  lemma {:induction false} OtherStepKeeps(ttl: Ttl, s: System, step: Step, n: string)
    requires n in s.nodes && NodeInv(ttl, s, n)
    requires step.Tick? || (step.node != n && (step.node in s.nodes ==> NodeInv(ttl, s, step.node)))
    ensures n in Next(ttl, s, step).nodes && NodeInv(ttl, Next(ttl, s, step), n)
  {
  }

  lemma {:induction false} NextKeeps(ttl: Ttl, s: System, step: Step)
    requires Inv(ttl, s)
    ensures Inv(ttl, Next(ttl, s, step))
  {
    var t := Next(ttl, s, step);
    forall n | n in t.nodes
      ensures NodeInv(ttl, t, n)
    {
      if !step.Tick? && step.node == n {
        OwnStepKeeps(ttl, s, step);
      } else {
        OtherStepKeeps(ttl, s, step, n);
      }
    }
  }

  lemma {:induction false} RunKeeps(ttl: Ttl, s: System, steps: seq<Step>)
    requires Start(s)
    ensures Inv(ttl, Run(ttl, s, steps))
  {
    if steps != [] {
      RunKeeps(ttl, s, steps[..|steps| - 1]);
      NextKeeps(ttl, Run(ttl, s, steps[..|steps| - 1]), steps[|steps| - 1]);
    }
  }

  /** In every run at most one node holds an unexpired lease, and the row names it
      with at least that expiry. */
  lemma {:induction false} AtMostOneLeader(ttl: Ttl, s: System, steps: seq<Step>, a: string, b: string)
    requires Start(s)
    ensures var t := Run(ttl, s, steps);
            && (HoldsLease(t, a) ==> Names(t.row, a) && t.row.value.expiresAt >= t.nodes[a].lease.value)
            && (HoldsLease(t, a) && HoldsLease(t, b) ==> a == b)
  {
    RunKeeps(ttl, s, steps);
    var t := Run(ttl, s, steps);
    assert a in t.nodes ==> NodeInv(ttl, t, a);
    assert b in t.nodes ==> NodeInv(ttl, t, b);
  }

  /** What a successful renewal is worth, in every run: afterwards the row names the
      node, and the node holds a lease as long as the expiry it wrote, exactly when
      the row named it at the write, which is when the update matched a row.  If it
      did not, nothing changed. */
  lemma {:induction false} RenewalCountsIfItMatched(ttl: Ttl, s: System, steps: seq<Step>, n: string)
    requires Start(s)
    requires n in Run(ttl, s, steps).nodes && Run(ttl, s, steps).nodes[n].phase.Renewing?
    ensures var t := Run(ttl, s, steps);
            var u := Next(ttl, t, WriteRenewal(n));
            var expiresAt := t.nodes[n].phase.expiresAt;
            && (Names(u.row, n) <==> Names(t.row, n))
            && (HoldsLease(u, n) <==> Names(t.row, n) && t.clock <= expiresAt)
            && (Names(t.row, n) ==>
                  u.row == Some(t.row.value.(expiresAt := expiresAt)) && u.nodes[n].lease == Some(expiresAt)
                  && (t.nodes[n].lease.Some? ==> t.nodes[n].lease.value <= expiresAt))
            && (!Names(t.row, n) ==> u.row == t.row && u.nodes[n].lease == t.nodes[n].lease)
  {
    RunKeeps(ttl, s, steps);
    var t := Run(ttl, s, steps);
    assert NodeInv(ttl, t, n);
    NextKeeps(ttl, t, WriteRenewal(n));
    assert NodeInv(ttl, Next(ttl, t, WriteRenewal(n)), n);
  }

  /** The row changes hands only by another node's upsert, and only after the
      expiry it carried has passed; a renewal never moves it. */
  lemma {:induction false} HandoverOnlyAfterExpiry(ttl: Ttl, s: System, steps: seq<Step>, step: Step)
    requires Start(s)
    ensures var t := Run(ttl, s, steps);
            var u := Next(ttl, t, step);
            t.row.Some? && !Names(u.row, t.row.value.leader) ==>
              && step.WriteLease? && Names(u.row, step.node)
              && t.row.value.expiresAt < t.clock
              && forall n :: !HoldsLease(t, n)
  {
    RunKeeps(ttl, s, steps);
    var t := Run(ttl, s, steps);
    if !step.Tick? && step.node in t.nodes {
      assert NodeInv(ttl, t, step.node);
    }
    forall n | n in t.nodes
      ensures t.row.Some? && t.row.value.expiresAt < t.clock ==> !HoldsLease(t, n)
    {
      assert NodeInv(ttl, t, n);
    }
  }

  lemma {:induction false} RunConcat(ttl: Ttl, s: System, first: seq<Step>, second: seq<Step>)
    ensures Run(ttl, s, first + second) == Run(ttl, Run(ttl, s, first), second)
  {
    if second == [] {
      assert first + second == first;
    } else {
      var n := |second| - 1;
      assert (first + second)[..|first| + n] == first + second[..n];
      RunConcat(ttl, s, first, second[..n]);
    }
  }

  /** One uninterrupted `try_acquire`. */
  function Acquire(n: string): seq<Step> {
    [BeginAcquire(n), WriteLease(n), ReadBack(n)]
  }

  /** An expired row is taken by the next idle node whose request is not overtaken. */
  lemma {:induction false} ExpiredLeaseIsTaken(ttl: Ttl, s: System, n: string)
    requires n in s.nodes && s.nodes[n].phase.Idle? && ttl(n) >= 0
    requires s.row.None? || s.row.value.expiresAt < s.clock || Names(s.row, n)
    ensures var t := Run(ttl, s, Acquire(n));
            && HoldsLease(t, n)
            && t == System(s.clock, Some(Lease(n, s.clock, s.clock + ttl(n))),
                           s.nodes[n := Node(true, Idle, Some(s.clock + ttl(n)))])
  {
    var h := Acquire(n);
    assert h[..2] == [h[0], h[1]] && [h[0], h[1]][..1] == [h[0]] && [h[0]][..0] == [];
    assert Run(ttl, s, []) == s;
    assert Run(ttl, s, [h[0]]) == Next(ttl, s, h[0]);
    assert Run(ttl, s, [h[0], h[1]]) == Next(ttl, Next(ttl, s, h[0]), h[1]);
  }

  /** Why the flag is not enough: `_is_leader`, which a renewal leaves set and reports
      as success although its update matched nothing, can be set on two nodes at once. */
  lemma {:induction false} RenewalDoesNotProveLeadership(ttl: Ttl, a: string, b: string, later: int)
    requires a != b && ttl(a) >= 0 && ttl(b) >= 0 && later > ttl(a)
    ensures var s := System(0, None, map[a := Node(false, Idle, None), b := Node(false, Idle, None)]);
            var t := Run(ttl, s, Acquire(a) + ([Tick(later)] + (Acquire(b) + [BeginRenew(a), WriteRenewal(a)])));
            && Start(s)
            && a in t.nodes && b in t.nodes && t.nodes[a].isLeader && t.nodes[b].isLeader
            && Names(t.row, b) && HoldsLease(t, b) && !HoldsLease(t, a)
  {
    var s := System(0, None, map[a := Node(false, Idle, None), b := Node(false, Idle, None)]);
    var renew := [BeginRenew(a), WriteRenewal(a)];
    RunConcat(ttl, s, Acquire(a), [Tick(later)] + (Acquire(b) + renew));
    ExpiredLeaseIsTaken(ttl, s, a);
    var s1 := Run(ttl, s, Acquire(a));
    RunConcat(ttl, s1, [Tick(later)], Acquire(b) + renew);
    assert [Tick(later)][..0] == [];
    var s2 := Next(ttl, s1, Tick(later));
    assert Run(ttl, s1, [Tick(later)]) == s2;
    RunConcat(ttl, s2, Acquire(b), renew);
    ExpiredLeaseIsTaken(ttl, s2, b);
    var s3 := Run(ttl, s2, Acquire(b));
    assert renew[..1] == [BeginRenew(a)] && renew[..1][..0] == [];
    assert Run(ttl, s3, renew[..1]) == Next(ttl, s3, BeginRenew(a));
    assert Run(ttl, s3, renew) == Next(ttl, Next(ttl, s3, BeginRenew(a)), WriteRenewal(a));
  }
}
