/**
 How wrong a replica's cache can be.  Every decision it stores was read at some step of
 the run, under the allowlist of that moment.  Whether it is still right, and for how
 long it can be served, follows from that step, whatever was lost or skipped since.
 */
module FirewallStaleness {
  import opened Common
  import opened FirewallCache
  import opened FirewallReplication

  // ---------------------------------------------------------------------------
  // Which decisions differ between two allowlists
  // ---------------------------------------------------------------------------

  /** An empty allowlist admits everyone, so between an empty one and another the
      addresses off the list differ; between two others, those on one of them only. */
  predicate Moves(normalize: AddressParser, before: set<string>, after: set<string>, ip: string) {
    var n := normalize(ip);
    if before == {} && after == {} then false
    else if before == {} then n.None? || n.value !in after
    else if after == {} then n.None? || n.value !in before
    else n.Some? && (n.value in before <==> n.value !in after)
  }

  lemma {:induction false} MovesExactly(normalize: AddressParser, before: set<string>, after: set<string>, ip: string)
    ensures Moves(normalize, before, after, ip)
            <==> IsIpAllowed(normalize, before, Some(ip)) != IsIpAllowed(normalize, after, Some(ip))
  {
  }

  predicate Effective(cfg: Config, allowlist: set<string>, change: Change) {
    var outcome := Changed(cfg, allowlist, change).1;
    outcome.Created? || outcome.Deleted?
  }

  /** A change of the address `n` moves the decision on `n`; but the first address added
      to an empty list, and the last one removed, move it on all the others. */
  predicate MovedBy(normalize: AddressParser, before: set<string>, after: set<string>, n: string, ip: string) {
    if before == {} || after == {} then normalize(ip) != Some(n) else normalize(ip) == Some(n)
  }

  lemma {:induction false} ChangeMovesExactly(cfg: Config, allowlist: set<string>, change: Change, ip: string)
    requires Effective(cfg, allowlist, change)
    ensures var after, n := Changed(cfg, allowlist, change).0, cfg.normalize(change.ip);
            && n.Some?
            && (Moves(cfg.normalize, allowlist, after, ip) <==> MovedBy(cfg.normalize, allowlist, after, n.value, ip))
  {
  }

  // ---------------------------------------------------------------------------
  // Where a stored decision comes from
  // ---------------------------------------------------------------------------

  ghost function AllowlistAt(cfg: Config, s: System, steps: seq<Step>, e: nat): set<string>
    requires e <= |steps|
  {
    Run(cfg, s, steps[..e]).allowlist
  }

  /** Step `e` read the allowlist for this request and decided so. */
  ghost predicate ReadAt(cfg: Config, s: System, steps: seq<Step>, r: nat, id: nat, ip: string, allowed: bool, e: nat) {
    && e < |steps| && steps[e] == ReadAllowlist(r, id)
    && allowed == IsIpAllowed(cfg.normalize, AllowlistAt(cfg, s, steps, e), Some(ip))
  }

  /** Step `f` stored the entry, from what the same request read at step `e`. */
  ghost predicate FilledAt(cfg: Config, s: System, steps: seq<Step>, r: nat, ip: string, entry: Entry, e: nat, f: nat) {
    && e < f < |steps| && steps[f].FillCache? && steps[f].replica == r
    && entry.expiresAt == steps[f].now + cfg.ttlSeconds
    && ReadAt(cfg, s, steps, r, steps[f].reader, ip, entry.allowed, e)
  }

  /** Every entry and every decision in flight has its origin in the run. */
  ghost predicate Traced(cfg: Config, s: System, steps: seq<Step>, r: nat, rep: Replica) {
    && (forall ip :: ip in rep.poller.cache.entries ==>
          exists e: nat, f: nat :: FilledAt(cfg, s, steps, r, ip, rep.poller.cache.entries[ip], e, f))
    && (forall id :: id in rep.readers && rep.readers[id].Decided? ==>
          exists e: nat :: ReadAt(cfg, s, steps, r, id, rep.readers[id].ip, rep.readers[id].allowed, e))
  }

  lemma {:induction false} ReadStays(cfg: Config, s: System, steps: seq<Step>, step: Step, r: nat, id: nat, ip: string,
                                     allowed: bool, e: nat)
    requires ReadAt(cfg, s, steps, r, id, ip, allowed, e)
    ensures ReadAt(cfg, s, steps + [step], r, id, ip, allowed, e)
  {
    assert (steps + [step])[..e] == steps[..e];
  }

  lemma {:induction false} OriginStays(cfg: Config, s: System, steps: seq<Step>, step: Step, r: nat, rep: Replica)
    requires Traced(cfg, s, steps, r, rep)
    ensures Traced(cfg, s, steps + [step], r, rep)
  {
    forall ip | ip in rep.poller.cache.entries
      ensures exists e: nat, f: nat :: FilledAt(cfg, s, steps + [step], r, ip, rep.poller.cache.entries[ip], e, f)
    {
      var e: nat, f: nat :| FilledAt(cfg, s, steps, r, ip, rep.poller.cache.entries[ip], e, f);
      ReadStays(cfg, s, steps, step, r, steps[f].reader, ip, rep.poller.cache.entries[ip].allowed, e);
      assert FilledAt(cfg, s, steps + [step], r, ip, rep.poller.cache.entries[ip], e, f);
    }
    forall id | id in rep.readers && rep.readers[id].Decided?
      ensures exists e: nat :: ReadAt(cfg, s, steps + [step], r, id, rep.readers[id].ip, rep.readers[id].allowed, e)
    {
      var e: nat :| ReadAt(cfg, s, steps, r, id, rep.readers[id].ip, rep.readers[id].allowed, e);
      ReadStays(cfg, s, steps, step, r, id, rep.readers[id].ip, rep.readers[id].allowed, e);
    }
  }

  /** Nothing is stored or in flight in `after` that was not in `before`. */
  predicate OnlyForgets(before: Replica, after: Replica) {
    && (forall ip :: ip in after.poller.cache.entries ==>
          ip in before.poller.cache.entries && after.poller.cache.entries[ip] == before.poller.cache.entries[ip])
    && (forall id :: id in after.readers && after.readers[id].Decided? ==>
          id in before.readers && after.readers[id] == before.readers[id])
  }

  lemma {:induction false} LocalOnlyForgets(cfg: Config, s: System, rep: Replica, step: Step)
    requires WellFormed(rep) && !step.ReadAllowlist? && !step.FillCache?
    ensures OnlyForgets(rep, Local(cfg, s, rep, step))
  {
    if step.PollApply? && rep.snapshot.Some? {
      PollSeesOneRow(rep.poller, rep.snapshot.value);
    }
  }

  /** Only a read decides, and only a fill stores. */
  lemma {:induction false} OthersOnlyForget(cfg: Config, s: System, step: Step, r: nat)
    requires Inv(cfg, s) && r in s.replicas
    requires (step.ReadAllowlist? || step.FillCache?) ==> step.replica != r
    ensures var t := Next(cfg, s, step);
            r in t.replicas && OnlyForgets(s.replicas[r], t.replicas[r])
  {
    assert Sound(cfg, s, r, s.replicas[r]);
    if IsLocal(step) && step.replica == r {
      LocalOnlyForgets(cfg, s, s.replicas[r], step);
    } else {
      ElsewhereOnlyForgets(cfg, s, step, r);
    }
  }

  lemma {:induction false} ElsewhereOnlyForgets(cfg: Config, s: System, step: Step, r: nat)
    requires r in s.replicas && (IsLocal(step) ==> step.replica != r)
    ensures var t := Next(cfg, s, step);
            r in t.replicas && OnlyForgets(s.replicas[r], t.replicas[r])
  {
  }

  lemma {:induction false} ForgettingStaysTraced(cfg: Config, s: System, steps: seq<Step>, r: nat, before: Replica,
                                                 after: Replica)
    requires Traced(cfg, s, steps, r, before) && OnlyForgets(before, after)
    ensures Traced(cfg, s, steps, r, after)
  {
  }

  /** A read decides by the allowlist of its own step. */
  lemma {:induction false} ReadIsTraced(cfg: Config, s: System, steps: seq<Step>, r: nat, id: nat)
    requires var t := Run(cfg, s, steps);
             r in t.replicas && Traced(cfg, s, steps + [ReadAllowlist(r, id)], r, t.replicas[r])
    ensures var u := Next(cfg, Run(cfg, s, steps), ReadAllowlist(r, id));
            r in u.replicas && Traced(cfg, s, steps + [ReadAllowlist(r, id)], r, u.replicas[r])
  {
    var t, longer := Run(cfg, s, steps), steps + [ReadAllowlist(r, id)];
    var u := Next(cfg, t, ReadAllowlist(r, id));
    assert longer[..|steps|] == steps;
    forall k | k in u.replicas[r].readers && u.replicas[r].readers[k].Decided?
      ensures var reader := u.replicas[r].readers[k];
              exists e: nat :: ReadAt(cfg, s, longer, r, k, reader.ip, reader.allowed, e)
    {
      if !(k in t.replicas[r].readers && t.replicas[r].readers[k].Decided?) {
        assert ReadAt(cfg, s, longer, r, k, u.replicas[r].readers[k].ip, u.replicas[r].readers[k].allowed, |steps|);
      }
    }
  }

  /** A fill stores what its request read. */
  lemma {:induction false} FillIsTraced(cfg: Config, s: System, steps: seq<Step>, r: nat, id: nat, now: real)
    requires var t := Run(cfg, s, steps);
             && r in t.replicas && Traced(cfg, s, steps, r, t.replicas[r])
             && Traced(cfg, s, steps + [FillCache(r, id, now)], r, t.replicas[r])
    ensures var u := Next(cfg, Run(cfg, s, steps), FillCache(r, id, now));
            r in u.replicas && Traced(cfg, s, steps + [FillCache(r, id, now)], r, u.replicas[r])
  {
    var t, longer := Run(cfg, s, steps), steps + [FillCache(r, id, now)];
    var rep, after := t.replicas[r], Next(cfg, t, FillCache(r, id, now)).replicas[r];
    if id in rep.readers && rep.readers[id].Decided? {
      var ip := rep.readers[id].ip;
      var e: nat :| ReadAt(cfg, s, steps, r, id, ip, rep.readers[id].allowed, e);
      assert longer[..e] == steps[..e];
      if ip in after.poller.cache.entries && after.poller.cache != rep.poller.cache {
        assert FilledAt(cfg, s, longer, r, ip, after.poller.cache.entries[ip], e, |steps|);
      }
    }
  }

  lemma {:induction false} TracedNext(cfg: Config, s: System, steps: seq<Step>, step: Step, r: nat)
    requires Inv(cfg, Run(cfg, s, steps)) && r in Next(cfg, Run(cfg, s, steps), step).replicas
    requires var t := Run(cfg, s, steps);
             r in t.replicas ==> Traced(cfg, s, steps, r, t.replicas[r])
    ensures Traced(cfg, s, steps + [step], r, Next(cfg, Run(cfg, s, steps), step).replicas[r])
  {
    var t := Run(cfg, s, steps);
    if r in t.replicas {
      OriginStays(cfg, s, steps, step, r, t.replicas[r]);
      if step.ReadAllowlist? && step.replica == r {
        ReadIsTraced(cfg, s, steps, r, step.reader);
      } else if step.FillCache? && step.replica == r {
        FillIsTraced(cfg, s, steps, r, step.reader, step.now);
      } else {
        OthersOnlyForget(cfg, t, step, r);
        ForgettingStaysTraced(cfg, s, steps + [step], r, t.replicas[r], Next(cfg, t, step).replicas[r]);
      }
    } else {
      VersionsKeep(cfg, t, step);
    }
  }

  /** In every run, whatever a replica stores was read and stored by it in that run. */
  lemma {:induction false} EverythingIsTraced(cfg: Config, s: System, steps: seq<Step>, r: nat)
    requires Start(s)
    ensures r in Run(cfg, s, steps).replicas ==> Traced(cfg, s, steps, r, Run(cfg, s, steps).replicas[r])
  {
    if steps != [] {
      var front, step := steps[..|steps| - 1], steps[|steps| - 1];
      assert steps == front + [step];
      EverythingIsTraced(cfg, s, front, r);
      RunKeeps(cfg, s, front);
      if r in Run(cfg, s, steps).replicas {
        TracedNext(cfg, s, front, step, r);
      }
    }
  }

  // ---------------------------------------------------------------------------
  // What that says about every run
  // ---------------------------------------------------------------------------

  /** A request read this decision at step `e` and stored it at step `f`, less than the
      TTL before `now`. */
  ghost predicate ServedFrom(cfg: Config, s: System, steps: seq<Step>, r: nat, ip: string, now: real, decision: bool,
                             e: nat, f: nat) {
    && e < f < |steps| && steps[f].FillCache? && steps[f].replica == r && steps[e] == ReadAllowlist(r, steps[f].reader)
    && now < steps[f].now + cfg.ttlSeconds
    && decision == IsIpAllowed(cfg.normalize, AllowlistAt(cfg, s, steps, e), Some(ip))
  }

  /** The TTL bounds how long a decision is served: a hit at `now` answers as an allowlist
      did that was current when a request read it, and that request stored it less than
      the TTL before `now`.  This holds of every replica, whatever bumps were lost and
      whatever its first poll skipped. */
  lemma {:induction false} HitIsRecent(cfg: Config, s: System, steps: seq<Step>, r: nat, ip: string, now: real)
    requires Start(s) && r in Run(cfg, s, steps).replicas
    requires Lookup(Run(cfg, s, steps).replicas[r].poller.cache, ip, now).Some?
    ensures var decision := Lookup(Run(cfg, s, steps).replicas[r].poller.cache, ip, now).value;
            exists e: nat, f: nat :: ServedFrom(cfg, s, steps, r, ip, now, decision, e, f)
  {
    EverythingIsTraced(cfg, s, steps, r);
    var entry := Run(cfg, s, steps).replicas[r].poller.cache.entries[ip];
    var e: nat, f: nat :| FilledAt(cfg, s, steps, r, ip, entry, e, f);
    assert ServedFrom(cfg, s, steps, r, ip, now, entry.allowed, e, f);
  }

  /** No decision the replica stores, or could still store, has moved since it was read. */
  ghost predicate NothingMoved(cfg: Config, s: System, steps: seq<Step>, r: nat, rep: Replica) {
    var current := Run(cfg, s, steps).allowlist;
    && (forall ip, e: nat, f: nat ::
          ip in rep.poller.cache.entries && FilledAt(cfg, s, steps, r, ip, rep.poller.cache.entries[ip], e, f) ==>
            !Moves(cfg.normalize, AllowlistAt(cfg, s, steps, e), current, ip))
    && (forall id, e: nat ::
          && id in rep.readers && rep.readers[id].Decided? && rep.readers[id].version == rep.poller.cache.version
          && ReadAt(cfg, s, steps, r, id, rep.readers[id].ip, rep.readers[id].allowed, e) ==>
            !Moves(cfg.normalize, AllowlistAt(cfg, s, steps, e), current, rep.readers[id].ip))
  }

  /** In every run, for every replica, whatever it has missed: it agrees with the current
      allowlist if and only if no change since they were read has moved a decision that
      it stores. */
  lemma {:induction false} AgreesExactly(cfg: Config, s: System, steps: seq<Step>, r: nat)
    requires Start(s) && r in Run(cfg, s, steps).replicas
    ensures var t := Run(cfg, s, steps);
            Agrees(cfg, t, t.replicas[r]) <==> NothingMoved(cfg, s, steps, r, t.replicas[r])
  {
    EverythingIsTraced(cfg, s, steps, r);
    var t := Run(cfg, s, steps);
    var rep := t.replicas[r];
    forall ip, e: nat
      ensures e <= |steps| ==>
                (Moves(cfg.normalize, AllowlistAt(cfg, s, steps, e), t.allowlist, ip)
                 <==> IsIpAllowed(cfg.normalize, AllowlistAt(cfg, s, steps, e), Some(ip))
                      != IsIpAllowed(cfg.normalize, t.allowlist, Some(ip)))
    {
      if e <= |steps| {
        MovesExactly(cfg.normalize, AllowlistAt(cfg, s, steps, e), t.allowlist, ip);
      }
    }
    if NothingMoved(cfg, s, steps, r, rep) {
      forall ip | ip in rep.poller.cache.entries
        ensures rep.poller.cache.entries[ip].allowed == IsIpAllowed(cfg.normalize, t.allowlist, Some(ip))
      {
        var e: nat, f: nat :| FilledAt(cfg, s, steps, r, ip, rep.poller.cache.entries[ip], e, f);
      }
    }
  }

  // ---------------------------------------------------------------------------
  // The two ways to miss a change
  // ---------------------------------------------------------------------------

  /** The replica would answer this address from its cache, or could still store an
      answer it has. */
  predicate Stores(rep: Replica, ip: string) {
    || ip in rep.poller.cache.entries
    || exists id :: id in rep.readers && rep.readers[id].Decided? && rep.readers[id].ip == ip
                    && rep.readers[id].version == rep.poller.cache.version
  }

  lemma {:induction false} UnchangedDecisions(cfg: Config, s: System, t: System, before: Replica, after: Replica)
    requires Agrees(cfg, s, before) && after.poller.cache == before.poller.cache && after.readers == before.readers
    ensures Agrees(cfg, t, after)
            <==> forall ip :: Stores(before, ip) ==> !Moves(cfg.normalize, s.allowlist, t.allowlist, ip)
  {
    forall ip
      ensures Moves(cfg.normalize, s.allowlist, t.allowlist, ip)
              <==> (IsIpAllowed(cfg.normalize, s.allowlist, Some(ip))
                    != IsIpAllowed(cfg.normalize, t.allowlist, Some(ip)))
    {
      MovesExactly(cfg.normalize, s.allowlist, t.allowlist, ip);
    }
    if forall ip :: Stores(before, ip) ==> !Moves(cfg.normalize, s.allowlist, t.allowlist, ip) {
      forall ip | ip in after.poller.cache.entries
        ensures after.poller.cache.entries[ip].allowed == IsIpAllowed(cfg.normalize, t.allowlist, Some(ip))
      {
        assert Stores(before, ip);
      }
      forall id | id in after.readers && after.readers[id].Decided?
          && after.readers[id].version == after.poller.cache.version
        ensures after.readers[id].allowed == IsIpAllowed(cfg.normalize, t.allowlist, Some(after.readers[id].ip))
      {
        assert Stores(before, after.readers[id].ip);
      }
    }
  }

  /** A change another replica commits and never announces: a replica that agreed before
      is wrong afterwards if and only if it stores a decision on the changed address; or,
      if the list was or becomes empty, on any other address. */
  lemma {:induction false} LostBumpHarmsExactly(cfg: Config, s: System, r: nat, home: nat, w: nat, change: Change)
    requires r in s.replicas && home in s.replicas && home != r && w !in s.writers && Agrees(cfg, s, s.replicas[r])
    requires Effective(cfg, s.allowlist, change)
    ensures var t := Next(cfg, Next(cfg, Next(cfg, s, Commit(home, w, change)), InvalidateLocally(w)), LoseBump(w));
            var after, n := Changed(cfg, s.allowlist, change).0, cfg.normalize(change.ip);
            && r in t.replicas && t.writers == s.writers && t.versions == s.versions && n.Some?
            && (Agrees(cfg, t, t.replicas[r]) <==>
                  forall ip :: Stores(s.replicas[r], ip) ==> !MovedBy(cfg.normalize, s.allowlist, after, n.value, ip))
  {
    var t1 := Next(cfg, s, Commit(home, w, change));
    var t2 := Next(cfg, t1, InvalidateLocally(w));
    var t := Next(cfg, t2, LoseBump(w));
    assert t2.writers[w] == Writer(home, true);
    assert t.writers == s.writers;
    UnchangedDecisions(cfg, s, t, s.replicas[r], t.replicas[r]);
    forall ip
      ensures cfg.normalize(change.ip).Some?
      ensures Moves(cfg.normalize, s.allowlist, t.allowlist, ip)
              <==> MovedBy(cfg.normalize, s.allowlist, t.allowlist, cfg.normalize(change.ip).value, ip)
    {
      ChangeMovesExactly(cfg, s.allowlist, change, ip);
    }
  }

  /** A first poll, whose callbacks are skipped.  A replica that agreed at step `e` of a
      run, and stores the same decisions at its end, is wrong after a first poll if and
      only if one of them has moved between the two allowlists. */
  lemma {:induction false} FirstPollHarmsExactly(cfg: Config, s: System, steps: seq<Step>, e: nat, r: nat)
    requires Start(s) && e <= |steps|
    requires var a, t := Run(cfg, s, steps[..e]), Run(cfg, s, steps);
             && r in a.replicas && Agrees(cfg, a, a.replicas[r])
             && r in t.replicas && t.replicas[r].poller.cache == a.replicas[r].poller.cache
             && t.replicas[r].readers == a.replicas[r].readers
             && !t.replicas[r].poller.initialized && NAMESPACE_FIREWALL !in t.replicas[r].poller.known
             && t.replicas[r].snapshot.Some?
    ensures var a, t := Run(cfg, s, steps[..e]), Run(cfg, s, steps);
            var u := Next(cfg, t, PollApply(r));
            && r in u.replicas
            && (Agrees(cfg, u, u.replicas[r]) <==>
                  forall ip :: Stores(a.replicas[r], ip) ==> !Moves(cfg.normalize, a.allowlist, t.allowlist, ip))
  {
    var a, t := Run(cfg, s, steps[..e]), Run(cfg, s, steps);
    RunKeeps(cfg, s, steps);
    assert Sound(cfg, t, r, t.replicas[r]);
    PollSeesOneRow(t.replicas[r].poller, t.replicas[r].snapshot.value);
    var u := Next(cfg, t, PollApply(r));
    UnchangedDecisions(cfg, a, u, a.replicas[r], u.replicas[r]);
  }
}
