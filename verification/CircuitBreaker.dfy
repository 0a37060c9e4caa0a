/**
 The circuit breaker.  Its lock makes each of check, success, failure and release
 one atomic step; any number of callers take these steps in any order.
 */
module CircuitBreaker {
  import opened Common

  datatype CircuitState = Closed | Open | HalfOpen

  datatype Config = Config(failureThreshold: int, recoveryTimeout: real, successThreshold: int)

  datatype Breaker = Breaker(
    state: CircuitState,
    failures: int,
    successes: int,
    lastFailure: Option<real>,
    probeInFlight: bool)

  const FreshBreaker := Breaker(Closed, 0, 0, None, false)

  /** The `state` property: an open breaker is shown half-open once it has rested. */
  function Visible(cfg: Config, b: Breaker, now: real): CircuitState {
    if b.state.Open? && b.lastFailure.Some? && now - b.lastFailure.value >= cfg.recoveryTimeout then HalfOpen
    else b.state
  }

  datatype Admission = Rejected | Admitted(isProbe: bool)

  function Check(cfg: Config, b: Breaker, now: real): (Breaker, Admission) {
    match Visible(cfg, b, now)
    case Open => (b, Rejected)
    case HalfOpen => if b.probeInFlight then (b, Rejected) else (b.(probeInFlight := true), Admitted(true))
    case Closed => (b, Admitted(false))
  }

  function SuccessRecorded(cfg: Config, b: Breaker, now: real): Breaker {
    match Visible(cfg, b, now)
    case HalfOpen =>
      if b.successes + 1 >= cfg.successThreshold then b.(state := Closed, failures := 0, successes := 0)
      else b.(successes := b.successes + 1)
    case Closed => b.(failures := if b.failures > 0 then 0 else b.failures)
    case Open => b
  }

  function ServerErrorRecorded(cfg: Config, b: Breaker, now: real): Breaker {
    b.(failures := b.failures + 1, lastFailure := Some(now), successes := 0,
       state := if b.failures + 1 >= cfg.failureThreshold then Open else b.state)
  }

  /** What a call can raise, as far as the breaker looks at it. */
  datatype Failure =
    | ClientResponseError(status: int)
    | TimedOut
    | WithStatusCode(code: int)
    | OtherError

  predicate IsServerError(exc: Failure) {
    match exc
    case ClientResponseError(status) => status >= 500
    case TimedOut => true
    case WithStatusCode(code) => code >= 500
    case OtherError => true
  }

  /** A timeout, an error without a status, or a status of at least 500. */
  predicate Counts(exc: Failure) {
    || exc.TimedOut? || exc.OtherError?
    || (exc.ClientResponseError? && exc.status >= 500)
    || (exc.WithStatusCode? && exc.code >= 500)
  }

  class CircuitBreaker {
    const cfg: Config
    var state: CircuitState
    var failureCount: int
    var successCount: int
    var lastFailureTime: Option<real>
    var halfOpenProbeInFlight: bool

    ghost function View(): Breaker
      reads this
    {
      Breaker(state, failureCount, successCount, lastFailureTime, halfOpenProbeInFlight)
    }

    constructor (cfg: Config)
      ensures this.cfg == cfg && View() == FreshBreaker
    {
      this.cfg := cfg;
      state := Closed;
      failureCount, successCount := 0, 0;
      lastFailureTime := None;
      halfOpenProbeInFlight := false;
    }

    method State(now: real) returns (current: CircuitState)
      ensures current == Visible(cfg, View(), now)
    {
      if state.Open? && lastFailureTime.Some? && now - lastFailureTime.value >= cfg.recoveryTimeout {
        return HalfOpen;
      }
      return state;
    }

    method PreCallCheck(now: real) returns (admission: Admission)
      modifies this
      ensures (View(), admission) == Check(cfg, old(View()), now)
    {
      var current := State(now);
      if current.Open? {
        return Rejected;
      }
      if current.HalfOpen? {
        if halfOpenProbeInFlight {
          return Rejected;
        }
        halfOpenProbeInFlight := true;
        return Admitted(true);
      }
      return Admitted(false);
    }

    method ReleaseHalfOpenProbe()
      modifies this
      ensures View() == old(View()).(probeInFlight := false)
    {
      halfOpenProbeInFlight := false;
    }

    /** The source reads the clock twice; the second reading makes no difference. */
    method RecordSuccess(now: real, later: real)
      requires now <= later
      modifies this
      ensures View() == SuccessRecorded(cfg, old(View()), now)
    {
      var current := State(now);
      if current.HalfOpen? {
        successCount := successCount + 1;
        if successCount >= cfg.successThreshold {
          state := Closed;
          failureCount := 0;
          successCount := 0;
        }
      } else {
        current := State(later);
        if current.Closed? && failureCount > 0 {
          failureCount := 0;
        }
      }
    }

    method RecordFailure(exc: Failure, now: real)
      modifies this
      ensures View() == if IsServerError(exc) then ServerErrorRecorded(cfg, old(View()), now) else old(View())
      ensures !Counts(exc) ==> View() == old(View())
      ensures Counts(exc) ==>
                && failureCount == old(failureCount) + 1 && successCount == 0 && lastFailureTime == Some(now)
                && state == (if failureCount >= cfg.failureThreshold then Open else old(state))
                && halfOpenProbeInFlight == old(halfOpenProbeInFlight)
    {
      if !IsServerError(exc) {
        return;
      }
      failureCount := failureCount + 1;
      lastFailureTime := Some(now);
      successCount := 0;
      if failureCount >= cfg.failureThreshold {
        state := Open;
      }
    }
  }

  // ---------------------------------------------------------------------------
  // Concurrent callers and the history of what they recorded
  // ---------------------------------------------------------------------------

  /** A caller inside `call`: its request is running, or it is a probe whose request
      is over and whose `finally` has yet to release the probe. */
  datatype Caller = Running(isProbe: bool) | Releasing

  datatype Event = Success(at: real) | ServerError(at: real)

  datatype System = System(breaker: Breaker, callers: map<nat, Caller>, history: seq<Event>, clock: real)

  /** `Cancel` is a call that ends by cancellation, which records nothing. */
  datatype Step =
    | Enter(caller: nat, at: real)
    | Succeed(caller: nat, at: real)
    | Fail(caller: nat, at: real, exc: Failure)
    | Cancel(caller: nat, at: real)
    | Release(caller: nat, at: real)

  function Leave(s: System, c: nat): map<nat, Caller>
    requires c in s.callers
  {
    if s.callers[c] == Running(true) then s.callers[c := Releasing] else s.callers - {c}
  }

  /** A step that is not enabled, or that would turn the clock back, does nothing. */
  function Next(cfg: Config, s: System, step: Step): System {
    var c, at := step.caller, step.at;
    if at < s.clock then s
    else if step.Enter? then
      var (b, admission) := Check(cfg, s.breaker, at);
      if c in s.callers || admission.Rejected? then s.(clock := at)
      else System(b, s.callers[c := Running(admission.isProbe)], s.history, at)
    else if c !in s.callers then s
    else if step.Release? then
      if s.callers[c].Releasing? then System(s.breaker.(probeInFlight := false), s.callers - {c}, s.history, at) else s
    else if !s.callers[c].Running? then s
    else
      match step
      case Succeed(_, _) => System(SuccessRecorded(cfg, s.breaker, at), Leave(s, c), s.history + [Success(at)], at)
      case Fail(_, _, exc) =>
        if IsServerError(exc) then
          System(ServerErrorRecorded(cfg, s.breaker, at), Leave(s, c), s.history + [ServerError(at)], at)
        else System(s.breaker, Leave(s, c), s.history, at)
      case Cancel(_, _) => System(s.breaker, Leave(s, c), s.history, at)
  }

  function Run(cfg: Config, s: System, steps: seq<Step>): System {
    if steps == [] then s else Next(cfg, Run(cfg, s, steps[..|steps| - 1]), steps[|steps| - 1])
  }

  function Init(clock: real): System {
    System(FreshBreaker, map[], [], clock)
  }

  /** Server errors recorded since the last recorded success. */
  function TrailingErrors(h: seq<Event>): nat {
    ErrorsAt(h, |h|)
  }

  function LastError(h: seq<Event>): Option<real> {
    LastErrorAt(h, |h|)
  }

  /** Successes since the latest server error that came a full recovery timeout
      after it, which is when an open breaker shows as half-open. */
  function RecoverySuccesses(cfg: Config, h: seq<Event>): nat {
    RecoveriesAt(cfg, h, |h|)
  }

  // The same, after the first `n` events.

  function ErrorsAt(h: seq<Event>, n: nat): nat
    requires n <= |h|
  {
    if n == 0 || h[n - 1].Success? then 0 else ErrorsAt(h, n - 1) + 1
  }

  function LastErrorAt(h: seq<Event>, n: nat): Option<real>
    requires n <= |h|
  {
    if n == 0 then None else if h[n - 1].ServerError? then Some(h[n - 1].at) else LastErrorAt(h, n - 1)
  }

  function RecoveriesAt(cfg: Config, h: seq<Event>, n: nat): nat
    requires n <= |h|
  {
    if n == 0 || h[n - 1].ServerError? then 0
    else
      RecoveriesAt(cfg, h, n - 1)
      + (if LastErrorAt(h, n - 1).Some? && h[n - 1].at - LastErrorAt(h, n - 1).value >= cfg.recoveryTimeout
         then 1 else 0)
  }

  lemma {:induction false} HistoryPrefix(cfg: Config, g: seq<Event>, h: seq<Event>, n: nat)
    requires n <= |g| && n <= |h| && forall k :: 0 <= k < n ==> g[k] == h[k]
    ensures ErrorsAt(g, n) == ErrorsAt(h, n) && LastErrorAt(g, n) == LastErrorAt(h, n)
    ensures RecoveriesAt(cfg, g, n) == RecoveriesAt(cfg, h, n)
  {
    if n > 0 {
      HistoryPrefix(cfg, g, h, n - 1);
    }
  }

  predicate Sane(cfg: Config) {
    cfg.failureThreshold >= 1 && cfg.successThreshold >= 1
  }

  /** The counters say nothing the history does not. */
  predicate Refines(cfg: Config, b: Breaker, h: seq<Event>) {
    && !b.state.HalfOpen?
    && b.lastFailure == LastError(h)
    && (b.state.Closed? ==>
          b.failures == TrailingErrors(h) && b.failures < cfg.failureThreshold && b.successes == 0)
    && (b.state.Open? ==>
          && b.failures >= cfg.failureThreshold
          && b.lastFailure.Some?
          && b.successes == RecoverySuccesses(cfg, h)
          && b.successes < cfg.successThreshold)
  }

  predicate IsProbe(s: System, c: nat) {
    c in s.callers && (s.callers[c] == Running(true) || s.callers[c].Releasing?)
  }

  ghost predicate ProbeInv(s: System) {
    && (s.breaker.probeInFlight <==> exists c :: IsProbe(s, c))
    && (forall c, d :: IsProbe(s, c) && IsProbe(s, d) ==> c == d)
  }

  ghost predicate Inv(cfg: Config, s: System) {
    && Refines(cfg, s.breaker, s.history)
    && (s.breaker.lastFailure.Some? ==> s.breaker.lastFailure.value <= s.clock)
    && ProbeInv(s)
  }

  lemma {:induction false} HistorySnoc(cfg: Config, h: seq<Event>, e: Event)
    ensures TrailingErrors(h + [e]) == if e.Success? then 0 else TrailingErrors(h) + 1
    ensures LastError(h + [e]) == if e.ServerError? then Some(e.at) else LastError(h)
    ensures RecoverySuccesses(cfg, h + [e])
            == if e.ServerError? then 0
               else RecoverySuccesses(cfg, h)
                    + (if LastError(h).Some? && e.at - LastError(h).value >= cfg.recoveryTimeout then 1 else 0)
  {
    HistoryPrefix(cfg, h, h + [e], |h|);
  }

  lemma {:induction false} ProbeNext(cfg: Config, s: System, step: Step)
    requires ProbeInv(s)
    ensures ProbeInv(Next(cfg, s, step))
  {
    var t := Next(cfg, s, step);
    var c := step.caller;
    assert forall d :: d != c ==> (IsProbe(t, d) <==> IsProbe(s, d));
    assert c in s.callers && s.callers[c].Releasing? ==> IsProbe(s, c);
    if s.breaker.probeInFlight {
      var p :| IsProbe(s, p);
      assert forall d :: IsProbe(t, d) ==> IsProbe(s, d);
      assert t.breaker.probeInFlight <==> IsProbe(t, p);
    } else {
      assert !IsProbe(s, c);
      assert t.breaker.probeInFlight <==> IsProbe(t, c);
    }
  }

  lemma {:induction false} NextKeeps(cfg: Config, s: System, step: Step)
    requires Sane(cfg) && Inv(cfg, s)
    ensures Inv(cfg, Next(cfg, s, step))
  {
    ProbeNext(cfg, s, step);
    HistorySnoc(cfg, s.history, Success(step.at));
    HistorySnoc(cfg, s.history, ServerError(step.at));
  }

  lemma {:induction false} RunKeeps(cfg: Config, clock: real, steps: seq<Step>)
    requires Sane(cfg)
    ensures Inv(cfg, Run(cfg, Init(clock), steps))
  {
    if steps == [] {
      assert forall c :: !IsProbe(Init(clock), c);
    } else {
      RunKeeps(cfg, clock, steps[..|steps| - 1]);
      NextKeeps(cfg, Run(cfg, Init(clock), steps[..|steps| - 1]), steps[|steps| - 1]);
    }
  }

  /** In every interleaving the counters are functions of the recorded history, the
      stored state is never half-open, and closed and open keep their thresholds. */
  lemma {:induction false} CountersRefineHistory(cfg: Config, clock: real, steps: seq<Step>)
    requires Sane(cfg)
    ensures var s := Run(cfg, Init(clock), steps);
            Refines(cfg, s.breaker, s.history)
  {
    RunKeeps(cfg, clock, steps);
  }

  /** At most one probe is outstanding, exactly when the flag says so. */
  lemma {:induction false} AtMostOneProbe(cfg: Config, clock: real, steps: seq<Step>, c: nat, d: nat)
    requires Sane(cfg)
    ensures var s := Run(cfg, Init(clock), steps);
            && (IsProbe(s, c) && IsProbe(s, d) ==> c == d)
            && (s.breaker.probeInFlight <==> exists p :: IsProbe(s, p))
  {
    RunKeeps(cfg, clock, steps);
  }

  lemma {:induction false} NextTransitions(cfg: Config, s: System, step: Step)
    requires Sane(cfg) && Refines(cfg, s.breaker, s.history)
    ensures var t := Next(cfg, s, step);
            && (s.breaker.state.Closed? ==>
                  (t.breaker.state.Open? <==> TrailingErrors(t.history) >= cfg.failureThreshold))
            && (s.breaker.state.Open? ==>
                  (t.breaker.state.Closed? <==> RecoverySuccesses(cfg, t.history) >= cfg.successThreshold))
  {
    HistorySnoc(cfg, s.history, Success(step.at));
    HistorySnoc(cfg, s.history, ServerError(step.at));
  }

  /** The breaker opens exactly on the server error that completes a run of
      `failureThreshold` errors without a success, and closes exactly on the success
      that completes `successThreshold` half-open successes since the latest error. */
  lemma {:induction false} TransitionsFollowHistory(cfg: Config, clock: real, steps: seq<Step>, step: Step)
    requires Sane(cfg)
    ensures var s := Run(cfg, Init(clock), steps);
            var t := Next(cfg, s, step);
            && (s.breaker.state.Closed? ==>
                  (t.breaker.state.Open? <==> TrailingErrors(t.history) >= cfg.failureThreshold))
            && (s.breaker.state.Open? ==>
                  (t.breaker.state.Closed? <==> RecoverySuccesses(cfg, t.history) >= cfg.successThreshold))
  {
    RunKeeps(cfg, clock, steps);
    NextTransitions(cfg, Run(cfg, Init(clock), steps), step);
  }

  // ---------------------------------------------------------------------------
  // Which failures count, and who is admitted
  // ---------------------------------------------------------------------------

  predicate Happens(s: System, step: Step) {
    step.at >= s.clock && step.caller in s.callers && s.callers[step.caller].Running?
  }

  /** A failure goes on record if and only if it counts; otherwise it leaves the breaker
      as it was. */
  lemma {:induction false} FailureCountsExactly(cfg: Config, s: System, c: nat, at: real, exc: Failure)
    requires Happens(s, Fail(c, at, exc))
    ensures var t := Next(cfg, s, Fail(c, at, exc));
            && (t.history == s.history + [ServerError(at)] <==> Counts(exc))
            && (!Counts(exc) ==> t.history == s.history && t.breaker == s.breaker)
  {
    assert |s.history + [ServerError(at)]| != |s.history|;
  }

  /** How many failures that count happen in `steps`, from `s` on. */
  function CountedFailures(cfg: Config, s: System, steps: seq<Step>): nat {
    if steps == [] then 0
    else
      var front, step := steps[..|steps| - 1], steps[|steps| - 1];
      CountedFailures(cfg, s, front)
      + (if step.Fail? && Counts(step.exc) && Happens(Run(cfg, s, front), step) then 1 else 0)
  }

  lemma {:induction false} FailuresPileUp(cfg: Config, s: System, steps: seq<Step>)
    requires forall i :: 0 <= i < |steps| ==> !steps[i].Succeed?
    ensures TrailingErrors(Run(cfg, s, steps).history) == TrailingErrors(s.history) + CountedFailures(cfg, s, steps)
  {
    if steps != [] {
      var front, step := steps[..|steps| - 1], steps[|steps| - 1];
      FailuresPileUp(cfg, s, front);
      HistorySnoc(cfg, Run(cfg, s, front).history, ServerError(step.at));
    }
  }

  /** In every run: `failureThreshold` failures that count, with no success between them
      and whatever else, leave the breaker open. */
  lemma {:induction false} FailuresInARowOpen(cfg: Config, clock: real, before: seq<Step>, steps: seq<Step>)
    requires Sane(cfg) && forall i :: 0 <= i < |steps| ==> !steps[i].Succeed?
    requires CountedFailures(cfg, Run(cfg, Init(clock), before), steps) >= cfg.failureThreshold
    ensures Run(cfg, Run(cfg, Init(clock), before), steps).breaker.state.Open?
  {
    var s := Run(cfg, Init(clock), before);
    RunKeeps(cfg, clock, before);
    RunFromKeeps(cfg, s, steps);
    FailuresPileUp(cfg, s, steps);
  }

  lemma {:induction false} RunFromKeeps(cfg: Config, s: System, steps: seq<Step>)
    requires Sane(cfg) && Inv(cfg, s)
    ensures Inv(cfg, Run(cfg, s, steps))
  {
    if steps != [] {
      RunFromKeeps(cfg, s, steps[..|steps| - 1]);
      NextKeeps(cfg, Run(cfg, s, steps[..|steps| - 1]), steps[|steps| - 1]);
    }
  }

  /** In every run a newcomer is admitted if and only if the breaker is closed, or the
      latest server error is a full recovery timeout ago and no probe is outstanding;
      in the second case as the probe. */
  lemma {:induction false} AdmissionExactly(cfg: Config, clock: real, steps: seq<Step>, c: nat, at: real)
    requires Sane(cfg)
    requires var s := Run(cfg, Init(clock), steps);
             c !in s.callers && at >= s.clock
    ensures var s := Run(cfg, Init(clock), steps);
            var t := Next(cfg, s, Enter(c, at));
            var rested := LastError(s.history).Some? && at - LastError(s.history).value >= cfg.recoveryTimeout;
            && (c in t.callers <==> s.breaker.state.Closed? || (rested && forall p :: !IsProbe(s, p)))
            && (c in t.callers ==> t.callers[c] == Running(!s.breaker.state.Closed?))
  {
    RunKeeps(cfg, clock, steps);
  }

  /** The run in which every client error is a cancelled call instead. */
  function IgnoringClientErrors(steps: seq<Step>): seq<Step> {
    seq(|steps|, i requires 0 <= i < |steps| =>
      if steps[i].Fail? && ((steps[i].exc.ClientResponseError? && steps[i].exc.status < 500)
                            || (steps[i].exc.WithStatusCode? && steps[i].exc.code < 500))
      then Cancel(steps[i].caller, steps[i].at) else steps[i])
  }

  /** Upstream answers below 500 leave no trace in any run. */
  lemma {:induction false} ClientErrorsLeaveNoTrace(cfg: Config, s: System, steps: seq<Step>)
    ensures Run(cfg, s, IgnoringClientErrors(steps)) == Run(cfg, s, steps)
  {
    if steps != [] {
      var n := |steps| - 1;
      assert IgnoringClientErrors(steps)[..n] == IgnoringClientErrors(steps[..n]);
      ClientErrorsLeaveNoTrace(cfg, s, steps[..n]);
    }
  }

  // ---------------------------------------------------------------------------
  // A server error keeps everyone out for the whole recovery timeout
  // ---------------------------------------------------------------------------

  predicate RestingSince(s: System, since: real) {
    s.breaker.state.Open? && s.breaker.lastFailure.Some? && since <= s.breaker.lastFailure.value
  }

  lemma {:induction false} RestingRun(cfg: Config, s: System, since: real, steps: seq<Step>)
    requires Sane(cfg) && Inv(cfg, s) && RestingSince(s, since)
    requires forall i :: 0 <= i < |steps| ==> steps[i].at < since + cfg.recoveryTimeout
    ensures Inv(cfg, Run(cfg, s, steps)) && RestingSince(Run(cfg, s, steps), since)
  {
    if steps != [] {
      var front := steps[..|steps| - 1];
      RestingRun(cfg, s, since, front);
      NextKeeps(cfg, Run(cfg, s, front), steps[|steps| - 1]);
    }
  }

  /** Every attempt to enter in that time is refused: the callers inside are the same
      before and after it. */
  lemma {:induction false} NobodyEntersWhileResting(cfg: Config, s: System, since: real, steps: seq<Step>, i: nat)
    requires Sane(cfg) && Inv(cfg, s) && RestingSince(s, since)
    requires forall k :: 0 <= k < |steps| ==> steps[k].at < since + cfg.recoveryTimeout
    requires i < |steps| && steps[i].Enter?
    ensures Run(cfg, s, steps[..i + 1]).callers == Run(cfg, s, steps[..i]).callers
  {
    RestingRun(cfg, s, since, steps[..i]);
    assert steps[..i + 1][..i] == steps[..i];
  }

  /** A server error recorded at `at` while the breaker is open or half-open: in
      every continuation the breaker stays open until `at + recoveryTimeout`, and
      every attempt to enter before then is refused. */
  lemma {:induction false} ServerErrorBlocksAdmission(cfg: Config, clock: real, before: seq<Step>, c: nat, at: real,
                                                      exc: Failure, after: seq<Step>)
    requires Sane(cfg) && IsServerError(exc)
    requires var s := Run(cfg, Init(clock), before);
             s.breaker.state.Open? && at >= s.clock && c in s.callers && s.callers[c].Running?
    requires forall i :: 0 <= i < |after| ==> after[i].at < at + cfg.recoveryTimeout
    ensures var s := Next(cfg, Run(cfg, Init(clock), before), Fail(c, at, exc));
            && Run(cfg, s, after).breaker.state.Open?
            && forall i :: 0 <= i < |after| && after[i].Enter? ==>
                 Run(cfg, s, after[..i + 1]).callers == Run(cfg, s, after[..i]).callers
  {
    RunKeeps(cfg, clock, before);
    NextKeeps(cfg, Run(cfg, Init(clock), before), Fail(c, at, exc));
    var s := Next(cfg, Run(cfg, Init(clock), before), Fail(c, at, exc));
    RestingRun(cfg, s, at, after);
    forall i | 0 <= i < |after| && after[i].Enter?
      ensures Run(cfg, s, after[..i + 1]).callers == Run(cfg, s, after[..i]).callers
    {
      NobodyEntersWhileResting(cfg, s, at, after, i);
    }
  }

  /** And afterwards, with no probe outstanding, the next caller gets in as one. */
  lemma {:induction false} RestedBreakerAdmitsOneProbe(cfg: Config, clock: real, steps: seq<Step>, c: nat, d: nat,
                                                       at: real, later: real)
    requires Sane(cfg) && c != d && at <= later
    requires var s := Run(cfg, Init(clock), steps);
             && s.breaker.state.Open? && c !in s.callers && d !in s.callers && at >= s.clock
             && at - s.breaker.lastFailure.GetOr(at) >= cfg.recoveryTimeout
             && forall p :: !IsProbe(s, p)
    ensures var s := Run(cfg, Init(clock), steps);
            var t := Next(cfg, s, Enter(c, at));
            && t.callers == s.callers[c := Running(true)]
            && Next(cfg, t, Enter(d, later)).callers == t.callers
  {
    RunKeeps(cfg, clock, steps);
  }

  /** A call admitted while closed may end while half-open, and its success then
      counts: with a success threshold of one it closes the breaker. */
  lemma {:induction false} SuccessAdmittedWhileClosedCounts(cfg: Config, s: System, c: nat, at: real)
    requires Sane(cfg) && Inv(cfg, s) && s.clock <= at
    requires c in s.callers && s.callers[c] == Running(false)
    requires Visible(cfg, s.breaker, at).HalfOpen?
    ensures var t := Next(cfg, s, Succeed(c, at));
            && RecoverySuccesses(cfg, t.history) == RecoverySuccesses(cfg, s.history) + 1
            && (t.breaker.state.Closed? <==> RecoverySuccesses(cfg, t.history) >= cfg.successThreshold)
  {
    HistorySnoc(cfg, s.history, Success(at));
  }
}
