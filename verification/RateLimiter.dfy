/**
 The database rate limiter: attempts are rows, decisions are counts over a sliding
 window.  Times are microseconds, so a row may fall anywhere inside a second.
 */
module RateLimiter {
  import opened Common
  import opened SlidingWindow

  /** Microseconds in `n` seconds. */
  function Seconds(n: int): int {
    n * 1_000_000
  }

  datatype Attempt = Attempt(key: string, kind: string, at: int)

  /** The source refuses to build a limiter whose numbers are not positive. */
  datatype Limiter = Limiter(maxAttempts: int, windowSeconds: int, kind: string) {
    predicate Valid() {
      maxAttempts >= 1 && windowSeconds >= 1
    }

    function Window(): int {
      Seconds(windowSeconds)
    }
  }

  datatype Decision = Recorded | Refused(retryAfter: int)

  /** The times recorded for one key and kind, in the order they were inserted. */
  function Times(rows: seq<Attempt>, key: string, kind: string): seq<int> {
    FirstTimes(rows, |rows|, key, kind)
  }

  function FirstTimes(rows: seq<Attempt>, n: nat, key: string, kind: string): seq<int>
    requires n <= |rows|
  {
    if n == 0 then []
    else
      var row := rows[n - 1];
      FirstTimes(rows, n - 1, key, kind) + (if row.key == key && row.kind == kind then [row.at] else [])
  }

  function Minimum(ts: seq<int>): (m: int)
    requires ts != []
    ensures m in ts && forall t :: t in ts ==> m <= t
  {
    FirstMinimum(ts, |ts|)
  }

  function FirstMinimum(ts: seq<int>, n: nat): (m: int)
    requires 1 <= n <= |ts|
    ensures m in ts && forall i :: 0 <= i < n ==> m <= ts[i]
  {
    if n == 1 then ts[0]
    else
      var m := FirstMinimum(ts, n - 1);
      if ts[n - 1] < m then ts[n - 1] else m
  }

  /** Python's `int(...)` of a duration in seconds: towards zero. */
  function WholeSeconds(duration: int): int {
    if duration >= 0 then duration / 1_000_000 else -(-duration / 1_000_000)
  }

  function RetryAfter(l: Limiter, recent: seq<int>, now: int): int {
    if recent == [] then l.windowSeconds
    else Max(1, WholeSeconds(Minimum(recent) + l.Window() - now))
  }

  /** The guard of the insert: the count has no upper time bound. */
  predicate HasRoom(l: Limiter, ts: seq<int>, now: int) {
    |From(ts, now - l.Window())| < l.maxAttempts
  }

  /** The guarded insert of `check_and_increment`, for the times of one key. */
  function Decide(l: Limiter, ts: seq<int>, now: int): Decision {
    if HasRoom(l, ts, now) then Recorded else Refused(RetryAfter(l, From(ts, now - l.Window()), now))
  }

  function Incremented(l: Limiter, rows: seq<Attempt>, key: string, now: int): seq<Attempt> {
    if HasRoom(l, Times(rows, key, l.kind), now) then rows + [Attempt(key, l.kind, now)] else rows
  }

  function Cleared(rows: seq<Attempt>, key: string, kind: string): seq<Attempt> {
    if rows == [] then []
    else
      var last := rows[|rows| - 1];
      Cleared(rows[..|rows| - 1], key, kind) + (if last.key == key && last.kind == kind then [] else [last])
  }

  function CleanedUp(rows: seq<Attempt>, cutoff: int): seq<Attempt> {
    if rows == [] then []
    else CleanedUp(rows[..|rows| - 1], cutoff) + (if rows[|rows| - 1].at < cutoff then [] else [rows[|rows| - 1]])
  }

  class AttemptTable {
    var rows: seq<Attempt>
  }

  class DatabaseRateLimiter {
    const limiter: Limiter

    constructor (limiter: Limiter)
      requires limiter.Valid()
      ensures this.limiter == limiter
    {
      this.limiter := limiter;
    }

    /** Read-only; the source reads the clock again for the hint.  It raises exactly
        when an attempt at the same instant would be refused. */
    method Check(table: AttemptTable, key: string, now: int, later: int) returns (retryAfter: Option<int>)
      ensures retryAfter.None? <==> HasRoom(limiter, Times(table.rows, key, limiter.kind), now)
      ensures retryAfter.Some? ==>
                var recent := From(Times(table.rows, key, limiter.kind), now - limiter.Window());
                retryAfter.value == RetryAfter(limiter, recent, later)
      ensures retryAfter.Some? && later == now ==>
                Decide(limiter, Times(table.rows, key, limiter.kind), now) == Refused(retryAfter.value)
    {
      var recent := From(Times(table.rows, key, limiter.kind), now - limiter.Window());
      if |recent| >= limiter.maxAttempts {
        return Some(RetryAfter(limiter, recent, later));
      }
      return None;
    }

    method CheckAndIncrement(table: AttemptTable, key: string, now: int) returns (decision: Decision)
      modifies table
      ensures decision == Decide(limiter, Times(old(table.rows), key, limiter.kind), now)
      ensures table.rows == Incremented(limiter, old(table.rows), key, now)
    {
      var windowStart := now - limiter.Window();
      var recent := From(Times(table.rows, key, limiter.kind), windowStart);
      if |recent| < limiter.maxAttempts {
        table.rows := table.rows + [Attempt(key, limiter.kind, now)];
        return Recorded;
      }
      return Refused(RetryAfter(limiter, recent, now));
    }

    method ClearForKey(table: AttemptTable, key: string)
      modifies table
      ensures table.rows == Cleared(old(table.rows), key, limiter.kind)
      ensures Times(table.rows, key, limiter.kind) == []
    {
      ClearedTimes(table.rows, key, limiter.kind, key, limiter.kind);
      table.rows := Cleared(table.rows, key, limiter.kind);
    }

    method Cleanup(table: AttemptTable, now: int, olderThanSeconds: int)
      modifies table
      ensures table.rows == CleanedUp(old(table.rows), now - Seconds(olderThanSeconds))
      ensures forall key, kind ::
                Times(table.rows, key, kind) == From(Times(old(table.rows), key, kind), now - Seconds(olderThanSeconds))
    {
      forall key, kind
        ensures Times(CleanedUp(table.rows, now - Seconds(olderThanSeconds)), key, kind)
                == From(Times(table.rows, key, kind), now - Seconds(olderThanSeconds))
      {
        CleanedUpTimes(table.rows, now - Seconds(olderThanSeconds), key, kind);
      }
      table.rows := CleanedUp(table.rows, now - Seconds(olderThanSeconds));
    }
  }

  // ---------------------------------------------------------------------------
  // What each operation does to the times of one key
  // ---------------------------------------------------------------------------

  lemma {:induction false} FirstTimesPrefix(a: seq<Attempt>, b: seq<Attempt>, n: nat, key: string, kind: string)
    requires n <= |a| && n <= |b| && forall i :: 0 <= i < n ==> a[i] == b[i]
    ensures FirstTimes(a, n, key, kind) == FirstTimes(b, n, key, kind)
  {
    if n > 0 {
      FirstTimesPrefix(a, b, n - 1, key, kind);
    }
  }

  lemma {:induction false} TimesSnoc(rows: seq<Attempt>, a: Attempt, key: string, kind: string)
    ensures Times(rows + [a], key, kind)
            == Times(rows, key, kind) + (if a.key == key && a.kind == kind then [a.at] else [])
  {
    FirstTimesPrefix(rows, rows + [a], |rows|, key, kind);
  }

  lemma {:induction false} ClearedTimes(rows: seq<Attempt>, key: string, kind: string, otherKey: string,
                                        otherKind: string)
    ensures Times(Cleared(rows, key, kind), otherKey, otherKind)
            == if otherKey == key && otherKind == kind then [] else Times(rows, otherKey, otherKind)
  {
    if rows != [] {
      var front, last := rows[..|rows| - 1], rows[|rows| - 1];
      ClearedTimes(front, key, kind, otherKey, otherKind);
      assert rows == front + [last];
      TimesSnoc(front, last, otherKey, otherKind);
      TimesSnoc(Cleared(front, key, kind), last, otherKey, otherKind);
      assert Cleared(front, key, kind) + [] == Cleared(front, key, kind);
    }
  }

  lemma {:induction false} CleanedUpTimes(rows: seq<Attempt>, cutoff: int, key: string, kind: string)
    ensures Times(CleanedUp(rows, cutoff), key, kind) == From(Times(rows, key, kind), cutoff)
  {
    if rows != [] {
      var front, last := rows[..|rows| - 1], rows[|rows| - 1];
      CleanedUpTimes(front, cutoff, key, kind);
      assert rows == front + [last];
      TimesSnoc(front, last, key, kind);
      TimesSnoc(CleanedUp(front, cutoff), last, key, kind);
      FromSnoc(Times(front, key, kind), last.at, cutoff);
      assert CleanedUp(front, cutoff) + [] == CleanedUp(front, cutoff);
      assert Times(front, key, kind) + [] == Times(front, key, kind);
    }
  }

  // ---------------------------------------------------------------------------
  // No window ever holds too many attempts
  // ---------------------------------------------------------------------------

  datatype Step =
    | Try(limiter: Limiter, key: string, at: int)
    | Clear(key: string, kind: string, at: int)
    | Cleanup(olderThanSeconds: int, at: int)

  datatype System = System(rows: seq<Attempt>, decisions: seq<Decision>)

  function Next(s: System, step: Step): System {
    match step
    case Try(l, key, at) =>
      System(Incremented(l, s.rows, key, at), s.decisions + [Decide(l, Times(s.rows, key, l.kind), at)])
    case Clear(key, kind, _) => s.(rows := Cleared(s.rows, key, kind))
    case Cleanup(older, at) => s.(rows := CleanedUp(s.rows, at - Seconds(older)))
  }

  function Run(s: System, steps: seq<Step>): System {
    if steps == [] then s else Next(Run(s, steps[..|steps| - 1]), steps[|steps| - 1])
  }

  const Empty := System([], [])

  /** `l` is the only limiter of its kind, and nothing is cleaned up. */
  predicate Exclusive(l: Limiter, steps: seq<Step>) {
    OnlyOfItsKind(l, steps) && forall i :: 0 <= i < |steps| ==> !steps[i].Cleanup?
  }

  predicate OnlyOfItsKind(l: Limiter, steps: seq<Step>) {
    forall i :: 0 <= i < |steps| && steps[i].Try? && steps[i].limiter.kind == l.kind ==> steps[i].limiter == l
  }

  /** One step, seen from one key and kind. */
  function TimesAfter(ts: seq<int>, step: Step, key: string, kind: string): seq<int> {
    match step
    case Try(l, k, at) => if k == key && l.kind == kind && HasRoom(l, ts, at) then ts + [at] else ts
    case Clear(k, d, _) => if k == key && d == kind then [] else ts
    case Cleanup(older, at) => From(ts, at - Seconds(older))
  }

  /** Keys and kinds do not interfere. */
  lemma {:induction false} TimesNext(s: System, step: Step, key: string, kind: string)
    ensures Times(Next(s, step).rows, key, kind) == TimesAfter(Times(s.rows, key, kind), step, key, kind)
  {
    match step
    case Try(l, k, at) => TimesSnoc(s.rows, Attempt(k, l.kind, at), key, kind);
    case Clear(k, d, _) => ClearedTimes(s.rows, k, d, key, kind);
    case Cleanup(older, at) => CleanedUpTimes(s.rows, at - Seconds(older), key, kind);
  }

  lemma {:induction false} GuardedAfter(l: Limiter, ts: seq<int>, step: Step, key: string)
    requires Guarded(l.maxAttempts, l.Window(), ts)
    requires !step.Cleanup? && (step.Try? && step.limiter.kind == l.kind ==> step.limiter == l)
    ensures Guarded(l.maxAttempts, l.Window(), TimesAfter(ts, step, key, l.kind))
  {
    if step.Try? && step.key == key && step.limiter == l && HasRoom(l, ts, step.at) {
      GuardedSnoc(l.maxAttempts, l.Window(), ts, step.at);
    }
  }

  lemma {:induction false} GuardedRun(l: Limiter, steps: seq<Step>, key: string)
    requires Exclusive(l, steps)
    ensures Guarded(l.maxAttempts, l.Window(), Times(Run(Empty, steps).rows, key, l.kind))
  {
    if steps != [] {
      var front, step := steps[..|steps| - 1], steps[|steps| - 1];
      GuardedRun(l, front, key);
      TimesNext(Run(Empty, front), step, key, l.kind);
      GuardedAfter(l, Times(Run(Empty, front).rows, key, l.kind), step, key);
    }
  }

  /** In every run, with timestamps in any order: between clears of a key no closed
      interval as long as the window holds more than `maxAttempts` attempts. */
  lemma {:induction false} WindowIsNeverOverfull(l: Limiter, steps: seq<Step>, key: string, lo: int)
    requires l.Valid() && Exclusive(l, steps)
    ensures Within(Times(Run(Empty, steps).rows, key, l.kind), lo, lo + l.Window()) <= l.maxAttempts
  {
    GuardedRun(l, steps, key);
    GuardedWindow(l.maxAttempts, l.Window(), Times(Run(Empty, steps).rows, key, l.kind), lo);
  }

  // ---------------------------------------------------------------------------
  // The hint of a refusal, under a clock that never goes back
  // ---------------------------------------------------------------------------

  lemma {:induction false} HintBounds(l: Limiter, ts: seq<int>, now: int)
    requires l.Valid() && NotAfter(ts, now) && !HasRoom(l, ts, now)
    ensures 1 <= Decide(l, ts, now).retryAfter <= l.windowSeconds
    ensures var oldest := Minimum(From(ts, now - l.Window()));
            oldest in ts && now - l.Window() <= oldest <= now
            && now + Seconds(Decide(l, ts, now).retryAfter + 1) > oldest + l.Window()
  {
    var recent := From(ts, now - l.Window());
    FromMember(ts, now - l.Window());
    var rest := Minimum(recent) + l.Window() - now;
    assert 0 <= rest <= Seconds(l.windowSeconds);
    assert rest / 1_000_000 <= l.windowSeconds;
  }

  lemma {:induction false} FullWindow(l: Limiter, ts: seq<int>, now: int)
    requires l.Valid() && Guarded(l.maxAttempts, l.Window(), ts) && NotAfter(ts, now)
    ensures |From(ts, now - l.Window())| <= l.maxAttempts
  {
    FromIsWithin(ts, now - l.Window(), now);
    GuardedWindow(l.maxAttempts, l.Window(), ts, now - l.Window());
  }

  lemma {:induction false} RoomOnceOldestLeaves(l: Limiter, ts: seq<int>, early: int, late: int, oldest: int)
    requires |From(ts, early - l.Window())| <= l.maxAttempts
    requires oldest in ts && early - l.Window() <= oldest < late - l.Window()
    ensures HasRoom(l, ts, late)
  {
    FromShrinks(ts, early - l.Window(), late - l.Window(), oldest);
  }

  /** A refusal tells the caller when to come back: after `retryAfter + 1` seconds,
      with nothing recorded for the key meanwhile, the attempt is admitted. */
  lemma {:induction false} HintIsKept(l: Limiter, ts: seq<int>, now: int, later: int)
    requires l.Valid() && Guarded(l.maxAttempts, l.Window(), ts) && NotAfter(ts, now)
    requires !HasRoom(l, ts, now)
    requires later >= now + Seconds(Decide(l, ts, now).retryAfter + 1)
    ensures HasRoom(l, ts, later)
  {
    HintBounds(l, ts, now);
    FullWindow(l, ts, now);
    RoomOnceOldestLeaves(l, ts, now, later, Minimum(From(ts, now - l.Window())));
  }

  predicate Monotone(steps: seq<Step>) {
    forall i, j :: 0 <= i <= j < |steps| ==> steps[i].at <= steps[j].at
  }

  lemma {:induction false} NotAfterNext(ts: seq<int>, step: Step, key: string, kind: string, now: int)
    requires NotAfter(ts, now) && step.at <= now
    ensures NotAfter(TimesAfter(ts, step, key, kind), now)
  {
    if step.Cleanup? {
      NotAfterFrom(ts, step.at - Seconds(step.olderThanSeconds), now);
    }
  }

  lemma {:induction false} NothingFromTheFuture(steps: seq<Step>, key: string, kind: string, now: int)
    requires Monotone(steps) && (steps != [] ==> steps[|steps| - 1].at <= now)
    ensures NotAfter(Times(Run(Empty, steps).rows, key, kind), now)
  {
    if steps != [] {
      var front, step := steps[..|steps| - 1], steps[|steps| - 1];
      assert front != [] ==> front[|front| - 1].at <= step.at;
      NothingFromTheFuture(front, key, kind, now);
      TimesNext(Run(Empty, front), step, key, kind);
      NotAfterNext(Times(Run(Empty, front).rows, key, kind), step, key, kind, now);
    }
  }

  /** From `s` on, no attempt for the key is admitted. */
  predicate NoneAdmitted(s: System, steps: seq<Step>, key: string, kind: string) {
    steps == [] ||
    var front, step := steps[..|steps| - 1], steps[|steps| - 1];
    && NoneAdmitted(s, front, key, kind)
    && (step.Try? && step.key == key && step.limiter.kind == kind ==>
          !HasRoom(step.limiter, Times(Run(s, front).rows, key, kind), step.at))
  }

  lemma {:induction false} NotAdmittedShrinks(ts: seq<int>, step: Step, key: string, kind: string, from: int)
    requires step.Try? && step.key == key && step.limiter.kind == kind ==> !HasRoom(step.limiter, ts, step.at)
    ensures |From(TimesAfter(ts, step, key, kind), from)| <= |From(ts, from)|
  {
    if step.Cleanup? {
      ForgettingShrinks(ts, step.at - Seconds(step.olderThanSeconds), from);
    }
  }

  lemma {:induction false} NoneAdmittedShrinks(s: System, steps: seq<Step>, key: string, kind: string, from: int)
    requires NoneAdmitted(s, steps, key, kind)
    ensures |From(Times(Run(s, steps).rows, key, kind), from)| <= |From(Times(s.rows, key, kind), from)|
  {
    if steps != [] {
      var front, step := steps[..|steps| - 1], steps[|steps| - 1];
      NoneAdmittedShrinks(s, front, key, kind, from);
      TimesNext(Run(s, front), step, key, kind);
      NotAdmittedShrinks(Times(Run(s, front).rows, key, kind), step, key, kind, from);
    }
  }

  /** What every run in time order leaves of a key at the time of a refusal. */
  ghost predicate RefusedAt(l: Limiter, steps: seq<Step>, key: string, now: int) {
    && l.Valid() && Exclusive(l, steps) && Monotone(steps)
    && (steps != [] ==> steps[|steps| - 1].at <= now)
    && !HasRoom(l, Times(Run(Empty, steps).rows, key, l.kind), now)
  }

  /** In every run in time order a refusal names between one second and the whole
      window. */
  lemma {:induction false} RefusalBounds(l: Limiter, steps: seq<Step>, key: string, now: int)
    requires RefusedAt(l, steps, key, now)
    ensures 1 <= Decide(l, Times(Run(Empty, steps).rows, key, l.kind), now).retryAfter <= l.windowSeconds
  {
    NothingFromTheFuture(steps, key, l.kind, now);
    HintBounds(l, Times(Run(Empty, steps).rows, key, l.kind), now);
  }

  lemma {:induction false} RoomLater(l: Limiter, steps: seq<Step>, key: string, now: int, later: int)
    requires RefusedAt(l, steps, key, now)
    requires later >= now + Seconds(Decide(l, Times(Run(Empty, steps).rows, key, l.kind), now).retryAfter + 1)
    ensures |From(Times(Run(Empty, steps).rows, key, l.kind), later - l.Window())| < l.maxAttempts
  {
    NothingFromTheFuture(steps, key, l.kind, now);
    GuardedRun(l, steps, key);
    HintIsKept(l, Times(Run(Empty, steps).rows, key, l.kind), now, later);
  }

  /** The earliest attempt that still counts at `now`. */
  predicate IsOldest(l: Limiter, ts: seq<int>, now: int, oldest: int) {
    && oldest in ts && oldest >= now - l.Window()
    && forall t :: t in ts && t >= now - l.Window() ==> oldest <= t
  }

  lemma {:induction false} OldestIsMinimum(l: Limiter, ts: seq<int>, now: int, oldest: int)
    requires !HasRoom(l, ts, now) && l.Valid() && IsOldest(l, ts, now, oldest)
    ensures From(ts, now - l.Window()) != [] && Minimum(From(ts, now - l.Window())) == oldest
  {
    FromMember(ts, now - l.Window());
  }

  lemma {:induction false} RecentStaysRecent(ts: seq<int>, from: int, later: int)
    requires from <= later && forall t :: t in ts && t >= from ==> later <= t
    ensures From(ts, later) == From(ts, from)
  {
    FromMember(ts, from);
    FromTwice(ts, from, later);
    assert forall i :: 0 <= i < |From(ts, from)| ==> From(ts, from)[i] in From(ts, from);
    FromAll(From(ts, from), later);
  }

  lemma {:induction false} RoomExactly(l: Limiter, ts: seq<int>, now: int, oldest: int, later: int)
    requires l.Valid() && Guarded(l.maxAttempts, l.Window(), ts) && NotAfter(ts, now)
    requires !HasRoom(l, ts, now) && IsOldest(l, ts, now, oldest) && later >= now
    ensures HasRoom(l, ts, later) <==> later > oldest + l.Window()
  {
    if later > oldest + l.Window() {
      FullWindow(l, ts, now);
      RoomOnceOldestLeaves(l, ts, now, later, oldest);
    } else {
      RecentStaysRecent(ts, now - l.Window(), later - l.Window());
    }
  }

  /** In every run in time order: while the table is as it was, a refused key stays
      refused until its oldest attempt that counts is a whole window ago, and not
      longer. */
  lemma {:induction false} RefusedUntilExactly(l: Limiter, steps: seq<Step>, key: string, now: int, oldest: int,
                                               later: int)
    requires RefusedAt(l, steps, key, now) && later >= now
    requires IsOldest(l, Times(Run(Empty, steps).rows, key, l.kind), now, oldest)
    ensures HasRoom(l, Times(Run(Empty, steps).rows, key, l.kind), later) <==> later > oldest + l.Window()
  {
    NothingFromTheFuture(steps, key, l.kind, now);
    GuardedRun(l, steps, key);
    RoomExactly(l, Times(Run(Empty, steps).rows, key, l.kind), now, oldest, later);
  }

  lemma {:induction false} WholeSecondsExactly(duration: int)
    requires duration >= 0
    ensures Seconds(WholeSeconds(duration)) <= duration < Seconds(WholeSeconds(duration) + 1)
    ensures duration < Seconds(1) <==> WholeSeconds(duration) == 0
  {
  }

  /** The hint is that time in whole seconds, rounded down, but at least one. */
  lemma {:induction false} HintExactly(l: Limiter, ts: seq<int>, now: int, oldest: int)
    requires l.Valid() && NotAfter(ts, now) && !HasRoom(l, ts, now) && IsOldest(l, ts, now, oldest)
    ensures var rest, hint := oldest + l.Window() - now, Decide(l, ts, now).retryAfter;
            if rest < Seconds(1) then hint == 1 else Seconds(hint) <= rest < Seconds(hint + 1)
  {
    OldestIsMinimum(l, ts, now, oldest);
    WholeSecondsExactly(oldest + l.Window() - now);
  }

  ghost predicate RefusedThrough(l: Limiter, ts: seq<int>, start: int, end: int) {
    forall later :: start <= later <= end ==> !HasRoom(l, ts, later)
  }

  lemma {:induction false} NotThrough(l: Limiter, ts: seq<int>, start: int, end: int, at: int)
    requires start <= at <= end && HasRoom(l, ts, at)
    ensures !RefusedThrough(l, ts, start, end)
  {
  }

  /** So whoever comes back before the hint is up is refused, if and only if a whole
      second was left: below that the hint of one second is too long. */
  lemma {:induction false} RefusedWhileHintedExactly(l: Limiter, steps: seq<Step>, key: string, now: int, oldest: int)
    requires RefusedAt(l, steps, key, now) && IsOldest(l, Times(Run(Empty, steps).rows, key, l.kind), now, oldest)
    ensures var ts := Times(Run(Empty, steps).rows, key, l.kind);
            RefusedThrough(l, ts, now, now + Seconds(Decide(l, ts, now).retryAfter))
            <==> oldest + l.Window() - now >= Seconds(1)
  {
    var ts := Times(Run(Empty, steps).rows, key, l.kind);
    NothingFromTheFuture(steps, key, l.kind, now);
    HintExactly(l, ts, now, oldest);
    forall later | later >= now
      ensures HasRoom(l, ts, later) <==> later > oldest + l.Window()
    {
      RefusedUntilExactly(l, steps, key, now, oldest, later);
    }
    if oldest + l.Window() - now < Seconds(1) {
      NotThrough(l, ts, now, now + Seconds(1), now + Seconds(1));
    }
  }

  /** And the hint is honoured: after `retryAfter + 1` seconds, whatever else happened
      as long as no attempt for the key was admitted, the next one is. */
  lemma {:induction false} RefusalHints(l: Limiter, steps: seq<Step>, key: string, now: int, after: seq<Step>,
                                        later: int)
    requires RefusedAt(l, steps, key, now)
    requires NoneAdmitted(Run(Empty, steps), after, key, l.kind)
    requires later >= now + Seconds(Decide(l, Times(Run(Empty, steps).rows, key, l.kind), now).retryAfter + 1)
    ensures HasRoom(l, Times(Run(Run(Empty, steps), after).rows, key, l.kind), later)
  {
    RoomLater(l, steps, key, now, later);
    NoneAdmittedShrinks(Run(Empty, steps), after, key, l.kind, later - l.Window());
  }

  // ---------------------------------------------------------------------------
  // Cleaning up is invisible
  // ---------------------------------------------------------------------------

  function WithoutCleanups(steps: seq<Step>): seq<Step> {
    if steps == [] then []
    else WithoutCleanups(steps[..|steps| - 1]) + (if steps[|steps| - 1].Cleanup? then [] else [steps[|steps| - 1]])
  }

  /** No limiter looks back further than `seconds`, and no cleanup reaches closer. */
  predicate CleansOnlyOlder(steps: seq<Step>, seconds: int) {
    forall i :: 0 <= i < |steps| ==> LooksBackAtMost(steps[i], seconds)
  }

  predicate LooksBackAtMost(step: Step, seconds: int) {
    && (step.Try? ==> step.limiter.windowSeconds <= seconds)
    && (step.Cleanup? ==> step.olderThanSeconds >= seconds)
  }

  predicate SameKey(a: seq<Attempt>, b: seq<Attempt>, from: int, key: string, kind: string) {
    From(Times(a, key, kind), from) == From(Times(b, key, kind), from)
  }

  ghost predicate SameFrom(a: seq<Attempt>, b: seq<Attempt>, from: int) {
    forall key, kind :: SameKey(a, b, from, key, kind)
  }

  lemma {:induction false} RunSnoc(s: System, steps: seq<Step>, step: Step)
    ensures Run(s, steps + [step]) == Next(Run(s, steps), step)
  {
    assert (steps + [step])[..|steps|] == steps;
  }

  lemma {:induction false} SameSnoc(a: seq<int>, b: seq<int>, at: int, from: int)
    requires From(a, from) == From(b, from)
    ensures From(a + [at], from) == From(b + [at], from)
  {
    FromSnoc(a, at, from);
    FromSnoc(b, at, from);
  }

  /** One step on two histories of a key that agree from `from` on. */
  lemma {:induction false} SameAfter(a: seq<int>, b: seq<int>, step: Step, key: string, kind: string, from: int)
    requires !step.Cleanup? && From(a, from) == From(b, from)
    requires step.Try? ==> HasRoom(step.limiter, a, step.at) == HasRoom(step.limiter, b, step.at)
    ensures From(TimesAfter(a, step, key, kind), from) == From(TimesAfter(b, step, key, kind), from)
  {
    SameSnoc(a, b, step.at, from);
  }

  /** One step on two tables, the second of which skips cleanups. */
  function NextWithoutCleanup(s: System, step: Step): System {
    if step.Cleanup? then s else Next(s, step)
  }

  lemma {:induction false} SameKeyNext(a: System, b: System, step: Step, from: int, key: string, kind: string)
    requires SameKey(a.rows, b.rows, from, key, kind)
    requires step.Try? ==> SameKey(a.rows, b.rows, step.at - step.limiter.Window(), key, kind)
    requires step.Cleanup? ==> step.at - Seconds(step.olderThanSeconds) <= from
    ensures SameKey(Next(a, step).rows, NextWithoutCleanup(b, step).rows, from, key, kind)
  {
    TimesNext(a, step, key, kind);
    if step.Cleanup? {
      FromTwice(Times(a.rows, key, kind), step.at - Seconds(step.olderThanSeconds), from);
    } else {
      TimesNext(b, step, key, kind);
      SameAfter(Times(a.rows, key, kind), Times(b.rows, key, kind), step, key, kind, from);
    }
  }

  lemma {:induction false} SameNext(a: System, b: System, step: Step, from: int)
    requires SameFrom(a.rows, b.rows, from)
    requires step.Try? ==> SameFrom(a.rows, b.rows, step.at - step.limiter.Window())
    requires step.Cleanup? ==> step.at - Seconds(step.olderThanSeconds) <= from
    ensures SameFrom(Next(a, step).rows, NextWithoutCleanup(b, step).rows, from)
  {
    forall key, kind
      ensures SameKey(Next(a, step).rows, NextWithoutCleanup(b, step).rows, from, key, kind)
    {
      assert SameKey(a.rows, b.rows, from, key, kind);
      assert step.Try? ==> SameKey(a.rows, b.rows, step.at - step.limiter.Window(), key, kind);
      SameKeyNext(a, b, step, from, key, kind);
    }
  }

  /** Same decisions so far, and tables that agree on all that can still matter. */
  ghost predicate Alike(a: System, b: System, since: int) {
    a.decisions == b.decisions && forall from :: from >= since ==> SameFrom(a.rows, b.rows, from)
  }

  lemma {:induction false} AlikeNext(a: System, b: System, step: Step, seconds: int)
    requires Alike(a, b, step.at - Seconds(seconds)) && LooksBackAtMost(step, seconds)
    ensures Alike(Next(a, step), NextWithoutCleanup(b, step), step.at - Seconds(seconds))
  {
    if step.Try? {
      var windowStart := step.at - step.limiter.Window();
      assert SameFrom(a.rows, b.rows, windowStart);
      assert SameKey(a.rows, b.rows, windowStart, step.key, step.limiter.kind);
    }
    forall from | from >= step.at - Seconds(seconds)
      ensures SameFrom(Next(a, step).rows, NextWithoutCleanup(b, step).rows, from)
    {
      SameNext(a, b, step, from);
    }
  }

  lemma {:induction false} CleanupSimulation(s: System, steps: seq<Step>, seconds: int, now: int)
    requires Monotone(steps) && CleansOnlyOlder(steps, seconds) && (steps != [] ==> steps[|steps| - 1].at <= now)
    ensures Alike(Run(s, steps), Run(s, WithoutCleanups(steps)), now - Seconds(seconds))
  {
    if steps != [] {
      var front, step := steps[..|steps| - 1], steps[|steps| - 1];
      assert front != [] ==> front[|front| - 1].at <= step.at;
      CleanupSimulation(s, front, seconds, step.at);
      AlikeNext(Run(s, front), Run(s, WithoutCleanups(front)), step, seconds);
      if step.Cleanup? {
        assert WithoutCleanups(steps) == WithoutCleanups(front);
      } else {
        RunSnoc(s, WithoutCleanups(front), step);
      }
    }
  }

  /** In every run in time order, cleanups that keep at least the longest window
      change no decision and no hint, whatever the table held at the start. */
  lemma {:induction false} CleanupChangesNoDecision(s: System, steps: seq<Step>, seconds: int)
    requires Monotone(steps) && CleansOnlyOlder(steps, seconds)
    ensures Run(s, steps).decisions == Run(s, WithoutCleanups(steps)).decisions
  {
    CleanupSimulation(s, steps, seconds, if steps == [] then 0 else steps[|steps| - 1].at);
  }

  // ---------------------------------------------------------------------------
  // The bound on all that was admitted, with cleanups
  // ---------------------------------------------------------------------------

  /** The times the run admitted for a key since its last clear, whether or not their
      rows are still in the table. */
  function Admitted(steps: seq<Step>, key: string, kind: string): seq<int> {
    if steps == [] then []
    else
      var front, step := steps[..|steps| - 1], steps[|steps| - 1];
      match step
      case Try(l, k, at) =>
        if k == key && l.kind == kind && HasRoom(l, Times(Run(Empty, front).rows, key, kind), at)
        then Admitted(front, key, kind) + [at] else Admitted(front, key, kind)
      case Clear(k, d, _) => if k == key && d == kind then [] else Admitted(front, key, kind)
      case Cleanup(_, _) => Admitted(front, key, kind)
  }

  lemma {:induction false} SameRoom(steps: seq<Step>, seconds: int, l: Limiter, key: string, at: int)
    requires Monotone(steps) && CleansOnlyOlder(steps, seconds) && l.windowSeconds <= seconds
    requires steps != [] ==> steps[|steps| - 1].at <= at
    ensures HasRoom(l, Times(Run(Empty, steps).rows, key, l.kind), at)
            <==> HasRoom(l, Times(Run(Empty, WithoutCleanups(steps)).rows, key, l.kind), at)
  {
    CleanupSimulation(Empty, steps, seconds, at);
    var a, b := Run(Empty, steps).rows, Run(Empty, WithoutCleanups(steps)).rows;
    assert SameFrom(a, b, at - l.Window());
    assert SameKey(a, b, at - l.Window(), key, l.kind);
  }

  /** One step admits what it would admit on the table without cleanups. */
  lemma {:induction false} AdmittedNext(steps: seq<Step>, step: Step, key: string, kind: string, seconds: int)
    requires Monotone(steps) && CleansOnlyOlder(steps, seconds) && LooksBackAtMost(step, seconds)
    requires (steps != [] ==> steps[|steps| - 1].at <= step.at) && !step.Cleanup?
    requires Admitted(steps, key, kind) == Times(Run(Empty, WithoutCleanups(steps)).rows, key, kind)
    ensures Admitted(steps + [step], key, kind) == TimesAfter(Admitted(steps, key, kind), step, key, kind)
  {
    assert (steps + [step])[..|steps|] == steps;
    if step.Try? {
      SameRoom(steps, seconds, step.limiter, step.key, step.at);
    }
  }

  /** The times of a key without cleanups, one step later. */
  lemma {:induction false} UncleanedNext(steps: seq<Step>, step: Step, key: string, kind: string)
    ensures var ts := Times(Run(Empty, WithoutCleanups(steps)).rows, key, kind);
            Times(Run(Empty, WithoutCleanups(steps + [step])).rows, key, kind)
            == if step.Cleanup? then ts else TimesAfter(ts, step, key, kind)
  {
    assert (steps + [step])[..|steps|] == steps;
    if step.Cleanup? {
      assert WithoutCleanups(steps + [step]) == WithoutCleanups(steps);
    } else {
      RunSnoc(Empty, WithoutCleanups(steps), step);
      TimesNext(Run(Empty, WithoutCleanups(steps)), step, key, kind);
    }
  }

  lemma {:induction false} CleanupAdmitsNothing(steps: seq<Step>, step: Step, key: string, kind: string)
    requires step.Cleanup?
    ensures Admitted(steps + [step], key, kind) == Admitted(steps, key, kind)
  {
    assert (steps + [step])[..|steps|] == steps;
  }

  ghost predicate Uncleaned(steps: seq<Step>, key: string, kind: string) {
    Admitted(steps, key, kind) == Times(Run(Empty, WithoutCleanups(steps)).rows, key, kind)
  }

  lemma {:induction false} UncleanedSnoc(steps: seq<Step>, step: Step, key: string, kind: string, seconds: int)
    requires Monotone(steps) && CleansOnlyOlder(steps, seconds) && LooksBackAtMost(step, seconds)
    requires (steps != [] ==> steps[|steps| - 1].at <= step.at) && Uncleaned(steps, key, kind)
    ensures Uncleaned(steps + [step], key, kind)
  {
    UncleanedNext(steps, step, key, kind);
    if step.Cleanup? {
      CleanupAdmitsNothing(steps, step, key, kind);
    } else {
      AdmittedNext(steps, step, key, kind, seconds);
    }
  }

  /** What was admitted is what the table would hold without cleanups. */
  lemma {:induction false} AdmittedIsUncleaned(steps: seq<Step>, key: string, kind: string, seconds: int)
    requires Monotone(steps) && CleansOnlyOlder(steps, seconds)
    ensures Uncleaned(steps, key, kind)
  {
    if steps != [] {
      var front, step := steps[..|steps| - 1], steps[|steps| - 1];
      assert front != [] ==> front[|front| - 1].at <= step.at;
      AdmittedIsUncleaned(front, key, kind, seconds);
      UncleanedSnoc(front, step, key, kind, seconds);
      assert steps == front + [step];
    }
  }

  lemma {:induction false} UncleanedIsExclusive(l: Limiter, steps: seq<Step>)
    requires OnlyOfItsKind(l, steps)
    ensures Exclusive(l, WithoutCleanups(steps))
  {
    if steps != [] {
      UncleanedIsExclusive(l, steps[..|steps| - 1]);
    }
  }

  /** In every run in time order, with cleanups that keep at least the longest window:
      no closed interval as long as the window holds more than `maxAttempts` of the
      attempts admitted for a key between clears. */
  lemma {:induction false} NeverTooManyAdmitted(l: Limiter, steps: seq<Step>, key: string, lo: int, seconds: int)
    requires l.Valid() && OnlyOfItsKind(l, steps) && Monotone(steps) && CleansOnlyOlder(steps, seconds)
    ensures Within(Admitted(steps, key, l.kind), lo, lo + l.Window()) <= l.maxAttempts
  {
    AdmittedIsUncleaned(steps, key, l.kind, seconds);
    UncleanedIsExclusive(l, steps);
    WindowIsNeverOverfull(l, WithoutCleanups(steps), key, lo);
  }
}
