/** The in-memory retry budget: a deque of grant times, purged from the left.
    Times are ticks of one monotonic clock. */
module RetryBudget {
  import opened Common
  import opened SlidingWindow

  /** What the `while` loop leaves: only a prefix is ever popped. */
  function Purge(ts: seq<int>, cutoff: int): seq<int> {
    if ts != [] && ts[0] < cutoff then Purge(ts[1..], cutoff) else ts
  }

  class RetryBudget {
    const maxRetries: int
    const window: int
    var timestamps: seq<int>

    constructor (maxRetries: int, window: int)
      ensures this.maxRetries == maxRetries && this.window == window && timestamps == []
    {
      this.maxRetries := maxRetries;
      this.window := window;
      timestamps := [];
    }

    method TryAcquire(now: int) returns (granted: bool)
      modifies this
      ensures granted <==> |Purge(old(timestamps), now - window)| < maxRetries
      ensures timestamps == Purge(old(timestamps), now - window) + (if granted then [now] else [])
    {
      var cutoff := now - window;
      while timestamps != [] && timestamps[0] < cutoff
        invariant Purge(timestamps, cutoff) == Purge(old(timestamps), cutoff)
        decreases |timestamps|
      {
        timestamps := timestamps[1..];
      }
      assert timestamps + [] == timestamps;
      if |timestamps| >= maxRetries {
        return false;
      }
      timestamps := timestamps + [now];
      return true;
    }

    method Remaining(now: int) returns (left: int)
      ensures left == Max(0, maxRetries - |From(timestamps, now - window)|)
    {
      var cutoff := now - window;
      var recent := 0;
      for i := 0 to |timestamps|
        invariant recent == |From(timestamps[..i], cutoff)|
      {
        FromSnoc(timestamps[..i], timestamps[i], cutoff);
        assert timestamps[..i + 1] == timestamps[..i] + [timestamps[i]];
        if timestamps[i] >= cutoff {
          recent := recent + 1;
        }
      }
      assert timestamps[..|timestamps|] == timestamps;
      return Max(0, maxRetries - recent);
    }
  }

  // ---------------------------------------------------------------------------
  // The deque against the history of all grants
  // ---------------------------------------------------------------------------

  /** `grants` is everything ever granted; the program keeps only `deque`. */
  datatype System = System(deque: seq<int>, grants: seq<int>, clock: int)

  /** One `try_acquire` at `at`; a time before the clock cannot occur. */
  function Next(limit: int, window: int, s: System, at: int): System {
    if at < s.clock then s
    else
      var kept := Purge(s.deque, at - window);
      if |kept| < limit then System(kept + [at], s.grants + [at], at) else System(kept, s.grants, at)
  }

  function Run(limit: int, window: int, start: int, times: seq<int>): System {
    if times == [] then System([], [], start)
    else Next(limit, window, Run(limit, window, start, times[..|times| - 1]), times[|times| - 1])
  }

  predicate Sorted(ts: seq<int>) {
    forall i, j :: 0 <= i < j < |ts| ==> ts[i] <= ts[j]
  }

  lemma {:induction false} FromConcat(a: seq<int>, b: seq<int>, from: int)
    ensures From(a + b, from) == From(a, from) + From(b, from)
  {
    if b == [] {
      assert a + b == a;
    } else {
      var n := |b| - 1;
      assert a + b == (a + b[..n]) + [b[n]];
      FromSnoc(a + b[..n], b[n], from);
      FromLast(b, from);
      FromConcat(a, b[..n], from);
    }
  }

  /** On a sorted deque popping the old prefix removes everything old. */
  lemma {:induction false} PurgeSorted(ts: seq<int>, cutoff: int)
    requires Sorted(ts)
    ensures Purge(ts, cutoff) == From(ts, cutoff)
    ensures Sorted(Purge(ts, cutoff))
    ensures forall i :: 0 <= i < |Purge(ts, cutoff)| ==> Purge(ts, cutoff)[i] >= cutoff
  {
    if ts != [] && ts[0] < cutoff {
      PurgeSorted(ts[1..], cutoff);
      assert ts == [ts[0]] + ts[1..];
      FromConcat([ts[0]], ts[1..], cutoff);
      FromLast([ts[0]], cutoff);
    } else {
      FromAll(ts, cutoff);
    }
  }

  predicate SeenAlike(a: seq<int>, b: seq<int>, from: int) {
    From(a, from) == From(b, from)
  }

  ghost predicate Inv(limit: int, window: int, s: System) {
    && Sorted(s.deque) && NotAfter(s.deque, s.clock)
    && Sorted(s.grants) && NotAfter(s.grants, s.clock)
    && (forall from :: from >= s.clock - window ==> SeenAlike(s.deque, s.grants, from))
    && Guarded(limit, window, s.grants)
  }

  /** Purging at `at` keeps the invariant. */
  lemma {:induction false} PurgeKeeps(limit: int, window: int, s: System, at: int)
    requires Inv(limit, window, s) && s.clock <= at
    ensures Inv(limit, window, s.(deque := Purge(s.deque, at - window), clock := at))
  {
    var kept := Purge(s.deque, at - window);
    PurgeSorted(s.deque, at - window);
    NotAfterFrom(s.deque, at - window, at);
    forall from | from >= at - window
      ensures SeenAlike(kept, s.grants, from)
    {
      assert SeenAlike(s.deque, s.grants, from);
      FromTwice(s.deque, at - window, from);
    }
  }

  lemma {:induction false} SortedSnoc(ts: seq<int>, now: int)
    requires Sorted(ts) && NotAfter(ts, now)
    ensures Sorted(ts + [now]) && NotAfter(ts + [now], now)
  {
  }

  /** So does a grant at the current time while the window has room. */
  lemma {:induction false} GrantKeeps(limit: int, window: int, s: System)
    requires Inv(limit, window, s) && |From(s.grants, s.clock - window)| < limit
    ensures Inv(limit, window, s.(deque := s.deque + [s.clock], grants := s.grants + [s.clock]))
  {
    SortedSnoc(s.deque, s.clock);
    SortedSnoc(s.grants, s.clock);
    GuardedSnoc(limit, window, s.grants, s.clock);
    forall from | from >= s.clock - window
      ensures SeenAlike(s.deque + [s.clock], s.grants + [s.clock], from)
    {
      assert SeenAlike(s.deque, s.grants, from);
      FromSnoc(s.deque, s.clock, from);
      FromSnoc(s.grants, s.clock, from);
    }
  }

  lemma {:induction false} PurgedIsRecent(limit: int, window: int, s: System, now: int)
    requires Inv(limit, window, s) && s.clock <= now
    ensures Purge(s.deque, now - window) == From(s.grants, now - window) == From(s.deque, now - window)
  {
    PurgeSorted(s.deque, now - window);
    assert SeenAlike(s.deque, s.grants, now - window);
  }

  lemma {:induction false} NextKeeps(limit: int, window: int, s: System, at: int)
    requires Inv(limit, window, s)
    ensures Inv(limit, window, Next(limit, window, s, at))
  {
    if at >= s.clock {
      PurgedIsRecent(limit, window, s, at);
      PurgeKeeps(limit, window, s, at);
      var purged := s.(deque := Purge(s.deque, at - window), clock := at);
      if |purged.deque| < limit {
        GrantKeeps(limit, window, purged);
      }
    }
  }

  lemma {:induction false} RunKeeps(limit: int, window: int, start: int, times: seq<int>)
    ensures Inv(limit, window, Run(limit, window, start, times))
  {
    if times != [] {
      RunKeeps(limit, window, start, times[..|times| - 1]);
      NextKeeps(limit, window, Run(limit, window, start, times[..|times| - 1]), times[|times| - 1]);
    }
  }

  /** In every run: the deque is sorted; purged at any later moment it is exactly the
      grant history seen through the window; and an attempt at that moment succeeds
      exactly when `remaining()` is positive, which is when fewer than `limit` grants
      are that recent. */
  lemma {:induction false} DequeIsTheWindow(limit: int, window: int, start: int, times: seq<int>, now: int)
    requires now >= Run(limit, window, start, times).clock
    ensures var s := Run(limit, window, start, times);
            && Sorted(s.deque)
            && Purge(s.deque, now - window) == From(s.grants, now - window)
            && (|Purge(s.deque, now - window)| < limit <==> Max(0, limit - |From(s.deque, now - window)|) > 0)
            && (Next(limit, window, s, now).grants == s.grants + [now] <==> |From(s.grants, now - window)| < limit)
  {
    RunKeeps(limit, window, start, times);
    var s := Run(limit, window, start, times);
    PurgedIsRecent(limit, window, s, now);
    assert |s.grants + [now]| != |s.grants|;
  }

  /** In every run no closed interval of window length holds more than `limit` grants. */
  lemma {:induction false} BudgetIsNeverExceeded(limit: int, window: int, start: int, times: seq<int>, lo: int)
    ensures Within(Run(limit, window, start, times).grants, lo, lo + window) <= Max(0, limit)
  {
    RunKeeps(limit, window, start, times);
    GuardedWindow(limit, window, Run(limit, window, start, times).grants, lo);
  }
}
