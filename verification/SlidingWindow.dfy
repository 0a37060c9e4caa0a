/** Timestamps in the order they were recorded, seen through a sliding window. */
module SlidingWindow {
  import opened Common

  /** The times not before `from`, in order. */
  function From(ts: seq<int>, from: int): seq<int> {
    FirstFrom(ts, |ts|, from)
  }

  /** Those among the first `n`. */
  function FirstFrom(ts: seq<int>, n: nat, from: int): seq<int>
    requires n <= |ts|
  {
    if n == 0 then [] else FirstFrom(ts, n - 1, from) + (if ts[n - 1] >= from then [ts[n - 1]] else [])
  }

  lemma {:induction false} FirstFromPrefix(a: seq<int>, b: seq<int>, n: nat, from: int)
    requires n <= |a| && n <= |b| && forall i :: 0 <= i < n ==> a[i] == b[i]
    ensures FirstFrom(a, n, from) == FirstFrom(b, n, from)
  {
    if n > 0 {
      FirstFromPrefix(a, b, n - 1, from);
    }
  }

  lemma {:induction false} FromSnoc(ts: seq<int>, t: int, from: int)
    ensures From(ts + [t], from) == From(ts, from) + (if t >= from then [t] else [])
  {
    FirstFromPrefix(ts, ts + [t], |ts|, from);
  }

  lemma {:induction false} FromLast(ts: seq<int>, from: int)
    requires ts != []
    ensures From(ts, from) == From(ts[..|ts| - 1], from) + (if ts[|ts| - 1] >= from then [ts[|ts| - 1]] else [])
  {
    FirstFromPrefix(ts, ts[..|ts| - 1], |ts| - 1, from);
  }

  lemma {:induction false} FromMember(ts: seq<int>, from: int)
    ensures forall t :: t in From(ts, from) <==> t in ts && t >= from
  {
    if ts != [] {
      FromMember(ts[..|ts| - 1], from);
      FromLast(ts, from);
      assert ts == ts[..|ts| - 1] + [ts[|ts| - 1]];
    }
  }

  lemma {:induction false} FromTwice(ts: seq<int>, early: int, late: int)
    requires early <= late
    ensures From(From(ts, early), late) == From(ts, late)
  {
    if ts != [] {
      FromTwice(ts[..|ts| - 1], early, late);
      FromLast(ts, early);
      FromLast(ts, late);
      FromSnoc(From(ts[..|ts| - 1], early), ts[|ts| - 1], late);
      assert From(ts[..|ts| - 1], early) + [] == From(ts[..|ts| - 1], early);
    }
  }

  /** A later window sees no more times, and strictly fewer once `t` has dropped out. */
  lemma {:induction false} FromShrinks(ts: seq<int>, early: int, late: int, t: int)
    requires early <= late
    ensures |From(ts, late)| <= |From(ts, early)|
    ensures t in ts && early <= t < late ==> |From(ts, late)| < |From(ts, early)|
  {
    if ts != [] {
      FromShrinks(ts[..|ts| - 1], early, late, t);
      FromLast(ts, early);
      FromLast(ts, late);
      assert ts == ts[..|ts| - 1] + [ts[|ts| - 1]];
    }
  }

  /** Times between `lo` and `hi`, both included. */
  function Within(ts: seq<int>, lo: int, hi: int): nat {
    if ts == [] then 0
    else Within(ts[..|ts| - 1], lo, hi) + (if lo <= ts[|ts| - 1] <= hi then 1 else 0)
  }

  /** Every time was recorded when the window behind it still had room. */
  predicate Guarded(limit: int, window: int, ts: seq<int>) {
    ts == [] ||
    var front, last := ts[..|ts| - 1], ts[|ts| - 1];
    Guarded(limit, window, front) && |From(front, last - window)| < limit
  }

  lemma {:induction false} WithinAtMostFrom(ts: seq<int>, lo: int, hi: int, from: int)
    requires from <= lo
    ensures Within(ts, lo, hi) <= |From(ts, from)|
  {
    if ts != [] {
      WithinAtMostFrom(ts[..|ts| - 1], lo, hi, from);
      FromLast(ts, from);
    }
  }

  /** Whatever order the times come in: the guard counts without an upper bound, so
      the one recorded last in an interval has seen all the others. */
  lemma {:induction false} GuardedWindow(limit: int, window: int, ts: seq<int>, lo: int)
    requires Guarded(limit, window, ts)
    ensures Within(ts, lo, lo + window) <= Max(0, limit)
  {
    if ts != [] {
      var front, last := ts[..|ts| - 1], ts[|ts| - 1];
      GuardedWindow(limit, window, front, lo);
      if lo <= last <= lo + window {
        WithinAtMostFrom(front, lo, lo + window, last - window);
      }
    }
  }

  predicate NotAfter(ts: seq<int>, now: int) {
    forall i :: 0 <= i < |ts| ==> ts[i] <= now
  }

  lemma {:induction false} FromIsWithin(ts: seq<int>, lo: int, hi: int)
    requires NotAfter(ts, hi)
    ensures |From(ts, lo)| == Within(ts, lo, hi)
  {
    if ts != [] {
      FromIsWithin(ts[..|ts| - 1], lo, hi);
      FromLast(ts, lo);
    }
  }

  lemma {:induction false} NotAfterFrom(ts: seq<int>, from: int, now: int)
    requires NotAfter(ts, now)
    ensures NotAfter(From(ts, from), now)
  {
    FromMember(ts, from);
    assert forall i :: 0 <= i < |From(ts, from)| ==> From(ts, from)[i] in From(ts, from);
  }

  /** Recording one more time while the window behind it has room. */
  lemma {:induction false} GuardedSnoc(limit: int, window: int, ts: seq<int>, t: int)
    requires Guarded(limit, window, ts) && |From(ts, t - window)| < limit
    ensures Guarded(limit, window, ts + [t])
  {
    assert (ts + [t])[..|ts|] == ts;
  }

  lemma {:induction false} ForgettingShrinks(ts: seq<int>, cutoff: int, from: int)
    ensures |From(From(ts, cutoff), from)| <= |From(ts, from)|
  {
    if cutoff <= from {
      FromTwice(ts, cutoff, from);
    } else {
      FromShrinks(ts, from, cutoff, from);
      FromAtMost(From(ts, cutoff), from);
    }
  }

  lemma {:induction false} FromAtMost(ts: seq<int>, from: int)
    ensures |From(ts, from)| <= |ts|
  {
    if ts != [] {
      FromAtMost(ts[..|ts| - 1], from);
      FromLast(ts, from);
    }
  }

  lemma {:induction false} FromAll(ts: seq<int>, from: int)
    requires forall i :: 0 <= i < |ts| ==> ts[i] >= from
    ensures From(ts, from) == ts
  {
    if ts != [] {
      FromAll(ts[..|ts| - 1], from);
      FromLast(ts, from);
      assert ts == ts[..|ts| - 1] + [ts[|ts| - 1]];
    }
  }
}
