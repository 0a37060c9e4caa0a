/**
 The dashboard settings cache: reads without the lock, fills and invalidations
 under it.  An integer stands for the content of the settings row.
 */
module SettingsCache {
  import opened Common

  type Settings = int

  predicate Fresh<T>(cached: Option<T>, cachedAt: real, ttl: real, now: real) {
    cached.Some? && now - cachedAt < ttl
  }

  class SettingsCache {
    const ttlSeconds: real
    var cachedSettings: Option<Settings>
    var cachedAt: real

    /** A non-positive TTL is a `ValueError` in the source. */
    constructor (ttlSeconds: real)
      requires ttlSeconds > 0.0
      ensures this.ttlSeconds == ttlSeconds && cachedSettings.None? && cachedAt == 0.0
    {
      this.ttlSeconds := ttlSeconds;
      cachedSettings := None;
      cachedAt := 0.0;
    }

    /** `get` run without interruption; `stored` is the row a read would find. */
    method Get(now: real, later: real, stored: Settings) returns (settings: Settings)
      modifies this
      ensures cachedSettings == Some(settings)
      ensures var hit := old(cachedSettings).Some?
                         && (now - old(cachedAt) < ttlSeconds || later - old(cachedAt) < ttlSeconds);
              if hit then Some(settings) == old(cachedSettings) && cachedAt == old(cachedAt)
              else settings == stored && cachedAt == later
    {
      if cachedSettings.Some? && now - cachedAt < ttlSeconds {
        return cachedSettings.value;
      }
      if cachedSettings.Some? && later - cachedAt < ttlSeconds {
        return cachedSettings.value;
      }
      settings := stored;
      cachedSettings := Some(settings);
      cachedAt := later;
    }

    method Invalidate()
      modifies this
      ensures cachedSettings.None? && cachedAt == 0.0
    {
      cachedSettings := None;
      cachedAt := 0.0;
    }
  }

  // ---------------------------------------------------------------------------
  // Getters and invalidators, interleaved
  // ---------------------------------------------------------------------------

  /** A row as read from the database: its content, at which event, at what time. */
  datatype Snapshot = Snapshot(row: Settings, event: nat, at: real)

  /** `floor` is the event of the latest invalidation completed when the get began. */
  datatype Getter =
    | Waiting(floor: nat)
    | Holding(floor: nat)
    | Reading(floor: nat, now: real)
    | Read(floor: nat, now: real, snapshot: Snapshot)
    | Closing(floor: nat, snapshot: Snapshot)

  datatype Holder = ByGetter(id: nat) | ByInvalidator(id: nat)

  /** What a get returned, when, and whether from the cache. */
  datatype Return = Return(floor: nat, snapshot: Snapshot, at: real, hit: bool)

  /** `history` has the row as it was at every event so far. */
  datatype System = System(
    row: Settings,
    history: seq<Settings>,
    clock: real,
    cached: Option<Snapshot>,
    cachedAt: real,
    lock: Option<Holder>,
    getters: map<nat, Getter>,
    invalidated: nat,
    returned: seq<Return>)

  datatype Step =
    | WriteRow(row: Settings, at: real)
    | Begin(getter: nat, at: real)
    | Acquire(getter: nat, at: real)
    | Recheck(getter: nat, at: real)
    | ReadRow(getter: nat, at: real)
    | Store(getter: nat, at: real)
    | Finish(getter: nat, at: real)
    | Abort(getter: nat, at: real)
    | AcquireToInvalidate(invalidator: nat, at: real)
    | Invalidate(invalidator: nat, at: real)

  /** The number of the event that is happening. */
  function CurrentEvent(s: System): nat
    requires s.history != []
  {
    |s.history| - 1
  }

  predicate Hit(ttl: real, s: System, at: real) {
    Fresh(s.cached, s.cachedAt, ttl, at)
  }

  predicate OfGetter(step: Step) {
    step.Acquire? || step.Recheck? || step.ReadRow? || step.Store? || step.Finish? || step.Abort?
  }

  function Put(s: System, g: nat, getter: Getter): System {
    s.(getters := s.getters[g := getter])
  }

  /** A get that ends here gives the lock back. */
  function Leave(s: System, g: nat): System {
    s.(getters := s.getters - {g}, lock := if s.lock == Some(ByGetter(g)) then None else s.lock)
  }

  /** What a step of getter `g` does. */
  function GetterEffect(ttl: real, s: System, step: Step, g: nat): System
    requires g in s.getters && s.history != []
  {
    match s.getters[g]
    case Waiting(floor) =>
      if step.Acquire? && s.lock.None? then Put(s, g, Holding(floor)).(lock := Some(ByGetter(g)))
      else if step.Abort? then Leave(s, g)
      else s
    case Holding(floor) =>
      if step.Abort? then Leave(s, g)
      else if !step.Recheck? then s
      else if Hit(ttl, s, step.at) then
        Leave(s, g).(returned := s.returned + [Return(floor, s.cached.value, step.at, true)])
      else Put(s, g, Reading(floor, step.at))
    case Reading(floor, now) =>
      if step.Abort? then Leave(s, g)
      else if step.ReadRow? then Put(s, g, Read(floor, now, Snapshot(s.row, CurrentEvent(s), step.at)))
      else s
    case Read(floor, now, snapshot) =>
      if step.Abort? then Leave(s, g)
      else if step.Store? then Put(s, g, Closing(floor, snapshot)).(cached := Some(snapshot), cachedAt := now)
      else s
    case Closing(floor, snapshot) =>
      if step.Abort? then Leave(s, g)
      else if step.Finish? then Leave(s, g).(returned := s.returned + [Return(floor, snapshot, step.at, false)])
      else s
  }

  function Effect(ttl: real, s: System, step: Step): System
    requires s.history != []
  {
    if step.WriteRow? then s.(row := step.row)
    else if step.AcquireToInvalidate? then
      (if s.lock.Some? then s else s.(lock := Some(ByInvalidator(step.invalidator))))
    else if step.Invalidate? then
      if s.lock != Some(ByInvalidator(step.invalidator)) then s
      else s.(cached := None, cachedAt := 0.0, lock := None, invalidated := CurrentEvent(s))
    else if step.Begin? then
      if step.getter in s.getters then s
      else if Hit(ttl, s, step.at) then
        s.(returned := s.returned + [Return(s.invalidated, s.cached.value, step.at, true)])
      else Put(s, step.getter, Waiting(s.invalidated))
    else if step.getter !in s.getters then s
    else GetterEffect(ttl, s, step, step.getter)
  }

  /** The row as it is goes on record, and the clock moves on. */
  function Tick(s: System, at: real): System {
    s.(history := s.history + [s.row], clock := at)
  }

  /** Every step is an event; a time before the clock cannot occur. */
  function Next(ttl: real, s: System, step: Step): System {
    if step.at < s.clock then s else Effect(ttl, Tick(s, step.at), step)
  }

  function Run(ttl: real, s: System, steps: seq<Step>): System {
    if steps == [] then s else Next(ttl, Run(ttl, s, steps[..|steps| - 1]), steps[|steps| - 1])
  }

  /** The process has just started; event 0 is its beginning. */
  function Start(row: Settings, clock: real): System {
    System(row, [row], clock, None, 0.0, None, map[], 0, [])
  }

  /** The row really was so at that event. */
  predicate Genuine(s: System, n: Snapshot) {
    n.event < |s.history| && n.row == s.history[n.event]
  }

  predicate GetterInv(s: System, g: nat)
    requires g in s.getters
  {
    var getter := s.getters[g];
    && getter.floor <= s.invalidated
    && (!getter.Waiting? ==> s.lock == Some(ByGetter(g)))
    && (getter.Reading? ==> getter.now <= s.clock)
    && (getter.Read? ==>
          && Genuine(s, getter.snapshot) && getter.snapshot.event > s.invalidated
          && getter.now <= getter.snapshot.at)
    && (getter.Closing? ==> Genuine(s, getter.snapshot) && getter.snapshot.event > s.invalidated)
  }

  predicate ReturnInv(ttl: real, s: System, r: Return) {
    && Genuine(s, r.snapshot)
    && r.snapshot.event > r.floor
    && (r.hit ==> r.at - r.snapshot.at < ttl)
  }

  predicate Inv(ttl: real, s: System) {
    && s.invalidated < |s.history|
    && (s.cached.Some? ==>
          Genuine(s, s.cached.value) && s.cached.value.event > s.invalidated && s.cachedAt <= s.cached.value.at)
    && (forall g :: g in s.getters ==> GetterInv(s, g))
    && (forall i :: 0 <= i < |s.returned| ==> ReturnInv(ttl, s, s.returned[i]))
  }

  lemma {:induction false} TickKeeps(ttl: real, s: System, at: real)
    requires Inv(ttl, s) && at >= s.clock
    ensures Inv(ttl, Tick(s, at)) && s.invalidated < CurrentEvent(Tick(s, at))
  {
    var t := Tick(s, at);
    assert forall n :: Genuine(s, n) ==> Genuine(t, n);
    assert forall g :: g in t.getters ==> GetterInv(s, g) && GetterInv(t, g);
    assert forall i :: 0 <= i < |t.returned| ==> ReturnInv(ttl, s, s.returned[i]) && ReturnInv(ttl, t, t.returned[i]);
  }

  lemma {:induction false} GetterEffectKeeps(ttl: real, s: System, step: Step, g: nat)
    requires Inv(ttl, s) && s.invalidated < CurrentEvent(s) && s.history[CurrentEvent(s)] == s.row
    requires g in s.getters && step.at == s.clock
    ensures Inv(ttl, GetterEffect(ttl, s, step, g))
  {
    var t := GetterEffect(ttl, s, step, g);
    assert GetterInv(s, g);
    forall h | h in t.getters
      ensures GetterInv(t, h)
    {
      assert GetterInv(s, h);
    }
    forall i | 0 <= i < |t.returned|
      ensures ReturnInv(ttl, t, t.returned[i])
    {
      assert i < |s.returned| ==> ReturnInv(ttl, s, s.returned[i]);
    }
  }

  lemma {:induction false} SharedEffectKeeps(ttl: real, s: System, step: Step)
    requires Inv(ttl, s) && s.invalidated < CurrentEvent(s)
    requires !OfGetter(step) && step.at == s.clock
    ensures Inv(ttl, Effect(ttl, s, step))
  {
    var t := Effect(ttl, s, step);
    forall h | h in t.getters
      ensures GetterInv(t, h)
    {
      assert h in s.getters ==> GetterInv(s, h);
    }
    forall i | 0 <= i < |t.returned|
      ensures ReturnInv(ttl, t, t.returned[i])
    {
      assert i < |s.returned| ==> ReturnInv(ttl, s, s.returned[i]);
    }
  }

  lemma {:induction false} NextKeeps(ttl: real, s: System, step: Step)
    requires Inv(ttl, s)
    ensures Inv(ttl, Next(ttl, s, step))
  {
    if step.at >= s.clock {
      var u := Tick(s, step.at);
      TickKeeps(ttl, s, step.at);
      if !OfGetter(step) {
        SharedEffectKeeps(ttl, u, step);
      } else if step.getter in u.getters {
        GetterEffectKeeps(ttl, u, step, step.getter);
      }
    }
  }

  lemma {:induction false} RunKeeps(ttl: real, row: Settings, clock: real, steps: seq<Step>)
    ensures Inv(ttl, Run(ttl, Start(row, clock), steps))
  {
    if steps != [] {
      RunKeeps(ttl, row, clock, steps[..|steps| - 1]);
      NextKeeps(ttl, Run(ttl, Start(row, clock), steps[..|steps| - 1]), steps[|steps| - 1]);
    }
  }

  /** In every interleaving a get returns a row that was in the database at an event
      after every invalidation completed before the get began, and a cache hit
      returns one read less than the TTL before. */
  lemma {:induction false} GetsAreFresh(ttl: real, row: Settings, clock: real, steps: seq<Step>, i: nat)
    requires i < |Run(ttl, Start(row, clock), steps).returned|
    ensures var s := Run(ttl, Start(row, clock), steps);
            var r := s.returned[i];
            && r.floor < r.snapshot.event < |s.history|
            && r.snapshot.row == s.history[r.snapshot.event]
            && (r.hit ==> r.at - r.snapshot.at < ttl)
  {
    RunKeeps(ttl, row, clock, steps);
    assert ReturnInv(ttl, Run(ttl, Start(row, clock), steps), Run(ttl, Start(row, clock), steps).returned[i]);
  }

  /** Nothing cached ever predates the latest completed invalidation, and the lock
      keeps a row that was read from being stored across one. */
  lemma {:induction false} CacheNeverOutlivesInvalidation(ttl: real, row: Settings, clock: real, steps: seq<Step>,
                                                          g: nat)
    ensures var s := Run(ttl, Start(row, clock), steps);
            && (s.cached.Some? ==> s.cached.value.event > s.invalidated)
            && (g in s.getters && s.getters[g].Read? ==>
                  s.getters[g].snapshot.event > s.invalidated && s.lock == Some(ByGetter(g)))
  {
    RunKeeps(ttl, row, clock, steps);
    var s := Run(ttl, Start(row, clock), steps);
    assert g in s.getters ==> GetterInv(s, g);
  }

  /** A get returns at once, without the lock, if and only if something is cached that
      was read less than the TTL ago; it then returns that. */
  lemma {:induction false} CacheIsUsedExactly(ttl: real, s: System, g: nat, at: real)
    requires s.history != [] && at >= s.clock && g !in s.getters
    ensures var t := Next(ttl, s, Begin(g, at));
            var young := s.cached.Some? && at - s.cachedAt < ttl;
            && (young <==> g !in t.getters)
            && (young ==> t.returned == s.returned + [Return(s.invalidated, s.cached.value, at, true)])
            && (!young ==> t.returned == s.returned && t.getters[g].Waiting?)
            && t.cached == s.cached && t.lock == s.lock
  {
  }

  /** What a getter has read and stores is served to every get that begins less than the
      TTL after the getter looked at the clock, as long as nothing else happens. */
  lemma {:induction false} StoreIsServed(ttl: real, s: System, g: nat, at: real, h: nat, later: real)
    requires s.history != [] && g in s.getters && s.getters[g].Read? && h !in s.getters
    requires s.clock <= at <= later && later - s.getters[g].now < ttl
    ensures var t := Next(ttl, Next(ttl, s, Store(g, at)), Begin(h, later));
            && |t.returned| == |s.returned| + 1
            && t.returned[|s.returned|] == Return(s.invalidated, s.getters[g].snapshot, later, true)
  {
  }
}
