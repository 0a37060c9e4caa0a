/**
 The firewall decision cache of one process, the poller that watches the shared
 version table, and the admin handlers that change the allowlist.  Each class is
 proved against the functions on values that come first.
 */
module FirewallCache {
  import opened Common

  const NAMESPACE_FIREWALL := "firewall"

  /** `ipaddress.ip_address` is not modelled: an address parser is any function
      from text to a canonical spelling, or `None` for text it rejects. */
  type AddressParser = string -> Option<string>

  /** `FirewallService.is_ip_allowed`: what the cache is meant to speed up. */
  predicate IsIpAllowed(normalize: AddressParser, allowlist: set<string>, ip: Option<string>) {
    if allowlist == {} then true
    else if ip.None? then false
    else
      var normalized := normalize(ip.value);
      normalized.Some? && normalized.value in allowlist
  }

  datatype Entry = Entry(allowed: bool, expiresAt: real)

  datatype Cache = Cache(entries: map<string, Entry>, version: nat)

  function Lookup(c: Cache, ip: string, now: real): Option<bool> {
    if ip !in c.entries || now >= c.entries[ip].expiresAt then None
    else Some(c.entries[ip].allowed)
  }

  function Fill(c: Cache, ip: string, allowed: bool, expiresAt: real, ifVersion: Option<nat>): Cache {
    if ifVersion.Some? && ifVersion.value != c.version then c
    else c.(entries := c.entries[ip := Entry(allowed, expiresAt)])
  }

  function Invalidate(c: Cache): Cache {
    Cache(map[], c.version + 1)
  }

  /** Every entry, expired or not, carries the decision the allowlist gives. */
  ghost predicate Coherent(normalize: AddressParser, allowlist: set<string>, c: Cache) {
    forall ip :: ip in c.entries ==> c.entries[ip].allowed == IsIpAllowed(normalize, allowlist, Some(ip))
  }

  class FirewallIPCache {
    const ttlSeconds: int
    var entries: map<string, Entry>
    var version: nat

    ghost function View(): Cache
      reads this
    {
      Cache(entries, version)
    }

    /** A non-positive TTL is a `ValueError` in the source. */
    constructor (ttlSeconds: int)
      requires ttlSeconds > 0
      ensures this.ttlSeconds == ttlSeconds && View() == Cache(map[], 0)
    {
      this.ttlSeconds := ttlSeconds;
      entries := map[];
      version := 0;
    }

    method IsAllowed(ip: string, now: real) returns (decision: Option<bool>)
      ensures decision == Lookup(View(), ip, now)
      ensures decision == if ip in entries && now < entries[ip].expiresAt then Some(entries[ip].allowed) else None
    {
      if ip !in entries {
        return None;
      }
      var entry := entries[ip];
      if now >= entry.expiresAt {
        return None;
      }
      return Some(entry.allowed);
    }

    method Set(ip: string, allowed: bool, now: real, ifVersion: Option<nat>)
      modifies this
      ensures View() == Fill(old(View()), ip, allowed, now + ttlSeconds as real, ifVersion)
    {
      if ifVersion.Some? && ifVersion.value != version {
        return;
      }
      entries := entries[ip := Entry(allowed, now + ttlSeconds as real)];
    }

    method InvalidateAll()
      modifies this
      ensures View() == Invalidate(old(View()))
    {
      entries := map[];
      version := version + 1;
    }
  }

  // ---------------------------------------------------------------------------
  // The shared tables and the handlers that change them
  // ---------------------------------------------------------------------------

  datatype AdminOutcome = Created | Deleted | InvalidIp | AlreadyExists | NotFound

  /** The allowlist after an admin request, with the HTTP outcome. */
  function AddIp(normalize: AddressParser, allowlist: set<string>, ip: string): (set<string>, AdminOutcome) {
    match normalize(ip)
    case None => (allowlist, InvalidIp)
    case Some(n) => if n in allowlist then (allowlist, AlreadyExists) else (allowlist + {n}, Created)
  }

  function RemoveIp(normalize: AddressParser, allowlist: set<string>, ip: string): (set<string>, AdminOutcome) {
    match normalize(ip)
    case None => (allowlist, InvalidIp)
    case Some(n) => if n in allowlist then (allowlist - {n}, Deleted) else (allowlist, NotFound)
  }

  class FirewallDatabase {
    var allowlist: set<string>
    var versions: map<string, int>

    /** `CacheInvalidationPoller.bump`: insert version 1 or add one. */
    method Bump(namespace: string)
      modifies this`versions
      ensures versions
              == old(versions)[namespace := (if namespace in old(versions) then old(versions)[namespace] else 0) + 1]
    {
      if namespace in versions {
        versions := versions[namespace := versions[namespace] + 1];
      } else {
        versions := versions[namespace := 1];
      }
    }
  }

  /** `add_firewall_ip`: commit, then invalidate locally, then bump.  A request
      that is refused changes nothing. */
  method AddFirewallIp(normalize: AddressParser, db: FirewallDatabase, cache: FirewallIPCache, ip: string)
    returns (outcome: AdminOutcome)
    modifies db, cache
    ensures (db.allowlist, outcome) == AddIp(normalize, old(db.allowlist), ip)
    ensures outcome.InvalidIp? <==> normalize(ip).None?
    ensures outcome.AlreadyExists? <==> normalize(ip).Some? && normalize(ip).value in old(db.allowlist)
    ensures outcome.Created? ==> db.allowlist == old(db.allowlist) + {normalize(ip).value}
    ensures outcome.Created? <==> db.allowlist != old(db.allowlist)
    ensures !outcome.Created? ==> db.versions == old(db.versions) && cache.View() == old(cache.View())
    ensures outcome.Created? ==>
              && cache.View() == Invalidate(old(cache.View()))
              && Coherent(normalize, db.allowlist, cache.View())
              && NAMESPACE_FIREWALL in db.versions
              && db.versions[NAMESPACE_FIREWALL]
                 == (if NAMESPACE_FIREWALL in old(db.versions) then old(db.versions)[NAMESPACE_FIREWALL] else 0) + 1
  {
    var normalized := normalize(ip);
    if normalized.None? {
      return InvalidIp;
    }
    if normalized.value in db.allowlist {
      return AlreadyExists;
    }
    db.allowlist := db.allowlist + {normalized.value};
    cache.InvalidateAll();
    db.Bump(NAMESPACE_FIREWALL);
    return Created;
  }

  /** `delete_firewall_ip`, in the same order. */
  method DeleteFirewallIp(normalize: AddressParser, db: FirewallDatabase, cache: FirewallIPCache, ip: string)
    returns (outcome: AdminOutcome)
    modifies db, cache
    ensures (db.allowlist, outcome) == RemoveIp(normalize, old(db.allowlist), ip)
    ensures outcome.InvalidIp? <==> normalize(ip).None?
    ensures outcome.NotFound? <==> normalize(ip).Some? && normalize(ip).value !in old(db.allowlist)
    ensures outcome.Deleted? ==> db.allowlist == old(db.allowlist) - {normalize(ip).value}
    ensures outcome.Deleted? <==> db.allowlist != old(db.allowlist)
    ensures !outcome.Deleted? ==> db.versions == old(db.versions) && cache.View() == old(cache.View())
    ensures outcome.Deleted? ==>
              && cache.View() == Invalidate(old(cache.View()))
              && Coherent(normalize, db.allowlist, cache.View())
              && NAMESPACE_FIREWALL in db.versions
              && db.versions[NAMESPACE_FIREWALL]
                 == (if NAMESPACE_FIREWALL in old(db.versions) then old(db.versions)[NAMESPACE_FIREWALL] else 0) + 1
  {
    var normalized := normalize(ip);
    if normalized.None? {
      return InvalidIp;
    }
    if normalized.value !in db.allowlist {
      return NotFound;
    }
    db.allowlist := db.allowlist - {normalized.value};
    cache.InvalidateAll();
    db.Bump(NAMESPACE_FIREWALL);
    return Deleted;
  }

  /** The decision part of `api_firewall_middleware`, run without interruption:
      a coherent cache stays coherent, and the answer is the one the allowlist gives. */
  method CheckRequest(normalize: AddressParser, db: FirewallDatabase, cache: FirewallIPCache,
                      clientIp: Option<string>, now: real, later: real)
    returns (allowed: bool)
    modifies cache
    ensures cache.version == old(cache.version)
    ensures old(Coherent(normalize, db.allowlist, cache.View())) ==>
              && Coherent(normalize, db.allowlist, cache.View())
              && allowed == IsIpAllowed(normalize, db.allowlist, clientIp)
    ensures clientIp.None? ==> cache.View() == old(cache.View()) && (allowed <==> db.allowlist == {})
    ensures clientIp.Some? && Lookup(old(cache.View()), clientIp.value, now).None? ==>
              (allowed <==> db.allowlist == {}
                            || (normalize(clientIp.value).Some? && normalize(clientIp.value).value in db.allowlist))
    ensures clientIp.Some? && Lookup(old(cache.View()), clientIp.value, now).None? ==>
              && allowed == IsIpAllowed(normalize, db.allowlist, clientIp)
              && cache.entries == old(cache.entries)[clientIp.value := Entry(allowed, later + cache.ttlSeconds as real)]
  {
    var cached: Option<bool> := None;
    if clientIp.Some? {
      cached := cache.IsAllowed(clientIp.value, now);
    }
    if cached.Some? {
      return cached.value;
    }
    var versionBeforeRead := cache.version;
    allowed := IsIpAllowed(normalize, db.allowlist, clientIp);
    if clientIp.Some? {
      cache.Set(clientIp.value, allowed, later, Some(versionBeforeRead));
    }
  }

  // ---------------------------------------------------------------------------
  // The poller
  // ---------------------------------------------------------------------------

  /** What one poll can change: the versions it knows, whether a poll has ever
      completed, and the cache its firewall callback clears. */
  datatype PollState = PollState(known: map<string, int>, initialized: bool, cache: Cache)

  type VersionRow = (string, int)

  /** Does a row make the poller call the callbacks of its namespace? */
  predicate Fires(p: PollState, namespace: string, version: int) {
    if namespace in p.known then version != p.known[namespace]
    else p.initialized && version > 0
  }

  function ApplyRow(p: PollState, row: VersionRow): PollState {
    PollState(p.known[row.0 := row.1], p.initialized,
              if row.0 == NAMESPACE_FIREWALL && Fires(p, row.0, row.1) then Invalidate(p.cache) else p.cache)
  }

  function ApplyRows(p: PollState, rows: seq<VersionRow>): PollState {
    if rows == [] then p else ApplyRow(ApplyRows(p, rows[..|rows| - 1]), rows[|rows| - 1])
  }

  /** `_poll_once` given the rows it read; `None` is a failed read. */
  function Polled(p: PollState, rows: Option<seq<VersionRow>>): PollState {
    match rows
    case None => p
    case Some(rs) => ApplyRows(p, rs).(initialized := true)
  }

  /** The namespace is the primary key of the version table. */
  predicate DistinctNamespaces(rows: seq<VersionRow>) {
    forall i, j :: 0 <= i < j < |rows| ==> rows[i].0 != rows[j].0
  }

  function VersionOf(rows: seq<VersionRow>, namespace: string): Option<int> {
    if rows == [] then None
    else if rows[|rows| - 1].0 == namespace then Some(rows[|rows| - 1].1)
    else VersionOf(rows[..|rows| - 1], namespace)
  }

  /** Rows of other namespaces are invisible to the firewall cache, and the
      firewall row is judged against the state before the poll. */
  lemma {:induction false} PollSeesOneRow(p: PollState, rows: seq<VersionRow>)
    requires DistinctNamespaces(rows)
    ensures var q := ApplyRows(p, rows);
            && q.initialized == p.initialized
            && (forall n :: n in q.known <==> n in p.known || VersionOf(rows, n).Some?)
            && (forall n :: n in q.known ==>
                  q.known[n] == (if VersionOf(rows, n).Some? then VersionOf(rows, n).value else p.known[n]))
            && q.cache == (match VersionOf(rows, NAMESPACE_FIREWALL)
                           case None => p.cache
                           case Some(v) =>
                             if (if NAMESPACE_FIREWALL in p.known then v != p.known[NAMESPACE_FIREWALL]
                                 else p.initialized && v >= 1)
                             then Invalidate(p.cache) else p.cache)
  {
    if rows != [] {
      var front, last := rows[..|rows| - 1], rows[|rows| - 1];
      PollSeesOneRow(p, front);
      VersionOfAbsent(front, last.0);
    }
  }

  lemma {:induction false} VersionOfAbsent(rows: seq<VersionRow>, namespace: string)
    requires forall i :: 0 <= i < |rows| ==> rows[i].0 != namespace
    ensures VersionOf(rows, namespace).None?
  {
    if rows != [] {
      VersionOfAbsent(rows[..|rows| - 1], namespace);
    }
  }

  class CacheInvalidationPoller {
    var knownVersions: map<string, int>
    var pollInitialized: bool
    const cache: FirewallIPCache

    ghost function View(): PollState
      reads this, cache
    {
      PollState(knownVersions, pollInitialized, cache.View())
    }

    /** `app/main.py` registers one callback: the cache's `invalidate_all`. */
    constructor (cache: FirewallIPCache)
      ensures this.cache == cache && View() == PollState(map[], false, cache.View())
    {
      this.cache := cache;
      knownVersions := map[];
      pollInitialized := false;
    }

    method PollOnce(rows: Option<seq<VersionRow>>)
      modifies this, cache
      ensures View() == Polled(old(View()), rows)
      ensures pollInitialized <==> old(pollInitialized) || rows.Some?
      ensures rows.None? ==> knownVersions == old(knownVersions) && cache.View() == old(cache.View())
    {
      if rows.None? {
        return;
      }
      for i := 0 to |rows.value|
        invariant View() == ApplyRows(old(View()), rows.value[..i])
      {
        var (namespace, version) := rows.value[i];
        if namespace in knownVersions {
          if version != knownVersions[namespace] && namespace == NAMESPACE_FIREWALL {
            cache.InvalidateAll();
          }
        } else if pollInitialized && version > 0 && namespace == NAMESPACE_FIREWALL {
          cache.InvalidateAll();
        }
        knownVersions := knownVersions[namespace := version];
        assert rows.value[..i + 1][..i] == rows.value[..i];
      }
      assert rows.value[..|rows.value|] == rows.value;
      pollInitialized := true;
    }
  }
}
