/**
 Finding the client behind trusted proxies: the walk along the X-Forwarded-For chain,
 which the source has twice.  Address parsing and the configured networks are two
 predicates on text.
 */
module ForwardedChain {
  import opened Common
  import opened Text

  type Predicate = string -> bool

  function Hops(forwardedFor: string): (hops: seq<string>)
    ensures hops != []
  {
    var entries := Split(forwardedFor, ',');
    seq(|entries|, i requires 0 <= i < |entries| => Strip(entries[i]))
  }

  predicate AllValid(valid: Predicate, hops: seq<string>) {
    forall i :: 0 <= i < |hops| ==> valid(hops[i])
  }

  /** Everything right of `i` is trusted, and `i` is not, unless nothing is left of it. */
  predicate StopsAt(trusted: Predicate, chain: seq<string>, i: nat) {
    && i < |chain|
    && (forall k :: i < k < |chain| ==> trusted(chain[k]))
    && (trusted(chain[i]) ==> i == 0)
  }

  /** The rightmost hop that is not trusted; the leftmost if all are. */
  ghost predicate IsClient(trusted: Predicate, chain: seq<string>, client: string) {
    exists i: nat :: StopsAt(trusted, chain, i) && chain[i] == client
  }

  lemma {:induction false} StopIsUnique(trusted: Predicate, chain: seq<string>, i: nat, j: nat)
    requires StopsAt(trusted, chain, i) && StopsAt(trusted, chain, j)
    ensures i == j
  {
  }

  lemma {:induction false} ClientIsUnique(trusted: Predicate, chain: seq<string>, a: string, b: string)
    requires IsClient(trusted, chain, a) && IsClient(trusted, chain, b)
    ensures a == b
  {
    var i: nat :| StopsAt(trusted, chain, i) && chain[i] == a;
    var j: nat :| StopsAt(trusted, chain, j) && chain[j] == b;
    StopIsUnique(trusted, chain, i, j);
  }

  /** The loop of the firewall's copy, from the socket leftwards. */
  method WalkChain(trusted: Predicate, chain: seq<string>) returns (resolved: string)
    requires chain != []
    ensures IsClient(trusted, chain, resolved)
  {
    resolved := chain[|chain| - 1];
    var index := |chain| - 1;
    while index > 0
      invariant 0 <= index < |chain| && resolved == chain[index]
      invariant forall k :: index < k < |chain| ==> trusted(chain[k])
    {
      var currentProxy := chain[index];
      var previousHop := chain[index - 1];
      if !trusted(currentProxy) {
        resolved := currentProxy;
        break;
      }
      resolved := previousHop;
      index := index - 1;
    }
    assert StopsAt(trusted, chain, index);
  }

  /** The firewall's copy: an invalid chain resolves to nothing. */
  method FirewallChain(valid: Predicate, trusted: Predicate, socketIp: string, forwardedFor: string)
    returns (client: Option<string>)
    ensures client.Some? <==> AllValid(valid, Hops(forwardedFor))
    ensures client.Some? ==> IsClient(trusted, Hops(forwardedFor) + [socketIp], client.value)
  {
    var hops := Hops(forwardedFor);
    for i := 0 to |hops|
      invariant forall k :: 0 <= k < i ==> valid(hops[k])
    {
      if !valid(hops[i]) {
        return None;
      }
    }
    var resolved := WalkChain(trusted, hops + [socketIp]);
    return Some(resolved);
  }

  datatype ChainResult = Resolved(ip: string) | InvalidChain

  /** The client exactly when every hop is an address. */
  ghost predicate LocalityAnswer(valid: Predicate, trusted: Predicate, socketIp: string, forwardedFor: string,
                                 r: ChainResult) {
    && (r.Resolved? <==> AllValid(valid, Hops(forwardedFor)))
    && (r.Resolved? ==> IsClient(trusted, Hops(forwardedFor) + [socketIp], r.ip))
  }

  /** The locality module's copy: an invalid chain is a `ValueError`. */
  method LocalityChain(valid: Predicate, trusted: Predicate, socketIp: string, forwardedFor: string)
    returns (r: ChainResult)
    ensures LocalityAnswer(valid, trusted, socketIp, forwardedFor, r)
  {
    var hops := Hops(forwardedFor);
    for i := 0 to |hops|
      invariant forall k :: 0 <= k < i ==> valid(hops[k])
    {
      if !valid(hops[i]) {
        return InvalidChain;
      }
    }
    var chain := hops + [socketIp];
    var resolved := socketIp;
    var index := |chain| - 1;
    while index > 0
      invariant 0 <= index < |chain| && resolved == chain[index]
      invariant forall k :: index < k < |chain| ==> trusted(chain[k])
    {
      if !trusted(chain[index]) {
        resolved := chain[index];
        break;
      }
      resolved := chain[index - 1];
      index := index - 1;
    }
    assert StopsAt(trusted, chain, index);
    return Resolved(resolved);
  }

  /** Both copies find the same client on every valid chain, and fail on the same
      ones. */
  method CopiesAgree(valid: Predicate, trusted: Predicate, socketIp: string, forwardedFor: string)
    returns (firewall: Option<string>, locality: ChainResult)
    ensures firewall == if locality.Resolved? then Some(locality.ip) else None
  {
    firewall := FirewallChain(valid, trusted, socketIp, forwardedFor);
    locality := LocalityChain(valid, trusted, socketIp, forwardedFor);
    if firewall.Some? && locality.Resolved? {
      ClientIsUnique(trusted, Hops(forwardedFor) + [socketIp], firewall.value, locality.ip);
    }
  }

  /** The header counts: it is there, it comes from a trusted proxy, and it is a chain
      of addresses. */
  predicate Believed(valid: Predicate, trusted: Predicate, trustProxyHeaders: bool, socketIp: string,
                     forwardedFor: Option<string>) {
    && trustProxyHeaders && socketIp != "" && trusted(socketIp)
    && forwardedFor.Some? && forwardedFor.value != "" && AllValid(valid, Hops(forwardedFor.value))
  }

  ghost predicate FirewallAnswer(valid: Predicate, trusted: Predicate, trustProxyHeaders: bool,
                                 socketIp: Option<string>, forwardedFor: Option<string>, client: Option<string>) {
    && (client.Some? <==> socketIp.Some?)
    && (socketIp.Some? ==>
          if Believed(valid, trusted, trustProxyHeaders, socketIp.value, forwardedFor)
          then IsClient(trusted, Hops(forwardedFor.value) + [socketIp.value], client.value)
          else client == socketIp)
  }

  /** `resolve_connection_client_ip` of the firewall: headers count only when the
      socket is a trusted proxy, and a bad chain falls back to the socket. */
  method ResolveConnectionClientIp(valid: Predicate, trusted: Predicate, trustProxyHeaders: bool,
                                   socketIp: Option<string>, forwardedFor: Option<string>)
    returns (client: Option<string>)
    ensures FirewallAnswer(valid, trusted, trustProxyHeaders, socketIp, forwardedFor, client)
  {
    if trustProxyHeaders && socketIp.Some? && socketIp.value != "" && trusted(socketIp.value) {
      if forwardedFor.Some? && forwardedFor.value != "" {
        var resolved := FirewallChain(valid, trusted, socketIp.value, forwardedFor.value);
        if resolved.Some? {
          return resolved;
        }
      }
    }
    return socketIp;
  }

  // ---------------------------------------------------------------------------
  // What a client can and cannot forge
  // ---------------------------------------------------------------------------

  ghost predicate SomeUntrusted(trusted: Predicate, chain: seq<string>) {
    exists i :: 0 <= i < |chain| && !trusted(chain[i])
  }

  function Stop(trusted: Predicate, chain: seq<string>): (i: nat)
    requires chain != []
    ensures StopsAt(trusted, chain, i)
  {
    var n := |chain| - 1;
    if n == 0 || !trusted(chain[n]) then n else Stop(trusted, chain[..n])
  }

  lemma {:induction false} StopMovesAlong(trusted: Predicate, forged: seq<string>, chain: seq<string>, i: nat)
    requires SomeUntrusted(trusted, chain) && StopsAt(trusted, chain, i)
    ensures StopsAt(trusted, forged + chain, |forged| + i)
  {
    var n := |forged|;
    var u :| 0 <= u < |chain| && !trusted(chain[u]);
    assert forall k :: 0 <= k < |chain| ==> (forged + chain)[n + k] == chain[k];
    forall k | n + i < k < |forged + chain|
      ensures trusted((forged + chain)[k])
    {
      assert (forged + chain)[k] == chain[k - n];
    }
  }

  /** Hops written in front change nothing once some hop is untrusted. */
  lemma {:induction false} PrependedHopsAreIgnored(trusted: Predicate, forged: seq<string>, chain: seq<string>,
                                                   client: string)
    requires SomeUntrusted(trusted, chain)
    ensures IsClient(trusted, chain, client) <==> IsClient(trusted, forged + chain, client)
  {
    var i := Stop(trusted, chain);
    StopMovesAlong(trusted, forged, chain, i);
    assert (forged + chain)[|forged| + i] == chain[i];
    assert IsClient(trusted, chain, chain[i]) && IsClient(trusted, forged + chain, chain[i]);
    if IsClient(trusted, chain, client) {
      ClientIsUnique(trusted, chain, client, chain[i]);
    }
    if IsClient(trusted, forged + chain, client) {
      ClientIsUnique(trusted, forged + chain, client, chain[i]);
    }
  }

  lemma {:induction false} HopsConcat(front: string, back: string)
    ensures Hops(front + "," + back) == Hops(front) + Hops(back)
  {
    SplitConcat(front, back, ',');
  }

  /** The walk along a longer header, as long as the chain is walked at all. */
  lemma {:induction false} WalkIgnoresFront(trusted: Predicate, front: string, header: string, socketIp: string,
                                            client: string)
    requires SomeUntrusted(trusted, Hops(header) + [socketIp])
    ensures IsClient(trusted, Hops(header) + [socketIp], client)
            <==> IsClient(trusted, Hops(front + "," + header) + [socketIp], client)
  {
    HopsConcat(front, header);
    assert Hops(front + "," + header) + [socketIp] == Hops(front) + (Hops(header) + [socketIp]);
    PrependedHopsAreIgnored(trusted, Hops(front), Hops(header) + [socketIp], client);
  }

  lemma {:induction false} ValidConcat(valid: Predicate, front: string, header: string)
    ensures AllValid(valid, Hops(front + "," + header))
            <==> AllValid(valid, Hops(front)) && AllValid(valid, Hops(header))
  {
    HopsConcat(front, header);
    var a, b := Hops(front), Hops(header);
    assert forall i :: 0 <= i < |a| ==> (a + b)[i] == a[i];
    assert forall i :: 0 <= i < |b| ==> (a + b)[|a| + i] == b[i];
  }

  /** An untrusted client is not the trusted proxy. */
  lemma {:induction false} UntrustedClient(trusted: Predicate, chain: seq<string>, client: string)
    requires SomeUntrusted(trusted, chain) && IsClient(trusted, chain, client)
    ensures !trusted(client)
  {
    var i: nat :| StopsAt(trusted, chain, i) && chain[i] == client;
    var u :| 0 <= u < |chain| && !trusted(chain[u]);
  }

  /** What a client can do to the firewall's answer by text in front of what the proxies
      append, once some hop is untrusted: nothing, if that text is a chain of addresses.
      If it is not, the answer is the proxy's own address instead of the client's. */
  lemma {:induction false} ForgedHeaderExactly(valid: Predicate, trusted: Predicate, proxy: string, front: string,
                                               header: string,
                                               plain: Option<string>, forged: Option<string>)
    requires proxy != "" && trusted(proxy) && header != "" && SomeUntrusted(trusted, Hops(header) + [proxy])
    requires FirewallAnswer(valid, trusted, true, Some(proxy), Some(header), plain)
    requires FirewallAnswer(valid, trusted, true, Some(proxy), Some(front + "," + header), forged)
    ensures forged == if AllValid(valid, Hops(front)) then plain else Some(proxy)
    ensures AllValid(valid, Hops(header)) ==> plain != Some(proxy)
    ensures forged == plain <==> AllValid(valid, Hops(front)) || !AllValid(valid, Hops(header))
  {
    ValidConcat(valid, front, header);
    if AllValid(valid, Hops(header)) {
      UntrustedClient(trusted, Hops(header) + [proxy], plain.value);
      if AllValid(valid, Hops(front)) {
        WalkIgnoresFront(trusted, front, header, proxy, forged.value);
        ClientIsUnique(trusted, Hops(header) + [proxy], plain.value, forged.value);
      }
    }
  }

  /** The locality module answers such a chain with an error instead. */
  lemma {:induction false} ForgedHeaderInLocality(valid: Predicate, trusted: Predicate, proxy: string, front: string,
                                                  header: string,
                                                  plain: ChainResult, forged: ChainResult)
    requires SomeUntrusted(trusted, Hops(header) + [proxy])
    requires LocalityAnswer(valid, trusted, proxy, header, plain)
    requires LocalityAnswer(valid, trusted, proxy, front + "," + header, forged)
    ensures forged == if AllValid(valid, Hops(front)) then plain else InvalidChain
  {
    ValidConcat(valid, front, header);
    if forged.Resolved? {
      WalkIgnoresFront(trusted, front, header, proxy, forged.ip);
      ClientIsUnique(trusted, Hops(header) + [proxy], plain.ip, forged.ip);
    }
  }

  /** Without trust in the headers or in the socket, without a header, or with a hop that
      is no address, the client is the socket; without a socket there is none. */
  lemma {:induction false} SocketIsTheClient(valid: Predicate, trusted: Predicate, trustProxyHeaders: bool,
                                             socketIp: Option<string>, forwardedFor: Option<string>,
                                               client: Option<string>)
    requires FirewallAnswer(valid, trusted, trustProxyHeaders, socketIp, forwardedFor, client)
    requires || !trustProxyHeaders || socketIp.None? || !trusted(socketIp.value)
             || forwardedFor.None? || forwardedFor.value == ""
             || exists i :: 0 <= i < |Hops(forwardedFor.value)| && !valid(Hops(forwardedFor.value)[i])
    ensures client == socketIp
  {
  }

  lemma {:induction false} OneHop(entry: string)
    requires ',' !in entry
    ensures Hops(entry) == [Strip(entry)]
  {
    SplitWhole(entry, ',');
  }

  /** A client that a proxy reports, and that writes one word in front which is no
      address, is seen as the proxy. */
  lemma {:induction false} InvalidHopHidesTheClient(valid: Predicate, trusted: Predicate, proxy: string,
                                                    client: string, word: string)
    requires proxy != "" && trusted(proxy)
    requires client != "" && ',' !in client && Strip(client) == client && valid(client) && !trusted(client)
    requires ',' !in word && !valid(Strip(word))
    ensures FirewallAnswer(valid, trusted, true, Some(proxy), Some(client), Some(client))
    ensures FirewallAnswer(valid, trusted, true, Some(proxy), Some(word + "," + client), Some(proxy))
    ensures client != proxy
  {
    OneHop(client);
    OneHop(word);
    ValidConcat(valid, word, client);
    assert !valid(Hops(word)[0]);
    assert AllValid(valid, Hops(client));
    assert Hops(client) + [proxy] == [client, proxy];
    assert StopsAt(trusted, [client, proxy], 0);
    assert IsClient(trusted, [client, proxy], client);
  }

  /** And without an untrusted hop: in front of hops that are all trusted, a forged hop is the answer. */
  lemma {:induction false} TrustedChainBelievesTheFront(trusted: Predicate, forged: string, chain: seq<string>)
    requires !SomeUntrusted(trusted, chain)
    ensures IsClient(trusted, [forged] + chain, forged)
  {
    var longer := [forged] + chain;
    assert longer[0] == forged;
    assert StopsAt(trusted, longer, 0) by {
      assert forall k :: 0 < k < |longer| ==> longer[k] == chain[k - 1];
    }
  }
}
