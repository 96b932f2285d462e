/**
  Endpoints from end to end: what a poll or a request puts into the cache, what a pass then stores, and what a
  query shows.
 */
module Endpoints {
  import opened Options
  import opened Text
  import opened Labels
  import opened Addresses
  import opened PeerKeys
  import opened Cache
  import opened Etcd
  import opened EtcdSync
  import opened Loader
  import opened Startup
  import opened WgMonitor
  import opened Ddns
  import opened EtcdClient
  import opened System
  import opened Resolver
  import opened Resolution
  import opened ValonSync

  // ---- Into etcd

  lemma PassStores(cache: CacheView, store: Store, after: Store, k: string)
    requires SyncResult(cache, store, {}, after) && k in cache && cache[k].dirty
    ensures cache[k].wgIP != "" ==> Lookup(after, PeerKey(k, WgIp)) == Some(cache[k].wgIP)
    ensures cache[k].lanEndpoint != "" ==> Lookup(after, PeerKey(k, Lan)) == Some(cache[k].lanEndpoint)
    ensures cache[k].natEndpoint != "" ==> Lookup(after, PeerKey(k, Nated)) == Some(cache[k].natEndpoint)
    ensures cache[k].lanEndpoint == "" ==> Lookup(after, PeerKey(k, Lan)) == Lookup(store, PeerKey(k, Lan))
  {
    hide PeerKey;
    assert forall f :: Lookup(after, PeerKey(k, f)) == SyncedField(cache, store, {}, k, f);
  }

  /** A poll that saw a peer's endpoint, and a pass without failures: the endpoint is in etcd. */
  lemma PollThenPassStores(c: Config, s: State, endpoints: map<string, string>, failed: set<string>, t: State,
                           u: State, k: string)
    requires PluginStep(c, s, Poll(endpoints, failed), t) && PluginStep(c, t, Sync({}), u)
    requires k in s.device && k in endpoints && endpoints[k] != ""
    requires k in s.cache || (k !in failed && HasFields(s.store, k))
    ensures k in t.cache && t.cache[k].natEndpoint == endpoints[k]
    ensures Lookup(u.store, PeerKey(k, Nated)) == Some(endpoints[k])
    ensures s.device[k] != "" ==>
      t.cache[k].wgIP == s.device[k] && Lookup(u.store, PeerKey(k, WgIp)) == Some(s.device[k])
  {
    hide PeerKey, HasFields, Polled, SyncResult;
    PolledFields(s.cache, s.store, Sightings(s.device, endpoints), failed, k);
    PassStores(t.cache, t.store, u.store, k);
  }

  /** A request with a LAN endpoint, and a pass without failures: the endpoint is in etcd. */
  lemma UpdateThenPassStores(c: Config, s: State, ev: Event, t: State, u: State)
    requires ev.DdnsUpdate? && PluginStep(c, s, ev, t) && PluginStep(c, t, Sync({}), u)
    requires ev.lan != "" && ev.lan != OFFLINE
    ensures ev.k in t.cache && t.cache[ev.k].lanEndpoint == ev.lan
    ensures Lookup(u.store, PeerKey(ev.k, Lan)) == Some(ev.lan)
  {
    hide PeerKey, SyncResult, AliasWritten;
    UpdatedLan(s.cache, ev.k, ev.lan);
    PassStores(t.cache, t.store, u.store, ev.k);
  }

  /** The peer is cached with an endpoint, and asks for none. */
  ghost predicate GoesOffline(c: Config, s: State, ev: Event, t: State) {
    ev.DdnsUpdate? && ev.lan == "0.0.0.0:0" && PluginStep(c, s, ev, t) && s.cache[ev.k].lanEndpoint != OFFLINE
  }

  /**
    Going offline lasts until the next restart: the cached endpoint is gone, but a pass writes no empty
    field, and so a load brings the stored endpoint back, exactly if it can be read.
   */
  lemma OfflineUntilRestart(c: Config, s: State, ev: Event, t: State, failed: set<string>, u: State, restart: Event,
                            v: State)
    requires Sane(s) && GoesOffline(c, s, ev, t) && ev.k != c.self
    requires PluginStep(c, t, Sync(failed), u) && PluginStep(c, u, restart, v) && restart.Restart? && restart.loadOk
    ensures Lookup(t.cache, ev.k) == Some(s.cache[ev.k].(lanEndpoint := "", dirty := true))
    ensures Lookup(u.store, PeerKey(ev.k, Lan)) == Lookup(s.store, PeerKey(ev.k, Lan))
    ensures (if ev.k in v.cache then v.cache[ev.k].lanEndpoint else "")
            == if LoaderReads(ev.k, Lan) then TextOr(Lookup(s.store, PeerKey(ev.k, Lan))) else ""
  {
    hide PeerKey, IsPubkey, LoaderReads, Loadable, HoldsPeers, AliasWritten, AliasKey, RestoredDevice;
    var k := ev.k;
    assert IsPubkey(k) by { assert s.cache[k].wgIP != ""; }
    UpdatedLan(s.cache, k, ev.lan);
    RegistrationKeepsField(s.store, k, ev.alias, ev.aliasOk, ev.fieldOk, Lan);
    assert Lookup(u.store, PeerKey(k, Lan)) == SyncedField(t.cache, t.store, failed, k, Lan);
    var loaded :| LoadResult(u.store, loaded) && v.cache == loaded[c.self := SelfEntry(c.self, c.selfIP)];
    assert EntryField(EntryOr(loaded, k), Lan) == LoadedText(u.store, k, Lan);
  }

  lemma RegistrationKeepsField(store: Store, k: string, alias: string, aliasOk: bool, fieldOk: bool, f: Field)
    requires f != Alias
    ensures Lookup(AliasWritten(store, k, alias, aliasOk, fieldOk), PeerKey(k, f)) == Lookup(store, PeerKey(k, f))
  {
    hide PeerKey, AliasKey, PubkeyToDnsLabel;
    PeerKeyIsNoAliasKey(k, f, alias);
    if PeerKey(k, f) == PeerKey(k, Alias) { PeerKeyInjective(k, f, k, Alias); }
  }

  // ---- The cache over whole runs: the last writer of each endpoint wins

  /** The endpoint under which the step saw the peer; empty if it did not. */
  function Seen(s: State, ev: Event, k: string): string {
    if ev.Poll? && k in s.device && k in ev.endpoints then ev.endpoints[k] else ""
  }

  /** The last non-empty sighting among the first `n` steps. */
  ghost function LastSeen(states: seq<State>, events: seq<Event>, k: string, n: nat): string
    requires |states| == |events| + 1 && n <= |events|
  {
    if n == 0 then ""
    else if Seen(states[n - 1], events[n - 1], k) != "" then Seen(states[n - 1], events[n - 1], k)
    else LastSeen(states, events, k, n - 1)
  }

  /** The last LAN endpoint that the peer asked for among the first `n` steps; offline is none. */
  function LastAsked(events: seq<Event>, k: string, n: nat): Option<string>
    requires n <= |events|
  {
    if n == 0 then None
    else if events[n - 1].DdnsUpdate? && events[n - 1].k == k then
      Some(if events[n - 1].lan == OFFLINE then "" else events[n - 1].lan)
    else LastAsked(events, k, n - 1)
  }

  /** The step neither replaces the cache nor deletes the peer from it. */
  predicate KeepsEntry(s: State, ev: Event, k: string) {
    !ev.Restart? && !(ev.RemoveCache? && ev.ok && s.cmd.Removing? && s.cmd.k == k)
  }

  ghost predicate StaysCached(c: Config, states: seq<State>, events: seq<Event>, k: string, n: nat)
    requires n <= |events|
  {
    && Run(c, states, events) && k in states[0].cache && states[0].cache[k].lanEndpoint != OFFLINE
    && forall i :: 0 <= i < n ==> KeepsEntry(states[i], events[i], k)
  }

  lemma StepWrites(c: Config, s: State, ev: Event, t: State, k: string)
    requires Step(c, s, ev, t) && KeepsEntry(s, ev, k) && k in s.cache && s.cache[k].lanEndpoint != OFFLINE
    ensures k in t.cache
    ensures t.cache[k].natEndpoint == if Seen(s, ev, k) != "" then Seen(s, ev, k) else s.cache[k].natEndpoint
    ensures t.cache[k].lanEndpoint == if ev.DdnsUpdate? && ev.k == k then if ev.lan == OFFLINE then "" else ev.lan
                                      else s.cache[k].lanEndpoint
  {
    hide PeerKey, IsPubkey, Polled, SyncResult, AliasWritten, Classify, ValidLan, AddArguments, Intact, WithoutPrefix,
      HasFields, AddedPeer;
    if ev.Poll? {
      var seen := Sightings(s.device, ev.endpoints);
      PolledLookup(s.cache, s.store, seen, ev.failed, k);
      if k in seen { PolledFields(s.cache, s.store, seen, ev.failed, k); }
    } else if ev.DdnsUpdate? {
      UpdatedLan(s.cache, ev.k, ev.lan);
    }
  }

  /**
    Over whole runs: as long as a cached peer is neither deleted from the cache nor reloaded, its NAT endpoint
    is the last one seen and its LAN endpoint the last one asked for, whatever else happens in between.
   */
  lemma {:induction false} LastWriterWins(c: Config, states: seq<State>, events: seq<Event>, k: string, n: nat)
    requires n <= |events| && StaysCached(c, states, events, k, n)
    ensures k in states[n].cache && states[n].cache[k].lanEndpoint != OFFLINE
    ensures var seen := LastSeen(states, events, k, n);
            states[n].cache[k].natEndpoint == if seen != "" then seen else states[0].cache[k].natEndpoint
    ensures var asked := LastAsked(events, k, n);
            states[n].cache[k].lanEndpoint == if asked.Some? then asked.value else states[0].cache[k].lanEndpoint
  {
    hide Step;
    if n > 0 {
      LastWriterWins(c, states, events, k, n - 1);
      assert Step(c, states[n - 1], events[n - 1], states[n]);
      StepWrites(c, states[n - 1], events[n - 1], states[n], k);
    }
  }

  // ---- Out of the resolver

  /** Nothing, or a host and a port in the form Go prints them. */
  datatype Endpoint = Endpoint(host: address, port: nat)

  predicate Holds(text: string, e: Option<Endpoint>) {
    match e
    case None => text == ""
    case Some(p) => p.port <= 65535 && text == EndpointText(p.host, p.port)
  }

  function KindName(k: string, kind: string, zone: string): string
    requires IsPubkey(k)
  {
    FQDN(kind + "." + LabelOf(k), zone)
  }

  function KindEndpoint(e: Entry, kind: string): string {
    if kind == "lan" then e.lanEndpoint else e.natEndpoint
  }

  /** The address query for an endpoint answers with the host of the endpoint, or not at all. */
  lemma EndpointQuery(cache: CacheView, store: Store, zone: string, k: string, kind: string)
    requires IsPubkey(k) && IsKind(kind)
    ensures var qname := KindName(k, kind, zone);
            var hp := if k in cache then SplitHostPort(KindEndpoint(cache[k], kind)) else None;
            AReply(cache, store, zone, qname)
            == if hp.Some? && ParseIPv4(hp.value.host).Some?
               then Success([A(qname, ParseIPv4(hp.value.host).value)], []) else NxDomain
  {
    hide IsPubkey, DnsLabelToPubkey, ParseIPv4, WithoutZone, QuestionOf, FQDN, LookupAlias, CnameReply, LabelOf,
      SplitHostPort;
    WithoutZoneOfName(kind + "." + LabelOf(k), zone);
    KindQuestion(kind, LabelOf(k));
    KeyLabel(k);
    assert SplitHostPort("") == None by { EmptyHasNoPort(); }
  }

  lemma EmptyHasNoPort()
    ensures SplitHostPort("") == None
  {
  }

  lemma SrvOfKey(cache: CacheView, zone: string, k: string)
    requires IsPubkey(k)
    ensures SrvReply(cache, zone, FQDN("_wireguard._udp." + LabelOf(k), zone))
            == if k in cache then PeerSrvReply(cache[k], zone, FQDN("_wireguard._udp." + LabelOf(k), zone), LabelOf(k))
               else NxDomain
  {
    hide IsPubkey, LabelOf, WithoutZone, FQDN, DnsLabelToPubkey, PubkeyToDnsLabel, HasPrefix, PeerSrvReply, TrimPrefix;
    WithoutZoneOfName("_wireguard._udp." + LabelOf(k), zone);
    PrefixConcat(PEER_SERVICE, LabelOf(k));
    KeyLabel(k);
  }

  lemma KindsApart(k: string, zone: string)
    requires IsPubkey(k)
    ensures KindName(k, "lan", zone) == FQDN("lan." + LabelOf(k), zone)
    ensures KindName(k, "nated", zone) == FQDN("nated." + LabelOf(k), zone)
    ensures KindName(k, "lan", zone) != KindName(k, "nated", zone)
  {
    hide IsPubkey, LabelOf;
    assert "lan" + "." + LabelOf(k) == "lan." + LabelOf(k) && "nated" + "." + LabelOf(k) == "nated." + LabelOf(k);
    assert KindName(k, "lan", zone)[0] == 'l' && KindName(k, "nated", zone)[0] == 'n';
  }

  /**
    The additional section of a peer's service reply: for each kind of endpoint the address record of its name
    is there exactly when the query for that name answers with it, and there is nothing else.
   */
  lemma ExtraIsWhatQueriesAnswer(cache: CacheView, store: Store, zone: string, k: string, rr: RR)
    requires IsPubkey(k) && k in cache
    ensures var reply := SrvReply(cache, zone, FQDN("_wireguard._udp." + LabelOf(k), zone));
            reply.Success? && rr in reply.extra
            <==> exists kind :: IsKind(kind) && rr.name == KindName(k, kind, zone)
                                && AReply(cache, store, zone, rr.name) == Success([rr], [])
  {
    hide IsPubkey, LabelOf, FQDN, AReply, SrvReply, ParseIPv4, SplitHostPort;
    SrvOfKey(cache, zone, k);
    KindsApart(k, zone);
    EndpointQuery(cache, store, zone, k, "lan");
    EndpointQuery(cache, store, zone, k, "nated");
    assert IsKind("lan") && IsKind("nated");
  }

  function ServiceRecord(qname: string, priority: nat, target: string, e: Option<Endpoint>): seq<RR> {
    if e.Some? then [SRV(qname, priority, 0, e.value.port, target)] else []
  }

  function HostRecord(target: string, e: Option<Endpoint>): seq<RR> {
    if e.Some? then [A(target, e.value.host)] else []
  }

  lemma CanonicalRecords(qname: string, priority: nat, target: string, text: string, e: Option<Endpoint>)
    requires Holds(text, e)
    ensures EndpointAnswer(qname, priority, target, text) == ServiceRecord(qname, priority, target, e)
    ensures EndpointExtra(target, text) == HostRecord(target, e)
  {
    hide EndpointText, FormatNat, Dotted, SplitHostPort, ParseIPv4;
    match e
    case None => EmptyHasNoPort();
    case Some(p) =>
      SplitEndpoint(p.host, p.port);
      PortOfFormat(p.port);
      ParseDotted(p.host);
  }

  /** The reply about a peer with canonical or missing endpoints: the LAN records, then the NAT records. */
  lemma CanonicalReply(cache: CacheView, zone: string, k: string, lan: Option<Endpoint>, nated: Option<Endpoint>)
    requires IsPubkey(k) && k in cache && Holds(cache[k].lanEndpoint, lan) && Holds(cache[k].natEndpoint, nated)
    ensures var qname := FQDN("_wireguard._udp." + LabelOf(k), zone);
            var lanName, natName := KindName(k, "lan", zone), KindName(k, "nated", zone);
            SrvReply(cache, zone, qname)
            == if lan.None? && nated.None? then NxDomain
               else Success(ServiceRecord(qname, 0, lanName, lan) + ServiceRecord(qname, 10, natName, nated),
                            HostRecord(lanName, lan) + HostRecord(natName, nated))
  {
    hide IsPubkey, LabelOf, FQDN, SrvReply, EndpointAnswer, EndpointExtra, Holds, KindName;
    var qname := FQDN("_wireguard._udp." + LabelOf(k), zone);
    SrvOfKey(cache, zone, k);
    KindsApart(k, zone);
    CanonicalRecords(qname, 0, KindName(k, "lan", zone), cache[k].lanEndpoint, lan);
    CanonicalRecords(qname, 10, KindName(k, "nated", zone), cache[k].natEndpoint, nated);
  }

  // ---- From the device and the peer to the client

  /**
    At any point of such a run the client script recovers the last LAN endpoint that the peer asked for and
    the last NAT endpoint under which it was seen.
   */
  lemma ClientSeesLastWriters(c: Config, states: seq<State>, events: seq<Event>, k: string, n: nat, dnsZone: string)
    requires n <= |events| && StaysCached(c, states, events, k, n)
    requires IsPubkey(k) && ProperZone(dnsZone)
    requires LastAsked(events, k, n).Some? && Offered(LastAsked(events, k, n).value)
    requires LastSeen(states, events, k, n) != "" && Offered(LastSeen(states, events, k, n))
    ensures var server := Server(states[n].cache, states[n].store, dnsZone + ".");
            var lines := DigSrv(server, "_wireguard._udp." + LabelOf(k) + "." + dnsZone);
            && EndpointOf(server, FirstMatch(lines, "lan.")) == LastAsked(events, k, n).value
            && EndpointOf(server, FirstMatch(lines, "nated.")) == LastSeen(states, events, k, n)
  {
    hide IsPubkey, LabelOf, ProperZone, Offered, DigSrv, EndpointOf, FirstMatch, KeepsEntry, LastAsked, LastSeen, Step;
    LastWriterWins(c, states, events, k, n);
    MatchesLeadBack(Server(states[n].cache, states[n].store, dnsZone + "."), dnsZone, k);
  }
}
