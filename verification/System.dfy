/**
  VALON as one state machine over three stores: the WireGuard device, the plugin's cache and etcd.
  valonctl runs one command at a time, step by step; polls, sync passes, DDNS requests and restarts
  of the plugin may fall between its steps, each as a whole.
 */
module System {
  import opened Options
  import opened Text
  import opened Labels
  import opened Addresses
  import opened PeerKeys
  import opened Aliases
  import opened Cache
  import opened Etcd
  import opened EtcdSync
  import opened Loader
  import opened Startup
  import opened WgMonitor
  import opened Ddns
  import opened EtcdClient

  /** The discovery node's own key and address. */
  datatype Config = Config(self: string, selfIP: string)

  datatype Stage = DeviceDone | Resolved | CacheDone | KeysDone

  /** Where the running valonctl command stands. */
  datatype Command =
    | Idle
    | Adding(k: string, ip: string, alias: string)
    | Removing(k: string, alias: string, stage: Stage, deviceOk: bool, cacheOk: bool)

  datatype State = State(device: Device, cache: CacheView, store: Store, cmd: Command)

  datatype Event =
    | AddDevice(k: string, ip: string, alias: string)
    | AddCommit
    | AddRollback(ok: bool)
    | RemoveDevice(k: string, ok: bool)
    | RemoveResolve(arg: string, alias: string)
    | RemoveCache(ok: bool)
    | RemoveKeys
    | RemoveAlias
    | Abandon
    | Poll(endpoints: map<string, string>, failed: set<string>)
    | Sync(failed: set<string>)
    | DdnsUpdate(clientIP: string, k: string, lan: string, alias: string, aliasOk: bool, fieldOk: bool)
    | Restart(loadOk: bool, failed: set<string>)

  /**
    The adds of the runs: what valonctl checks, and a key in its canonical spelling without a leading or a
    doubled slash. valonctl takes other spellings too, but neither program finds such a peer again.
   */
  predicate AddArguments(k: string, ip: string, alias: string) {
    IsPubkey(k) && Intact(k) && ParseIPv4(ip).Some? && Accepted(alias)
  }

  function Sightings(device: Device, endpoints: map<string, string>): map<string, Sighting> {
    map k | k in device :: Sighting(device[k], if k in endpoints then endpoints[k] else "")
  }

  /** The steps of peer_add.go: device first, then the transaction or the rollback. */
  ghost predicate AddStep(s: State, ev: Event, t: State) {
    match ev
    case AddDevice(k, ip, alias) =>
      s.cmd.Idle? && AddArguments(k, ip, alias)
      && t == s.(device := s.device[k := ip], cmd := Adding(k, ip, alias))
    case AddCommit =>
      s.cmd.Adding? && CtlAliasKey(s.cmd.alias) !in s.store
      && t == s.(store := AddedPeer(s.store, s.cmd.k, s.cmd.ip, s.cmd.alias), cmd := Idle)
    case AddRollback(ok) =>
      s.cmd.Adding? && t == s.(device := if ok then s.device - {s.cmd.k} else s.device, cmd := Idle)
    case _ => false
  }

  /**
    The steps of peer_remove.go and RemovePeer. The listing finds the peer; RemovePeer reads its
    argument again, and here both name the same peer.
   */
  ghost predicate RemoveStep(s: State, ev: Event, t: State) {
    match ev
    case RemoveDevice(k, ok) =>
      s.cmd.Idle? && IsPubkey(k) && Intact(k) && HasFields(s.store, k)
      && t == s.(device := if ok then s.device - {k} else s.device, cmd := Removing(k, "", DeviceDone, ok, false))
    case RemoveResolve(arg, alias) =>
      s.cmd.Removing? && s.cmd.stage == DeviceDone && Classify(s.store, arg) == Some(Target(s.cmd.k, alias))
      && t == s.(cmd := s.cmd.(alias := alias, stage := Resolved))
    case RemoveCache(ok) =>
      s.cmd.Removing? && s.cmd.stage == Resolved
      && t == s.(cache := if ok then s.cache - {s.cmd.k} else s.cache,
                 store := if ok then s.store - {AliasKey(s.cmd.k)} else s.store,
                 cmd := s.cmd.(stage := CacheDone, cacheOk := ok))
    case RemoveKeys =>
      s.cmd.Removing? && s.cmd.stage == CacheDone
      && t == s.(store := WithoutPrefix(s.store, CtlPeerPrefix(s.cmd.k)), cmd := s.cmd.(stage := KeysDone))
    case RemoveAlias =>
      s.cmd.Removing? && s.cmd.stage == KeysDone
      && t == s.(store := s.store - {CtlAliasKey(s.cmd.alias)}, cmd := Idle)
    case Abandon =>
      s.cmd.Removing? && t == s.(cmd := Idle)
    case _ => false
  }

  /** The plugin's own steps. A DDNS request counts when it comes from the peer's own overlay address. */
  ghost predicate PluginStep(c: Config, s: State, ev: Event, t: State) {
    match ev
    case Poll(endpoints, failed) =>
      t == s.(cache := Polled(s.cache, s.store, Sightings(s.device, endpoints), failed))
    case Sync(failed) =>
      t == s.(store := t.store) && SyncResult(s.cache, s.store, failed, t.store)
    case DdnsUpdate(clientIP, k, lan, alias, aliasOk, fieldOk) =>
      clientIP != "" && k in s.cache && s.cache[k].wgIP == clientIP && ValidLan(lan)
      && t == s.(cache := Updated(s.cache, k, (e: Entry) => WithLan(e, k, lan)),
                 store := AliasWritten(s.store, k, alias, aliasOk, fieldOk))
    case Restart(loadOk, failed) =>
      t == s.(cache := t.cache, device := t.device)
      && RestartResult(c.self, c.selfIP, s.store, s.device, loadOk, failed, t.cache, t.device)
    case _ => false
  }

  ghost predicate Step(c: Config, s: State, ev: Event, t: State) {
    AddStep(s, ev, t) || RemoveStep(s, ev, t) || PluginStep(c, s, ev, t)
  }

  ghost predicate Run(c: Config, states: seq<State>, events: seq<Event>) {
    |states| == |events| + 1 && forall i :: 0 <= i < |events| ==> Step(c, states[i], events[i], states[i + 1])
  }

  // ---- What every run keeps

  /** Entries are filed under their own name; a name that is no key is a wrong cut of the loader, inert. */
  ghost predicate CacheSane(cache: CacheView) {
    forall k :: k in cache ==>
      cache[k].pubKey == k && (IsPubkey(k) || (|k| < 44 && !cache[k].dirty && cache[k].wgIP == ""))
  }

  ghost predicate DeviceSane(device: Device) {
    forall k :: k in device ==> IsPubkey(k)
  }

  predicate CommandSane(cmd: Command) {
    match cmd
    case Idle => true
    case Adding(k, ip, alias) => AddArguments(k, ip, alias)
    case Removing(k, _, _, _, _) => IsPubkey(k) && Intact(k)
  }

  ghost predicate Sane(s: State) {
    HoldsPeers(s.store) && CacheSane(s.cache) && DeviceSane(s.device) && CommandSane(s.cmd)
  }

  lemma AliasKeyOutside(a: string)
    ensures !HasPrefix(AliasKey(a), PEERS)
  {
    if HasPrefix(AliasKey(a), PEERS) { OccurrenceChars(AliasKey(a), PEERS, 0, 7); }
  }

  lemma AddedPeerKeys(store: Store, k: string, ip: string, alias: string)
    requires IsPubkey(k) && Intact(k) && Accepted(alias)
    ensures AddedPeer(store, k, ip, alias)
            == store[PeerKey(k, WgIp) := ip][PeerKey(k, Alias) := alias][AliasKey(alias) := k]
    ensures CtlAliasKey(alias) == AliasKey(alias)
  {
    PubkeyShape(k);
    CtlPeerKeyAgrees(k, WgIp);
    CtlPeerKeyAgrees(k, Alias);
    AcceptedAlias(alias);
    CtlAliasKeyAgreesIff(alias);
  }

  lemma AddKeepsPeers(store: Store, k: string, ip: string, alias: string)
    requires HoldsPeers(store) && IsPubkey(k) && Intact(k) && Accepted(alias)
    ensures HoldsPeers(AddedPeer(store, k, ip, alias))
  {
    hide PeerKey, IsPubkey, HasPrefix, Intact, Accepted, AddedPeer, AliasKey;
    AddedPeerKeys(store, k, ip, alias);
    AliasKeyOutside(alias);
    assert IsPrinted(PeerKey(k, WgIp)) && IsPrinted(PeerKey(k, Alias));
  }

  lemma AliasWritesKeepPeers(store: Store, k: string, alias: string, aliasOk: bool, fieldOk: bool)
    requires HoldsPeers(store) && IsPubkey(k)
    ensures HoldsPeers(AliasWritten(store, k, alias, aliasOk, fieldOk))
  {
    hide PeerKey, IsPubkey, HasPrefix, PubkeyToDnsLabel, AliasKey;
    AliasKeyOutside(alias);
    assert IsPrinted(PeerKey(k, Alias));
  }

  lemma DirtyArePubkeys(cache: CacheView)
    requires CacheSane(cache)
    ensures forall k :: k in cache && cache[k].dirty ==> IsPubkey(k)
  {
  }

  lemma PollKeepsSane(cache: CacheView, store: Store, device: Device, endpoints: map<string, string>,
                      failed: set<string>)
    requires CacheSane(cache) && DeviceSane(device)
    ensures CacheSane(Polled(cache, store, Sightings(device, endpoints), failed))
  {
    hide IsPubkey, HasFields, Polled;
    var seen := Sightings(device, endpoints);
    var after := Polled(cache, store, seen, failed);
    forall k | k in after
      ensures after[k].pubKey == k && (IsPubkey(k) || (|k| < 44 && !after[k].dirty && after[k].wgIP == ""))
    {
      PolledLookup(cache, store, seen, failed, k);
    }
  }

  lemma RestartKeepsSane(c: Config, s: State, loadOk: bool, failed: set<string>, t: State)
    requires IsPubkey(c.self) && DeviceSane(s.device)
    requires RestartResult(c.self, c.selfIP, s.store, s.device, loadOk, failed, t.cache, t.device)
    ensures CacheSane(t.cache) && DeviceSane(t.device)
  {
    hide IsPubkey, LoadedKeys, LoadedFields, ParseIPv4;
  }

  lemma AddKeepsSane(s: State, ev: Event, t: State)
    requires Sane(s) && AddStep(s, ev, t)
    ensures Sane(t)
  {
    hide IsPubkey, Intact, Accepted, ParseIPv4, AddedPeer, CtlAliasKey, HoldsPeers;
    if ev.AddCommit? { AddKeepsPeers(s.store, s.cmd.k, s.cmd.ip, s.cmd.alias); }
  }

  lemma RemoveKeepsSane(s: State, ev: Event, t: State)
    requires Sane(s) && RemoveStep(s, ev, t)
    ensures Sane(t)
  {
    hide IsPubkey, Intact, CtlAliasKey, CtlPeerPrefix, Classify, HasPrefix, WithoutPrefix, IsPrinted;
    if ev.RemoveKeys? { PrefixDeleteExact(s.store, s.cmd.k); }
  }

  lemma PluginKeepsSane(c: Config, s: State, ev: Event, t: State)
    requires Sane(s) && IsPubkey(c.self) && PluginStep(c, s, ev, t)
    ensures Sane(t)
  {
    hide IsPubkey, HoldsPeers, Polled, SyncResult, AliasWritten, RestartResult, ValidLan, AddArguments;
    match ev
    case Poll(endpoints, failed) => PollKeepsSane(s.cache, s.store, s.device, endpoints, failed);
    case Sync(failed) =>
      DirtyArePubkeys(s.cache);
      SyncKeepsPeers(s.cache, s.store, failed, t.store);
    case DdnsUpdate(_, k, _, alias, aliasOk, fieldOk) => AliasWritesKeepPeers(s.store, k, alias, aliasOk, fieldOk);
    case Restart(loadOk, failed) => RestartKeepsSane(c, s, loadOk, failed, t);
  }

  /** Every step keeps the stores readable. */
  lemma StepKeepsSane(c: Config, s: State, ev: Event, t: State)
    requires Sane(s) && IsPubkey(c.self) && Step(c, s, ev, t)
    ensures Sane(t)
  {
    hide Sane, AddStep, RemoveStep, PluginStep, IsPubkey;
    if AddStep(s, ev, t) {
      AddKeepsSane(s, ev, t);
    } else if RemoveStep(s, ev, t) {
      RemoveKeepsSane(s, ev, t);
    } else {
      PluginKeepsSane(c, s, ev, t);
    }
  }
}
