/** Removed stays removed: a safety property of whole runs. */
module Removal {
  import opened Options
  import opened Labels
  import opened Addresses
  import opened PeerKeys
  import opened Cache
  import opened Etcd
  import opened EtcdSync
  import opened Loader
  import opened Startup
  import opened WgMonitor
  import opened Ddns
  import opened EtcdClient
  import opened System

  ghost predicate NoStoredKey(store: Store, k: string) {
    forall f :: PeerKey(k, f) !in store
  }

  lemma NoFields(store: Store, k: string)
    ensures HasFields(store, k) <==> !NoStoredKey(store, k)
  {
    hide PeerKey;
  }

  /** The peer is in none of the three stores and no command is about to add it. */
  ghost predicate Gone(s: State, k: string) {
    k !in s.device && k !in s.cache && NoStoredKey(s.store, k) && !(s.cmd.Adding? && s.cmd.k == k)
  }

  /** What a remove has achieved so far, while its steps succeed. */
  ghost predicate RemovalProgress(s: State) {
    s.cmd.Removing? ==>
      && (s.cmd.cacheOk ==> s.cmd.stage == CacheDone || s.cmd.stage == KeysDone)
      && (s.cmd.deviceOk ==> s.cmd.k !in s.device)
      && (s.cmd.deviceOk && s.cmd.cacheOk ==> s.cmd.k !in s.cache)
      && (s.cmd.deviceOk && s.cmd.cacheOk && s.cmd.stage == KeysDone ==> NoStoredKey(s.store, s.cmd.k))
  }

  /** The plugin is not restarted inside a remove. */
  predicate NoRestartInRemove(s: State, ev: Event) {
    ev.Restart? ==> !s.cmd.Removing?
  }

  // ---- Steps that leave an absent key absent

  lemma PollSkipsAbsent(cache: CacheView, store: Store, device: Device, endpoints: map<string, string>,
                        failed: set<string>, k: string)
    requires k !in device && k !in cache
    ensures k !in Polled(cache, store, Sightings(device, endpoints), failed)
  {
    hide Polled;
    PolledLookup(cache, store, Sightings(device, endpoints), failed, k);
  }

  lemma SyncSkipsAbsent(cache: CacheView, store: Store, failed: set<string>, after: Store, k: string)
    requires SyncResult(cache, store, failed, after) && k !in cache && NoStoredKey(store, k)
    ensures NoStoredKey(after, k)
  {
    hide PeerKey;
    forall f ensures PeerKey(k, f) !in after {
      assert Lookup(after, PeerKey(k, f)) == SyncedField(cache, store, failed, k, f) == None;
    }
  }

  lemma AliasWriteOfOther(store: Store, l: string, alias: string, aliasOk: bool, fieldOk: bool, k: string)
    requires l != k && NoStoredKey(store, k)
    ensures NoStoredKey(AliasWritten(store, l, alias, aliasOk, fieldOk), k)
  {
    hide PeerKey, AliasKey, PubkeyToDnsLabel;
    forall f ensures PeerKey(k, f) != AliasKey(alias) && PeerKey(k, f) != PeerKey(l, Alias) {
      PeerKeyIsNoAliasKey(k, f, alias);
      if PeerKey(k, f) == PeerKey(l, Alias) { PeerKeyInjective(k, f, l, Alias); }
    }
  }

  lemma RestartSkipsAbsent(c: Config, s: State, loadOk: bool, failed: set<string>, t: State, k: string)
    requires RestartResult(c.self, c.selfIP, s.store, s.device, loadOk, failed, t.cache, t.device)
    requires IsPubkey(k) && k != c.self && k !in s.device && NoStoredKey(s.store, k)
    ensures k !in t.device && k !in t.cache
  {
    hide PeerKey, IsPubkey, LoaderReads, LoadedFields, LoadedEntries;
    var loaded: CacheView :|
      (if loadOk then LoadResult(s.store, loaded) else loaded == map[])
      && t.cache == loaded[c.self := SelfEntry(c.self, c.selfIP)]
      && t.device == RestoredDevice(loaded, s.device, failed);
    assert k !in loaded;
  }

  lemma AddOfOther(store: Store, l: string, ip: string, alias: string, k: string)
    requires AddArguments(l, ip, alias) && l != k && NoStoredKey(store, k)
    ensures NoStoredKey(AddedPeer(store, l, ip, alias), k)
  {
    hide PeerKey, AliasKey, AddedPeer, IsPubkey, Intact;
    AddedPeerKeys(store, l, ip, alias);
    forall f
      ensures PeerKey(k, f) != AliasKey(alias)
      ensures PeerKey(k, f) != PeerKey(l, Alias) && PeerKey(k, f) != PeerKey(l, WgIp)
    {
      PeerKeyIsNoAliasKey(k, f, alias);
      if PeerKey(k, f) == PeerKey(l, Alias) { PeerKeyInjective(k, f, l, Alias); }
      if PeerKey(k, f) == PeerKey(l, WgIp) { PeerKeyInjective(k, f, l, WgIp); }
    }
  }

  lemma DeleteKeepsAbsence(store: Store, after: Store, k: string)
    requires after.Keys <= store.Keys && NoStoredKey(store, k)
    ensures NoStoredKey(after, k)
  {
  }

  lemma KeysDeleted(store: Store, k: string)
    requires HoldsPeers(store) && IsPubkey(k) && Intact(k)
    ensures NoStoredKey(WithoutPrefix(store, CtlPeerPrefix(k)), k)
  {
    hide PeerKey, IsPubkey, Intact, CtlPeerPrefix, WithoutPrefix;
    PrefixDeleteExact(store, k);
    var left := WithoutPrefix(store, CtlPeerPrefix(k));
    forall f ensures PeerKey(k, f) !in left { assert Lookup(left, PeerKey(k, f)) == None; }
  }

  // ---- The running remove

  lemma PluginKeepsProgress(c: Config, s: State, ev: Event, t: State)
    requires Sane(s) && RemovalProgress(s) && PluginStep(c, s, ev, t) && NoRestartInRemove(s, ev)
    ensures RemovalProgress(t)
  {
    hide Polled, SyncResult, AliasWritten, RestartResult, ValidLan, NoStoredKey, HoldsPeers, CacheSane, DeviceSane;
    if s.cmd.Removing? && s.cmd.deviceOk && s.cmd.cacheOk {
      var k := s.cmd.k;
      var absent := NoStoredKey(s.store, k);
      match ev
      case Poll(endpoints, failed) => PollSkipsAbsent(s.cache, s.store, s.device, endpoints, failed, k);
      case Sync(failed) => if absent { SyncSkipsAbsent(s.cache, s.store, failed, t.store, k); }
      case DdnsUpdate(_, l, _, alias, aliasOk, fieldOk) =>
        if absent { AliasWriteOfOther(s.store, l, alias, aliasOk, fieldOk, k); }
      case _ =>
    }
  }

  lemma StepKeepsProgress(c: Config, s: State, ev: Event, t: State)
    requires Sane(s) && RemovalProgress(s) && Step(c, s, ev, t) && NoRestartInRemove(s, ev)
    ensures RemovalProgress(t)
  {
    hide Sane, PluginStep, WithoutPrefix, Classify, NoStoredKey, IsPubkey, CtlPeerPrefix, Intact, AddArguments;
    if PluginStep(c, s, ev, t) {
      PluginKeepsProgress(c, s, ev, t);
    } else if ev.RemoveKeys? {
      SaneForKeys(s);
      KeysDeleted(s.store, s.cmd.k);
    }
  }

  lemma SaneForKeys(s: State)
    requires Sane(s) && s.cmd.Removing?
    ensures HoldsPeers(s.store) && IsPubkey(s.cmd.k) && Intact(s.cmd.k)
  {
  }

  // ---- After the remove

  /** The event does not start an add of the key. */
  predicate NoAddOf(ev: Event, k: string) {
    !(ev.AddDevice? && ev.k == k)
  }

  lemma PluginKeepsGone(c: Config, s: State, ev: Event, t: State, k: string)
    requires PluginStep(c, s, ev, t) && Gone(s, k) && IsPubkey(k) && k != c.self
    ensures Gone(t, k)
  {
    hide Polled, SyncResult, AliasWritten, RestartResult, ValidLan, NoStoredKey, IsPubkey;
    match ev
    case Poll(endpoints, failed) => PollSkipsAbsent(s.cache, s.store, s.device, endpoints, failed, k);
    case Sync(failed) => SyncSkipsAbsent(s.cache, s.store, failed, t.store, k);
    case DdnsUpdate(_, l, _, alias, aliasOk, fieldOk) => AliasWriteOfOther(s.store, l, alias, aliasOk, fieldOk, k);
    case Restart(loadOk, failed) => RestartSkipsAbsent(c, s, loadOk, failed, t, k);
  }

  lemma CommandKeepsGone(s: State, ev: Event, t: State, k: string)
    requires Sane(s) && (AddStep(s, ev, t) || RemoveStep(s, ev, t)) && Gone(s, k) && NoAddOf(ev, k)
    ensures Gone(t, k)
  {
    hide HoldsPeers, CacheSane, DeviceSane, AddArguments, AddedPeer, WithoutPrefix, NoStoredKey, Classify, CtlAliasKey,
      CtlPeerPrefix, AliasKey, IsPubkey, Intact, HasFields;
    if ev.AddCommit? {
      AddOfOther(s.store, s.cmd.k, s.cmd.ip, s.cmd.alias, k);
    } else {
      if ev.RemoveKeys? { PrefixDeleteShrinks(s.store, CtlPeerPrefix(s.cmd.k)); }
      DeleteKeepsAbsence(s.store, t.store, k);
    }
  }

  lemma PrefixDeleteShrinks(store: Store, prefix: string)
    ensures WithoutPrefix(store, prefix).Keys <= store.Keys
  {
  }

  lemma StepKeepsGone(c: Config, s: State, ev: Event, t: State, k: string)
    requires Sane(s) && Step(c, s, ev, t) && Gone(s, k) && NoAddOf(ev, k) && IsPubkey(k) && k != c.self
    ensures Gone(t, k)
  {
    hide Sane, AddStep, RemoveStep, PluginStep, Gone, IsPubkey;
    if PluginStep(c, s, ev, t) {
      PluginKeepsGone(c, s, ev, t, k);
    } else {
      CommandKeepsGone(s, ev, t, k);
    }
  }

  /** The last step of a remove whose device and cache steps succeeded leaves nothing of the peer. */
  lemma RemoveCompletes(s: State, t: State)
    requires Sane(s) && RemovalProgress(s) && RemoveStep(s, RemoveAlias, t) && s.cmd.deviceOk && s.cmd.cacheOk
    ensures Gone(t, s.cmd.k)
  {
    hide HoldsPeers, CacheSane, DeviceSane, CtlAliasKey, NoStoredKey, IsPubkey, Intact;
    DeleteKeepsAbsence(s.store, t.store, s.cmd.k);
  }

  lemma {:induction false} SaneAlong(c: Config, states: seq<State>, events: seq<Event>, i: nat, j: nat)
    requires Run(c, states, events) && IsPubkey(c.self) && i <= j < |states| && Sane(states[i])
    ensures Sane(states[j])
  {
    hide Sane, Step, IsPubkey;
    if i < j {
      SaneAlong(c, states, events, i, j - 1);
      StepKeepsSane(c, states[j - 1], events[j - 1], states[j]);
    }
  }

  lemma {:induction false} RunKeepsProgress(c: Config, states: seq<State>, events: seq<Event>, d: nat, n: nat)
    requires Run(c, states, events) && IsPubkey(c.self) && d <= n < |states| && Sane(states[0])
    requires RemovalProgress(states[d]) && forall i :: d <= i < n ==> NoRestartInRemove(states[i], events[i])
    ensures RemovalProgress(states[n])
  {
    hide Sane, RemovalProgress, Step, IsPubkey, NoRestartInRemove;
    if n > d {
      RunKeepsProgress(c, states, events, d, n - 1);
      SaneAlong(c, states, events, 0, n - 1);
      StepKeepsProgress(c, states[n - 1], events[n - 1], states[n]);
    }
  }

  // ---- The main theorem

  /** The delete of the peer keys leaves nothing of the peer exactly when neither device nor cache has it by then. */
  lemma RemoveKeysErasesIff(s: State, t: State)
    requires Sane(s) && RemoveStep(s, RemoveKeys, t)
    ensures Gone(t, s.cmd.k) <==> s.cmd.k !in s.device && s.cmd.k !in s.cache
  {
    hide HoldsPeers, CacheSane, DeviceSane, CtlPeerPrefix, WithoutPrefix, NoStoredKey, IsPubkey, Intact;
    KeysDeleted(s.store, s.cmd.k);
  }

  /**
    Removed stays removed, exactly. When a remove deletes the peer's keys, the peer is from then on, until an
    add of the same key begins, on no device, in no cache and under no etcd key, exactly when the device and
    the cache did not have it at that moment. Whatever failed or restarted before does not matter, and no
    later poll, sync pass, DDNS request, restart or command brings the peer back.
   */
  lemma RemovedStaysRemoved(c: Config, states: seq<State>, events: seq<Event>, r: nat, m: nat, k: string)
    requires Run(c, states, events) && IsPubkey(c.self) && Sane(states[0])
    requires r < m <= |events| && events[r].RemoveKeys? && states[r].cmd.Removing? && states[r].cmd.k == k
    requires k != c.self && forall n :: r < n < m ==> NoAddOf(events[n], k)
    ensures (forall j :: r < j <= m ==> Gone(states[j], k)) <==> k !in states[r].device && k !in states[r].cache
  {
    hide Sane, Step, IsPubkey, Gone, NoAddOf;
    SaneAlong(c, states, events, 0, r);
    KeysStep(c, states[r], events[r], states[r + 1]);
    if k !in states[r].device && k !in states[r].cache {
      SaneForKeys(states[r]);
      forall j | r < j <= m ensures Gone(states[j], k) {
        GoneAlong(c, states, events, r + 1, j, k);
      }
    } else {
      assert !Gone(states[r + 1], k);
    }
  }

  lemma KeysStep(c: Config, s: State, ev: Event, t: State)
    requires Step(c, s, ev, t) && ev.RemoveKeys? && Sane(s)
    ensures s.cmd.Removing? && (Gone(t, s.cmd.k) <==> s.cmd.k !in s.device && s.cmd.k !in s.cache)
  {
    hide Sane, Gone;
    RemoveKeysErasesIff(s, t);
  }

  lemma {:induction false} GoneAlong(c: Config, states: seq<State>, events: seq<Event>, i: nat, j: nat, k: string)
    requires Run(c, states, events) && IsPubkey(c.self) && IsPubkey(k) && Sane(states[0])
    requires i <= j <= |events| && Gone(states[i], k)
    requires k != c.self && forall n :: i <= n < j ==> NoAddOf(events[n], k)
    ensures Gone(states[j], k)
  {
    hide Sane, Step, IsPubkey, Gone, NoAddOf;
    if i < j {
      GoneAlong(c, states, events, i, j - 1, k);
      SaneAlong(c, states, events, 0, j - 1);
      StepKeepsGone(c, states[j - 1], events[j - 1], states[j], k);
    }
  }

  /**
    In particular, a remove begun at d, without a restart inside it, whose steps all succeeded and which
    ended at i, leaves nothing of the peer, until an add of the same key begins.
   */
  lemma SuccessfulRemoveErases(c: Config, states: seq<State>, events: seq<Event>, d: nat, i: nat, j: nat, k: string)
    requires Run(c, states, events) && IsPubkey(c.self) && Sane(states[0])
    requires d <= i < j <= |events| && !states[d].cmd.Removing? && events[i].RemoveAlias?
    requires forall n :: d <= n < i ==> NoRestartInRemove(states[n], events[n])
    requires states[i].cmd.Removing? && states[i].cmd.deviceOk && states[i].cmd.cacheOk && states[i].cmd.k == k
    requires k != c.self && forall n :: i < n < j ==> NoAddOf(events[n], k)
    ensures Gone(states[j], k)
  {
    hide Sane, Step, IsPubkey, NoRestartInRemove, Gone, NoAddOf, RemovalProgress;
    SaneAlong(c, states, events, 0, i);
    NothingYet(states[d]);
    RunKeepsProgress(c, states, events, d, i);
    LastStep(c, states[i], events[i], states[i + 1]);
    SaneForKeys(states[i]);
    GoneAlong(c, states, events, i + 1, j, k);
  }

  lemma NothingYet(s: State)
    requires !s.cmd.Removing?
    ensures RemovalProgress(s)
  {
  }

  lemma LastStep(c: Config, s: State, ev: Event, t: State)
    requires Step(c, s, ev, t) && ev.RemoveAlias? && Sane(s) && RemovalProgress(s)
    requires s.cmd.Removing? && s.cmd.deviceOk && s.cmd.cacheOk
    ensures Gone(t, s.cmd.k)
  {
    hide Sane, RemovalProgress, Gone;
    RemoveCompletes(s, t);
  }

  // ---- How the condition comes to fail

  /** A restart before the peer keys are deleted puts the peer back on the device and into the cache. */
  lemma RestartInsideRestores(c: Config, s: State, failed: set<string>, t: State, k: string)
    requires PluginStep(c, s, Restart(true, failed), t)
    requires IsPubkey(k) && k != c.self && k !in failed && k !in s.device
    requires PeerKey(k, WgIp) in s.store && ParseIPv4(s.store[PeerKey(k, WgIp)]).Some?
    ensures k in t.cache && k in t.device && t.device[k] == s.store[PeerKey(k, WgIp)]
  {
    hide PeerKey, IsPubkey, ParseIPv4, LoadedEntries;
    var loaded: CacheView :| LoadResult(s.store, loaded)
      && t.cache == loaded[c.self := SelfEntry(c.self, c.selfIP)]
      && t.device == RestoredDevice(loaded, s.device, failed);
    assert LoaderReads(k, WgIp);
    assert Loadable(s.store, k);
    assert EntryField(EntryOr(loaded, k), WgIp) == LoadedText(s.store, k, WgIp);
  }

  /** When the cache step fails, the dirty entry returns to etcd with the next pass that reaches it. */
  lemma CachedEntryReturns(c: Config, s: State, failed: set<string>, t: State, k: string)
    requires PluginStep(c, s, Sync(failed), t)
    requires k in s.cache && s.cache[k].dirty && s.cache[k].wgIP != "" && k !in failed
    ensures PeerKey(k, WgIp) in t.store && t.store[PeerKey(k, WgIp)] == s.cache[k].wgIP
  {
    hide PeerKey;
    assert Lookup(t.store, PeerKey(k, WgIp)) == SyncedField(s.cache, s.store, failed, k, WgIp);
  }
}
