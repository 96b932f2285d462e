/** The commands as runs of the state machine: where runs begin, what a whole command does, and what undoes what. */
module CommandRuns {
  import opened Options
  import opened Text
  import opened Labels
  import opened Addresses
  import opened PeerKeys
  import opened Aliases
  import opened Cache
  import opened Etcd
  import opened EtcdSync
  import opened Loader
  import opened Startup
  import opened WgMonitor
  import opened EtcdClient
  import opened PeerCommands
  import opened RemovalTarget
  import opened System
  import opened Removal
  import opened Registry
  import opened Uniqueness

  // ---- Where runs begin

  const EMPTY: State := State(map[], map[], map[], Idle)

  function Started(c: Config): State {
    EMPTY.(cache := map[c.self := SelfEntry(c.self, c.selfIP)])
  }

  function SelfSynced(c: Config): State {
    Started(c).(store := map[PeerKey(c.self, WgIp) := c.selfIP])
  }

  /** A first start on empty stores and one sync pass reach a state with every invariant of the runs. */
  lemma FirstStart(c: Config)
    requires IsPubkey(c.self) && c.selfIP != ""
    ensures Step(c, EMPTY, Restart(true, {}), Started(c)) && Step(c, Started(c), Sync({}), SelfSynced(c))
    ensures var s := SelfSynced(c);
            && Sane(s) && RemovalProgress(s) && RegistryHolds(s) && AddressesAgree(c, s)
            && AliasesMatch(s.store) && Readable(s.store)
  {
    hide Sane, RegistryHolds, AddressesAgree, AliasesMatch, Readable, SyncResult, RestartResult, IsPubkey;
    StartedFromNothing(c);
    SelfIsSynced(c);
    SelfSyncedIsSane(c);
    SelfSyncedNames(c);
    SelfSyncedAddresses(c);
  }

  lemma StartedFromNothing(c: Config)
    ensures RestartResult(c.self, c.selfIP, EMPTY.store, EMPTY.device, true, {}, Started(c).cache, Started(c).device)
  {
    hide LoadResult, Restorable;
    LoadOfNothing();
    var none: CacheView := map[];
    assert Started(c).cache == none[c.self := SelfEntry(c.self, c.selfIP)];
    assert RestoredDevice(none, EMPTY.device, {}) == map[];
  }

  lemma SelfSyncedIsSane(c: Config)
    requires IsPubkey(c.self)
    ensures Sane(SelfSynced(c))
  {
    hide PeerKey, IsPubkey;
    assert IsPrinted(PeerKey(c.self, WgIp));
  }

  lemma SelfSyncedNames(c: Config)
    requires IsPubkey(c.self)
    ensures RegistryHolds(SelfSynced(c)) && AliasesMatch(SelfSynced(c).store) && Readable(SelfSynced(c).store)
  {
    hide PeerKey, AliasKey, IsPubkey, ListReads, Accepted;
    OnlySelfStored(c);
  }

  lemma SelfSyncedAddresses(c: Config)
    requires IsPubkey(c.self) && c.selfIP != ""
    ensures AddressesAgree(c, SelfSynced(c))
  {
    hide PeerKey, AliasKey, IsPubkey;
    OnlySelfStored(c);
    assert forall k :: StoredIP(SelfSynced(c).store, k) == if k == c.self then Some(c.selfIP) else None;
  }

  lemma LoadOfNothing()
    ensures LoadResult(map[], map[])
  {
  }

  lemma OnlySelfStored(c: Config)
    ensures forall k, f :: PeerKey(k, f) in SelfSynced(c).store <==> k == c.self && f == WgIp
    ensures forall a :: AliasKey(a) !in SelfSynced(c).store
    ensures ListReads(c.self, WgIp)
  {
    hide PeerKey, AliasKey;
    forall k, f ensures PeerKey(k, f) in SelfSynced(c).store <==> k == c.self && f == WgIp {
      if PeerKey(k, f) == PeerKey(c.self, WgIp) { PeerKeyInjective(k, f, c.self, WgIp); }
    }
    forall a ensures AliasKey(a) !in SelfSynced(c).store { PeerKeyIsNoAliasKey(c.self, WgIp, a); }
  }

  lemma SelfIsSynced(c: Config)
    requires IsPubkey(c.self) && c.selfIP != ""
    ensures SyncResult(Started(c).cache, map[], {}, SelfSynced(c).store)
  {
    hide PeerKey, IsPubkey;
    OnlySelfStored(c);
  }

  // ---- Whole commands

  /** The state after a remove whose steps came out as the flags say. */
  function AfterRemove(s: State, target: Target, deviceOk: bool, ddnsOk: bool, keysOk: bool, aliasOk: bool): State {
    State(RemovedFromDevice(s.device, Some(target.pubkey), deviceOk), RemovedFromCache(s.cache, Some(target), ddnsOk),
          RemovedFromStore(s.store, Some(target), ddnsOk, keysOk, aliasOk), Idle)
  }

  function RemoveBegin(arg: string, target: Target, deviceOk: bool, ddnsOk: bool): (events: seq<Event>)
    ensures |events| == 3
  {
    [RemoveDevice(target.pubkey, deviceOk), RemoveResolve(arg, target.alias), RemoveCache(ddnsOk)]
  }

  function RemoveEnd(keysOk: bool, aliasOk: bool): (events: seq<Event>)
    ensures |events| == if keysOk then 2 else 1
  {
    if keysOk then [RemoveKeys, if aliasOk then RemoveAlias else Abandon] else [Abandon]
  }

  function RemoveEvents(arg: string, target: Target, deviceOk: bool, ddnsOk: bool, keysOk: bool, aliasOk: bool)
    : (events: seq<Event>)
    ensures |events| == if keysOk then 5 else 4
  {
    RemoveBegin(arg, target, deviceOk, ddnsOk) + RemoveEnd(keysOk, aliasOk)
  }

  /** A whole remove, whatever fails in it, is a run of its steps, when its two readings name the same intact key. */
  lemma RemoveIsARun(c: Config, s: State, arg: string, alias: string, k: string, deviceOk: bool, ddnsOk: bool,
                     keysOk: bool, aliasOk: bool)
    requires s.cmd.Idle? && IsPubkey(k) && Intact(k) && HasFields(s.store, k)
    requires Classify(s.store, arg) == Some(Target(k, alias))
    ensures var events := RemoveEvents(arg, Target(k, alias), deviceOk, ddnsOk, keysOk, aliasOk);
            exists states: seq<State> :: Run(c, states, events) && states[0] == s
              && states[|events|] == AfterRemove(s, Target(k, alias), deviceOk, ddnsOk, keysOk, aliasOk)
  {
    hide Step, IsPubkey, Intact, HasFields, Classify, AfterCacheStep, AfterRemove, AtCacheStep;
    var target := Target(k, alias);
    var t := AtCacheStep(s, target, deviceOk, ddnsOk);
    UpToCacheStep(c, s, arg, target, deviceOk, ddnsOk);
    StagesCompose(s, target, deviceOk, ddnsOk, keysOk, aliasOk);
    RemoveEnds(c, t, keysOk, aliasOk);
    var begin, end := RemoveBegin(arg, target, deviceOk, ddnsOk), RemoveEnd(keysOk, aliasOk);
    var x: seq<State> :| Run(c, x, begin) && x[0] == s && x[3] == t;
    var y: seq<State> :| Run(c, y, end) && y[0] == t && y[|end|] == AfterCacheStep(t, keysOk, aliasOk);
    RunConcat(c, x, begin, y, end);
    assert (x + y[1..])[3 + |end|] == y[|end|];
  }

  /** The state between the cache step and the deletes. */
  function AtCacheStep(s: State, target: Target, deviceOk: bool, ddnsOk: bool): State {
    var k := target.pubkey;
    State(if deviceOk then s.device - {k} else s.device, if ddnsOk then s.cache - {k} else s.cache,
          if ddnsOk then s.store - {AliasKey(k)} else s.store, Removing(k, target.alias, CacheDone, deviceOk, ddnsOk))
  }

  lemma StagesCompose(s: State, target: Target, deviceOk: bool, ddnsOk: bool, keysOk: bool, aliasOk: bool)
    requires IsPubkey(target.pubkey)
    ensures var t := AtCacheStep(s, target, deviceOk, ddnsOk);
            && t.cmd.Removing? && t.cmd.stage == CacheDone
            && AfterCacheStep(t, keysOk, aliasOk) == AfterRemove(s, target, deviceOk, ddnsOk, keysOk, aliasOk)
  {
    hide IsPubkey, AliasKey, IsDeviceKey, DeviceName, Deleted;
    KeyOnDevice(target.pubkey);
  }

  function AfterCacheStep(s: State, keysOk: bool, aliasOk: bool): State
    requires s.cmd.Removing?
  {
    s.(store := Deleted(s.store, Target(s.cmd.k, s.cmd.alias), keysOk, aliasOk), cmd := Idle)
  }

  lemma RemoveEnds(c: Config, s: State, keysOk: bool, aliasOk: bool)
    requires s.cmd.Removing? && s.cmd.stage == CacheDone
    ensures exists states: seq<State> :: Run(c, states, RemoveEnd(keysOk, aliasOk)) && states[0] == s
              && states[|RemoveEnd(keysOk, aliasOk)|] == AfterCacheStep(s, keysOk, aliasOk)
  {
    hide AddStep, PluginStep, CtlAliasKey, CtlPeerPrefix, WithoutPrefix;
    var u := AfterCacheStep(s, keysOk, aliasOk);
    if keysOk {
      var t := s.(store := WithoutPrefix(s.store, CtlPeerPrefix(s.cmd.k)), cmd := s.cmd.(stage := KeysDone));
      var last := if aliasOk then RemoveAlias else Abandon;
      assert RemoveStep(s, RemoveKeys, t) && RemoveStep(t, last, u);
      hide RemoveStep, AfterCacheStep;
      assert Run(c, [s, t, u], RemoveEnd(keysOk, aliasOk)) && [s, t, u][2] == u;
    } else {
      assert RemoveStep(s, Abandon, u);
      hide RemoveStep, AfterCacheStep;
      assert Run(c, [s, u], RemoveEnd(keysOk, aliasOk)) && [s, u][1] == u;
    }
  }

  lemma KeyOnDevice(k: string)
    requires IsPubkey(k)
    ensures IsDeviceKey(k) && DeviceName(k) == k && k != ""
  {
    PubkeyShape(k);
    CanonicalDeviceName(k);
  }

  // ---- A remove undoes an add

  /** Both arguments by which the new peer can be removed name it. */
  lemma AddedIsFound(store: Store, k: string, ip: string, alias: string)
    requires AddArguments(k, ip, alias)
    ensures Classify(AddedPeer(store, k, ip, alias), alias) == Some(Target(k, alias))
    ensures Classify(AddedPeer(store, k, ip, alias), k) == Some(Target(k, alias))
  {
    hide PeerKey, AliasKey, CtlPeerKey, CtlAliasKey, IsPubkey, Intact, Accepted, LooksLikePubkey, AddedPeer, ParseIPv4;
    AddedPeerKeys(store, k, ip, alias);
    AliasIsNoKey(alias);
    PubkeyLooksLikeOne(k);
    PubkeyShape(k);
    CtlPeerKeyAgrees(k, Alias);
    KeyFamiliesApart();
  }

  /**
    Removing a freshly added peer gives back the very store from before the add, unless the plugin's
    delete request finds an alias entry named like the key, which is then lost.
   */
  lemma RemoveUndoesAdd(store: Store, k: string, ip: string, alias: string, ddnsOk: bool)
    requires HoldsPeers(store) && AddArguments(k, ip, alias) && NoStoredKey(store, k) && AliasKey(alias) !in store
    ensures RemovedFromStore(AddedPeer(store, k, ip, alias), Some(Target(k, alias)), ddnsOk, true, true) == store
            <==> !(ddnsOk && AliasKey(k) in store)
  {
    hide PeerKey, AliasKey, CtlPeerPrefix, CtlAliasKey, IsPubkey, Intact, Accepted, AddedPeer, ParseIPv4, HasPrefix,
      HoldsPeers, WithoutPrefix;
    AddedPeerKeys(store, k, ip, alias);
    AddKeepsPeers(store, k, ip, alias);
    var added := AddedPeer(store, k, ip, alias);
    var cleared := if ddnsOk then added - {AliasKey(k)} else added;
    assert HoldsPeers(cleared) by { FewerKeysHold(added, AliasKey(k)); }
    PrefixDeleteExact(cleared, k);
    var left := WithoutPrefix(cleared, CtlPeerPrefix(k)) - {AliasKey(alias)};
    assert k != "" && k != alias by { PubkeyShape(k); AcceptedAlias(alias); }
    assert left == RemovedFromStore(added, Some(Target(k, alias)), ddnsOk, true, true);
    forall key | !(ddnsOk && key == AliasKey(k))
      ensures Lookup(left, key) == Lookup(store, key)
    {
      UndoneAt(store, k, ip, alias, ddnsOk, key);
    }
    if ddnsOk && AliasKey(k) in store {
      AliasKeyOutside(k);
      assert Lookup(cleared, AliasKey(k)) == None;
    } else {
      forall key ensures Lookup(left, key) == Lookup(store, key) {
        if key == AliasKey(k) && ddnsOk {
          AliasKeyOutside(k);
          assert Lookup(cleared, key) == None;
        }
      }
      SameLookups(left, store);
    }
  }

  /**
    From any idle state that does not know the key and the alias, an add and a remove by that alias are a
    run that ends in the very state it began in.
   */
  lemma AddThenRemove(c: Config, s: State, k: string, ip: string, alias: string)
    requires Sane(s) && s.cmd.Idle? && AddArguments(k, ip, alias)
    requires Gone(s, k) && AliasKey(alias) !in s.store && AliasKey(k) !in s.store
    ensures exists states: seq<State> ::
              Run(c, states, [AddDevice(k, ip, alias), AddCommit]
                             + RemoveEvents(alias, Target(k, alias), true, true, true, true))
              && states[0] == s && states[7] == s
  {
    hide IsPubkey, Intact, HasFields, Classify, CtlAliasKey, CtlPeerPrefix, AliasKey, PeerKey, AddedPeer, Accepted,
      ParseIPv4, HoldsPeers, RemovedFromStore, IsDeviceKey, DeviceName, NoStoredKey, RemoveStep, PluginStep;
    var s1 := s.(device := s.device[k := ip], cmd := Adding(k, ip, alias));
    var s2 := s1.(store := AddedPeer(s.store, k, ip, alias), cmd := Idle);
    AddedPeerKeys(s.store, k, ip, alias);
    assert AddStep(s, AddDevice(k, ip, alias), s1) && AddStep(s1, AddCommit, s2);
    AddedIsFound(s.store, k, ip, alias);
    AddedHasFields(s.store, k, ip, alias);
    RemoveIsARun(c, s2, alias, alias, k, true, true, true, true);
    var events := RemoveEvents(alias, Target(k, alias), true, true, true, true);
    var states :| Run(c, states, events) && states[0] == s2
      && states[5] == AfterRemove(s2, Target(k, alias), true, true, true, true);
    RemoveUndoesAdd(s.store, k, ip, alias, true);
    KeyOnDevice(k);
    assert s.device[k := ip] - {k} == s.device && s.cache - {k} == s.cache;
    assert states[5] == s;
    hide AddStep;
    TwoMore(c, s, AddDevice(k, ip, alias), s1, AddCommit, states, events);
  }

  lemma TwoMore(c: Config, s: State, a: Event, s1: State, b: Event, states: seq<State>, events: seq<Event>)
    requires Run(c, states, events) && Step(c, s, a, s1) && Step(c, s1, b, states[0])
    ensures Run(c, [s, s1] + states, [a, b] + events)
  {
    hide Step;
    var all, evs := [s, s1] + states, [a, b] + events;
    forall i | 0 <= i < |evs| ensures Step(c, all[i], evs[i], all[i + 1]) {
      if i >= 2 { assert evs[i] == events[i - 2] && all[i] == states[i - 2] && all[i + 1] == states[i - 1]; }
    }
  }

  lemma RunConcat(c: Config, a: seq<State>, ea: seq<Event>, b: seq<State>, eb: seq<Event>)
    requires Run(c, a, ea) && Run(c, b, eb) && a[|ea|] == b[0]
    ensures Run(c, a + b[1..], ea + eb)
  {
    hide Step;
    var all, evs := a + b[1..], ea + eb;
    forall i | 0 <= i < |evs| ensures Step(c, all[i], evs[i], all[i + 1]) {
      if i >= |ea| {
        assert evs[i] == eb[i - |ea|] && all[i + 1] == b[i - |ea| + 1];
        assert all[i] == if i == |ea| then a[i] else b[i - |ea|];
      }
    }
  }

  // ---- A restart between the steps of a remove

  function InterruptedRemove(k: string, arg: string, alias: string): (events: seq<Event>)
    ensures |events| == 6
  {
    [RemoveDevice(k, true), RemoveResolve(arg, alias), RemoveCache(true), Restart(true, {}), RemoveKeys, RemoveAlias]
  }

  lemma RestartedState(c: Config, s: State, k: string) returns (t: State)
    requires HoldsPeers(s.store) && IsPubkey(k) && k != c.self && k !in s.device
    requires PeerKey(k, WgIp) in s.store && ParseIPv4(s.store[PeerKey(k, WgIp)]).Some?
    ensures PluginStep(c, s, Restart(true, {}), t) && t.store == s.store && t.cmd == s.cmd
    ensures k in t.cache && k in t.device
  {
    hide PeerKey, IsPubkey, ParseIPv4, HoldsPeers, LoadResult;
    LoadExists(s.store);
    var loaded :| LoadResult(s.store, loaded);
    t := s.(cache := loaded[c.self := SelfEntry(c.self, c.selfIP)], device := RestoredDevice(loaded, s.device, {}));
    RestartInsideRestores(c, s, {}, t, k);
  }

  /**
    A remove of which every step succeeds, with a restart after its cache step: the peer ends up on the
    device and in the cache, with no etcd key left.
   */
  lemma InterruptedRemoveReturns(c: Config, s: State, k: string, arg: string, alias: string)
    requires Sane(s) && s.cmd.Idle? && IsPubkey(k) && Intact(k) && k != c.self
    requires Classify(s.store, arg) == Some(Target(k, alias))
    requires PeerKey(k, WgIp) in s.store && ParseIPv4(s.store[PeerKey(k, WgIp)]).Some?
    ensures exists states: seq<State> ::
              Run(c, states, InterruptedRemove(k, arg, alias)) && states[0] == s && states[6].cmd.Idle?
              && k in states[6].device && k in states[6].cache && NoStoredKey(states[6].store, k)
  {
    hide IsPubkey, Intact, Classify, CtlAliasKey, CtlPeerPrefix, AliasKey, PeerKey, WithoutPrefix, ParseIPv4,
      PluginStep, HoldsPeers, CacheSane, DeviceSane, NoStoredKey;
    assert HasFields(s.store, k);
    var s3 := s.(device := s.device - {k}, cache := s.cache - {k}, store := s.store - {AliasKey(k)},
                 cmd := Removing(k, alias, CacheDone, true, true));
    FewerKeysHold(s.store, AliasKey(k));
    PeerKeyIsNoAliasKey(k, WgIp, k);
    UpToCacheStep(c, s, arg, Target(k, alias), true, true);
    var begin := RemoveBegin(arg, Target(k, alias), true, true);
    var restart, end := [Restart(true, {})], [RemoveKeys, RemoveAlias];
    var x: seq<State> :| Run(c, x, begin) && x[0] == s && x[3] == s3;
    var s4 := RestartedState(c, s3, k);
    FromKeysDelete(c, s4, k, alias);
    var y: seq<State> :| Run(c, y, end) && y[0] == s4 && y[2].cmd.Idle?
      && y[2].device == s4.device && y[2].cache == s4.cache && NoStoredKey(y[2].store, k);
    hide Step, AddStep, RemoveStep;
    RestartRun(c, s3, s4);
    RunConcat(c, x, begin, [s3, s4], restart);
    var xy := x + [s3, s4][1..];
    assert xy[4] == s4 && xy[0] == s;
    RunConcat(c, xy, begin + restart, y, end);
    assert (xy + y[1..])[6] == y[2] && (xy + y[1..])[0] == s;
    assert begin + restart + end == InterruptedRemove(k, arg, alias);
  }

  lemma RestartRun(c: Config, s: State, t: State)
    requires PluginStep(c, s, Restart(true, {}), t)
    ensures Run(c, [s, t], [Restart(true, {})])
  {
    hide PluginStep, AddStep, RemoveStep;
  }

  lemma UpToCacheStep(c: Config, s: State, arg: string, target: Target, deviceOk: bool, ddnsOk: bool)
    requires var k := target.pubkey;
             s.cmd.Idle? && IsPubkey(k) && Intact(k) && HasFields(s.store, k) && Classify(s.store, arg) == Some(target)
    ensures exists states: seq<State> ::
              Run(c, states, RemoveBegin(arg, target, deviceOk, ddnsOk)) && states[0] == s
              && states[3] == AtCacheStep(s, target, deviceOk, ddnsOk)
  {
    hide AddStep, PluginStep, IsPubkey, Intact, HasFields, Classify, AliasKey;
    var k, t := target.pubkey, AtCacheStep(s, target, deviceOk, ddnsOk);
    var s1 := s.(device := t.device, cmd := Removing(k, "", DeviceDone, deviceOk, false));
    var s2 := s1.(cmd := s1.cmd.(alias := target.alias, stage := Resolved));
    assert RemoveStep(s, RemoveDevice(k, deviceOk), s1);
    assert RemoveStep(s1, RemoveResolve(arg, target.alias), s2);
    assert RemoveStep(s2, RemoveCache(ddnsOk), t);
    hide RemoveStep, AtCacheStep;
    assert Run(c, [s, s1, s2, t], RemoveBegin(arg, target, deviceOk, ddnsOk));
  }

  lemma FromKeysDelete(c: Config, s: State, k: string, alias: string)
    requires s.cmd == Removing(k, alias, CacheDone, true, true) && HoldsPeers(s.store) && IsPubkey(k) && Intact(k)
    ensures exists states: seq<State> ::
              Run(c, states, [RemoveKeys, RemoveAlias]) && states[0] == s && states[2].cmd.Idle?
              && states[2].device == s.device && states[2].cache == s.cache && NoStoredKey(states[2].store, k)
  {
    hide AddStep, PluginStep, IsPubkey, Intact, HoldsPeers, CtlAliasKey, CtlPeerPrefix, WithoutPrefix, NoStoredKey;
    var t := s.(store := WithoutPrefix(s.store, CtlPeerPrefix(k)), cmd := s.cmd.(stage := KeysDone));
    var u := t.(store := t.store - {CtlAliasKey(alias)}, cmd := Idle);
    KeysDeleted(s.store, k);
    DeleteKeepsAbsence(t.store, u.store, k);
    assert RemoveStep(s, RemoveKeys, t);
    assert RemoveStep(t, RemoveAlias, u);
    hide RemoveStep;
    assert Run(c, [s, t, u], [RemoveKeys, RemoveAlias]);
  }

  // ---- A failed cache step gives an address away twice

  /** The peer is added and cached, its remove fails in the cache step, and another peer is added before a pass. */
  function StaleBegin(k: string, ip: string, a: string): (events: seq<Event>)
    ensures |events| == 3
  {
    [AddDevice(k, ip, a), AddCommit, Poll(map[], {})]
  }

  function StaleEnd(l: string, ip: string, b: string): (events: seq<Event>)
    ensures |events| == 3
  {
    [AddDevice(l, ip, b), AddCommit, Sync({})]
  }

  /** The peer has been added and polled. */
  ghost predicate JustCached(s: State, t: State, k: string, ip: string, a: string) {
    && t == s.(device := s.device[k := ip], cache := t.cache, store := AddedPeer(s.store, k, ip, a))
    && k in t.cache && t.cache[k].dirty && t.cache[k].wgIP == ip
    && forall l :: l in t.cache ==> l in s.cache || l in s.device || l == k
  }

  lemma CachedAfterAdd(c: Config, s: State, k: string, ip: string, a: string)
    requires s.cmd.Idle? && AddArguments(k, ip, a) && Gone(s, k) && CtlAliasKey(a) !in s.store
    ensures exists states: seq<State> ::
              Run(c, states, StaleBegin(k, ip, a)) && states[0] == s && JustCached(s, states[3], k, ip, a)
  {
    hide IsPubkey, Intact, Accepted, ParseIPv4, CtlAliasKey, AddedPeer, HasFields, NoStoredKey, Polled, RemoveStep,
      JustCached;
    var s1 := s.(device := s.device[k := ip], cmd := Adding(k, ip, a));
    var s2 := s1.(store := AddedPeer(s.store, k, ip, a), cmd := Idle);
    var s3 := s2.(cache := Polled(s2.cache, s2.store, Sightings(s2.device, map[]), {}));
    assert AddStep(s, AddDevice(k, ip, a), s1);
    assert AddStep(s1, AddCommit, s2);
    assert PluginStep(c, s2, Poll(map[], {}), s3);
    PolledAfterAdd(s, s3, k, ip, a);
    hide AddStep, PluginStep;
    assert Run(c, [s, s1, s2, s3], StaleBegin(k, ip, a));
  }

  lemma PolledAfterAdd(s: State, t: State, k: string, ip: string, a: string)
    requires AddArguments(k, ip, a) && k !in s.cache
    requires t.device == s.device[k := ip] && t.store == AddedPeer(s.store, k, ip, a) && t.cmd == s.cmd
    requires t.cache == Polled(s.cache, t.store, Sightings(t.device, map[]), {})
    ensures JustCached(s, t, k, ip, a)
  {
    hide IsPubkey, Intact, Accepted, ParseIPv4, AddedPeer, HasFields, Polled, PolledEntry;
    AddedHasFields(s.store, k, ip, a);
    AddressNotEmpty(ip);
    var seen := Sightings(t.device, map[]);
    forall l ensures Lookup(t.cache, l) == PolledEntry(s.cache, t.store, seen, {}, l) {
      PolledLookup(s.cache, t.store, seen, {}, l);
    }
    SeenEntry(s.cache, t.store, seen, k);
    forall l | l in t.cache ensures l in s.cache || l in s.device || l == k {
      assert Lookup(t.cache, l).Some?;
      UnseenEntry(s.cache, t.store, seen, l);
    }
  }

  lemma UnseenEntry(cache: CacheView, store: Store, seen: map<string, Sighting>, l: string)
    ensures PolledEntry(cache, store, seen, {}, l).Some? ==> l in cache || l in seen
  {
    hide HasFields;
  }

  lemma SeenEntry(cache: CacheView, store: Store, seen: map<string, Sighting>, k: string)
    requires k !in cache && k in seen && seen[k].wgIP != "" && HasFields(store, k)
    ensures var e := PolledEntry(cache, store, seen, {}, k); e.Some? && e.value.dirty && e.value.wgIP == seen[k].wgIP
  {
    hide HasFields;
  }

  lemma SharedAfterAdd(c: Config, s: State, k: string, l: string, ip: string, b: string)
    requires s.cmd.Idle? && AddArguments(l, ip, b) && CtlAliasKey(b) !in s.store && k != l && l !in s.cache
    requires k in s.cache && s.cache[k].dirty && s.cache[k].wgIP == ip
    ensures exists states: seq<State> :: Run(c, states, StaleEnd(l, ip, b)) && states[0] == s
              && StoredIP(states[3].store, k) == Some(ip) && StoredIP(states[3].store, l) == Some(ip)
  {
    hide IsPubkey, Intact, Accepted, ParseIPv4, CtlAliasKey, AddedPeer, SyncResult, RemoveStep, PeerKey;
    var s1 := s.(device := s.device[l := ip], cmd := Adding(l, ip, b));
    var s2 := s1.(store := AddedPeer(s.store, l, ip, b), cmd := Idle);
    SyncExists(s.cache, s2.store, {});
    var after :| SyncResult(s.cache, s2.store, {}, after);
    var s3 := s2.(store := after);
    assert AddStep(s, AddDevice(l, ip, b), s1) && AddStep(s1, AddCommit, s2) && PluginStep(c, s2, Sync({}), s3);
    AddressNotEmpty(ip);
    AddressWritten(s.store, l, ip, b);
    BothSynced(s.cache, s2.store, after, k, l);
    hide AddStep, PluginStep;
    assert Run(c, [s, s1, s2, s3], StaleEnd(l, ip, b));
  }

  lemma BothSynced(cache: CacheView, store: Store, after: Store, k: string, l: string)
    requires SyncResult(cache, store, {}, after) && k in cache && cache[k].dirty && cache[k].wgIP != "" && l !in cache
    ensures StoredIP(after, k) == Some(cache[k].wgIP) && StoredIP(after, l) == StoredIP(store, l)
  {
    hide PeerKey;
    assert Lookup(after, PeerKey(k, WgIp)) == SyncedField(cache, store, {}, k, WgIp);
    assert Lookup(after, PeerKey(l, WgIp)) == SyncedField(cache, store, {}, l, WgIp);
  }

  /**
    The run that the condition on the key delete shuts out. A peer is added and cached; its remove fails in
    the cache step alone; the store is then as before, so that a second add gets the same address; and the
    next pass writes the first peer's back. Two keys hold one address.
   */
  lemma FailedCacheStepShares(c: Config, s: State, k: string, l: string, ip: string, a: string, b: string)
    requires Sane(s) && s.cmd.Idle? && k != l && AddArguments(k, ip, a) && AddArguments(l, ip, b)
    requires Gone(s, k) && Gone(s, l) && AliasKey(a) !in s.store && AliasKey(b) !in s.store
    ensures exists states: seq<State> ::
              Run(c, states, StaleBegin(k, ip, a) + RemoveEvents(a, Target(k, a), true, false, true, true)
                             + StaleEnd(l, ip, b))
              && states[0] == s && states[8].store == s.store
              && StoredIP(states[11].store, k) == Some(ip) && StoredIP(states[11].store, l) == Some(ip)
  {
    hide IsPubkey, Intact, Accepted, ParseIPv4, CtlAliasKey, AliasKey, AddedPeer, HasFields, NoStoredKey, Step, Sane,
      StoredIP, RemovedFromStore, RemovedFromDevice, RemovedFromCache, Classify, StaleBegin, StaleEnd, RemoveEvents;
    AddedPeerKeys(s.store, k, ip, a);
    AddedPeerKeys(s.store, l, ip, b);
    CachedAfterAdd(c, s, k, ip, a);
    var x: seq<State> :| Run(c, x, StaleBegin(k, ip, a)) && x[0] == s && JustCached(s, x[3], k, ip, a);
    AddedIsFound(s.store, k, ip, a);
    AddedHasFields(s.store, k, ip, a);
    RemoveIsARun(c, x[3], a, a, k, true, false, true, true);
    var y: seq<State> :| Run(c, y, RemoveEvents(a, Target(k, a), true, false, true, true))
      && y[0] == x[3] && y[5] == AfterRemove(x[3], Target(k, a), true, false, true, true);
    RemovedAgain(s, x[3].cache, k, ip, a);
    SharedAfterAdd(c, y[5], k, l, ip, b);
    var z: seq<State> :| Run(c, z, StaleEnd(l, ip, b)) && z[0] == y[5]
      && StoredIP(z[3].store, k) == Some(ip) && StoredIP(z[3].store, l) == Some(ip);
    Joined(c, x, StaleBegin(k, ip, a), y, RemoveEvents(a, Target(k, a), true, false, true, true), z,
      StaleEnd(l, ip, b));
  }

  lemma RemovedAgain(s: State, cache: CacheView, k: string, ip: string, a: string)
    requires Sane(s) && s.cmd.Idle? && AddArguments(k, ip, a) && Gone(s, k) && AliasKey(a) !in s.store
    ensures var added := s.(device := s.device[k := ip], cache := cache, store := AddedPeer(s.store, k, ip, a));
            AfterRemove(added, Target(k, a), true, false, true, true) == s.(cache := cache)
  {
    hide IsPubkey, Intact, Accepted, ParseIPv4, CtlAliasKey, AliasKey, AddedPeer, NoStoredKey, RemovedFromStore,
      HoldsPeers, IsDeviceKey, DeviceName;
    RemoveUndoesAdd(s.store, k, ip, a, false);
    KeyOnDevice(k);
    assert s.device[k := ip] - {k} == s.device;
  }

  lemma Joined(c: Config, x: seq<State>, ex: seq<Event>, y: seq<State>, ey: seq<Event>, z: seq<State>, ez: seq<Event>)
    requires Run(c, x, ex) && Run(c, y, ey) && Run(c, z, ez) && |ex| == 3 && |ey| == 5 && |ez| == 3
    requires x[3] == y[0] && y[5] == z[0]
    ensures exists all: seq<State> :: Run(c, all, ex + ey + ez) && all[0] == x[0] && all[8] == y[5] && all[11] == z[3]
  {
    hide Step;
    RunConcat(c, x, ex, y, ey);
    var xy := x + y[1..];
    assert xy[8] == y[5] && xy[0] == x[0];
    RunConcat(c, xy, ex + ey, z, ez);
    assert (xy + z[1..])[11] == z[3];
  }

  lemma AddedHasFields(store: Store, k: string, ip: string, alias: string)
    requires AddArguments(k, ip, alias)
    ensures HasFields(AddedPeer(store, k, ip, alias), k)
  {
    hide PeerKey, AliasKey, IsPubkey, Intact, Accepted, ParseIPv4, AddedPeer;
    AddedPeerKeys(store, k, ip, alias);
  }

  lemma FewerKeysHold(store: Store, key: string)
    requires HoldsPeers(store)
    ensures HoldsPeers(store - {key})
  {
    hide IsPrinted, HasPrefix;
  }

  lemma UndoneAt(store: Store, k: string, ip: string, alias: string, ddnsOk: bool, key: string)
    requires HoldsPeers(store) && AddArguments(k, ip, alias) && NoStoredKey(store, k) && AliasKey(alias) !in store
    requires !(ddnsOk && key == AliasKey(k))
    ensures var added := AddedPeer(store, k, ip, alias);
            var cleared := if ddnsOk then added - {AliasKey(k)} else added;
            Lookup(WithoutPrefix(cleared, CtlPeerPrefix(k)) - {AliasKey(alias)}, key) == Lookup(store, key)
  {
    hide PeerKey, AliasKey, CtlPeerPrefix, CtlAliasKey, IsPubkey, Intact, Accepted, AddedPeer, ParseIPv4, HasPrefix,
      HoldsPeers;
    AddedPeerKeys(store, k, ip, alias);
    PubkeyShape(k);
    PrinterPrefixesAgreeIff(k);
    if key == AliasKey(alias) {
    } else if HasPrefix(key, PEERS + k) {
      PrefixOfPrefix(key, PEERS, k);
      if key in store { StoredUnderPrefix(store, k, key); }
    } else {
      PrefixIdentifiesKey(k, k, WgIp);
      PrefixIdentifiesKey(k, k, Alias);
    }
  }

  lemma StoredUnderPrefix(store: Store, k: string, key: string)
    requires HoldsPeers(store) && IsPubkey(k) && key in store && HasPrefix(key, PEERS + k)
    ensures !NoStoredKey(store, k)
  {
    hide PeerKey, IsPubkey, HasPrefix;
    PrefixOfPrefix(key, PEERS, k);
    var l, f :| IsPubkey(l) && key == PeerKey(l, f);
    PubkeyShape(k);
    PubkeyShape(l);
    PrefixIdentifiesKey(k, l, f);
  }
}
