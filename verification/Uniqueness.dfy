/** Unique overlay addresses: device, cache and etcd agree on them, over whole runs. */
module Uniqueness {
  import opened Options
  import opened Text
  import opened Labels
  import opened Addresses
  import opened PeerKeys
  import opened Aliases
  import opened Cache
  import opened Etcd
  import opened EtcdSync
  import opened Loader
  import opened Startup
  import opened WgMonitor
  import opened Ddns
  import opened EtcdClient
  import opened System
  import opened Removal
  import opened Registry
  import Allocator

  function StoredIP(store: Store, k: string): Option<string> {
    Lookup(store, PeerKey(k, WgIp))
  }

  ghost predicate DistinctAddresses(store: Store) {
    forall k, l :: k != l && StoredIP(store, k).Some? ==> StoredIP(store, k) != StoredIP(store, l)
  }

  /** Whoever has a stored field has a stored address, and it is not empty. */
  ghost predicate AddressesPresent(store: Store) {
    (forall k, f :: PeerKey(k, f) in store ==> StoredIP(store, k).Some?)
    && forall k :: StoredIP(store, k) != Some("")
  }

  ghost predicate DeviceAgrees(device: Device, store: Store) {
    forall k :: k in device && StoredIP(store, k).Some? ==> StoredIP(store, k) == Some(device[k])
  }

  ghost predicate CacheAgrees(cache: CacheView, store: Store) {
    forall k :: k in cache && IsPubkey(k) ==> StoredIP(store, k) == Some(cache[k].wgIP)
  }

  /** The running command: an add holds a fresh address. */
  ghost predicate CommandAgrees(c: Config, s: State) {
    match s.cmd
    case Idle => true
    case Adding(k, ip, _) =>
      Lookup(s.device, k) == Some(ip) && NoStoredKey(s.store, k) && ip != ""
        && forall l :: StoredIP(s.store, l) != Some(ip)
    case Removing(_, _, _, _, _) => true
  }

  ghost predicate AddressesAgree(c: Config, s: State) {
    && DistinctAddresses(s.store) && AddressesPresent(s.store) && DeviceAgrees(s.device, s.store)
    && CacheAgrees(s.cache, s.store) && CommandAgrees(c, s)
    && StoredIP(s.store, c.self) == Some(c.selfIP)
  }

  /**
    The runs in question: adds of fresh keys with addresses that are not stored, as automatic ones are; the
    keys of a peer are deleted when it is no longer cached and is not the node itself; and what goes with an
    alias is no address that is still needed. Failed steps and restarts may fall anywhere.
   */
  ghost predicate FairToAddresses(c: Config, s: State, ev: Event) {
    match ev
    case AddDevice(k, ip, _) => NoStoredKey(s.store, k) && IsFresh(s.store, ip)
    case RemoveKeys => s.cmd.Removing? ==> s.cmd.k !in s.cache && s.cmd.k != c.self
    case RemoveAlias => s.cmd.Removing? ==> HarmlessDelete(c, s, CtlAliasKey(s.cmd.alias))
    case _ => true
  }

  ghost predicate IsFresh(store: Store, ip: string) {
    forall l :: StoredIP(store, l) != Some(ip)
  }

  /** If this is a stored address, its peer is not cached, is not the node itself, and has nothing else stored. */
  ghost predicate HarmlessDelete(c: Config, s: State, key: string) {
    forall l :: key == PeerKey(l, WgIp) && key in s.store ==>
      l !in s.cache && l != c.self && forall f :: f != WgIp ==> PeerKey(l, f) !in s.store
  }

  /** So it is for every proper alias, but not for a path that climbs to a peer. */
  lemma ProperAliasSpares(c: Config, s: State, alias: string)
    requires ProperPath(alias)
    ensures HarmlessDelete(c, s, CtlAliasKey(alias))
  {
    hide PeerKey, AliasKey, CtlAliasKey, ProperPath;
    CtlAliasKeyAgreesIff(alias);
    forall l ensures CtlAliasKey(alias) != PeerKey(l, WgIp) { PeerKeyIsNoAliasKey(l, WgIp, alias); }
  }

  /** The alias ../peers/L/wg_ip takes the address of a peer that still has its alias, and breaks the agreement. */
  lemma ClimbingAliasTakesAddress(c: Config, s: State, t: State, l: string)
    requires RemoveStep(s, RemoveAlias, t) && IsPubkey(l) && Intact(l) && s.cmd.alias == "../peers/" + l + "/wg_ip"
    ensures StoredIP(t.store, l) == None
    ensures PeerKey(l, Alias) in s.store ==> !AddressesAgree(c, t)
  {
    hide PeerKey, CtlAliasKey, IsPubkey, Intact, DistinctAddresses, DeviceAgrees, CacheAgrees, CommandAgrees;
    PubkeyShape(l);
    NamesAddress(l);
    if PeerKey(l, Alias) in s.store {
      if PeerKey(l, Alias) == PeerKey(l, WgIp) { PeerKeyInjective(l, Alias, l, WgIp); }
      assert PeerKey(l, Alias) in t.store;
    }
  }

  /** The address is one that AllocateIP may return for some network. */
  ghost predicate Automatic(store: Store, ip: string) {
    exists net: Allocator.IP, ones: nat ::
      |net| == 4 && 1 <= ones <= 32 && Allocator.IsSmallestFree(net, ones, UsedIPs(store), ip)
  }

  lemma AutomaticIsFresh(store: Store, ip: string)
    requires Automatic(store, ip)
    ensures ip != "" && IsFresh(store, ip)
  {
    hide PeerKey, UsedIPs, Allocator.IsHost, Dotted;
    var net: Allocator.IP, ones: nat :|
      |net| == 4 && 1 <= ones <= 32 && Allocator.IsSmallestFree(net, ones, UsedIPs(store), ip);
    var v: address :| Allocator.IsHost(net, ones, v) && ip == Dotted(v);
    DottedNotEmpty(v);
    forall l ensures StoredIP(store, l) != Some(ip) {
      if PeerKey(l, WgIp) in store { StoredIsUsed(store, l); }
    }
  }

  lemma DottedNotEmpty(v: address)
    ensures Dotted(v) != ""
  {
  }

  // ---- Frames of the stored addresses

  lemma SameAddresses(store: Store, after: Store)
    requires forall k :: StoredIP(after, k) == StoredIP(store, k)
    ensures DistinctAddresses(store) ==> DistinctAddresses(after)
    ensures forall d: Device :: DeviceAgrees(d, store) ==> DeviceAgrees(d, after)
    ensures forall m: CacheView :: CacheAgrees(m, store) ==> CacheAgrees(m, after)
  {
    hide StoredIP, IsPubkey;
  }

  lemma SyncWritesSame(cache: CacheView, store: Store, failed: set<string>, after: Store)
    requires SyncResult(cache, store, failed, after) && CacheSane(cache) && CacheAgrees(cache, store)
    ensures forall k :: StoredIP(after, k) == StoredIP(store, k)
  {
    hide PeerKey, IsPubkey;
    forall k ensures StoredIP(after, k) == StoredIP(store, k) {
      assert Lookup(after, PeerKey(k, WgIp)) == SyncedField(cache, store, failed, k, WgIp);
    }
  }

  lemma SyncKeepsPresent(cache: CacheView, store: Store, failed: set<string>, after: Store)
    requires SyncResult(cache, store, failed, after) && CacheSane(cache) && CacheAgrees(cache, store)
    requires AddressesPresent(store)
    ensures AddressesPresent(after)
  {
    hide PeerKey, IsPubkey;
    SyncWritesSame(cache, store, failed, after);
    forall k, f | PeerKey(k, f) in after ensures StoredIP(after, k).Some? {
      assert Lookup(after, PeerKey(k, f)) == SyncedField(cache, store, failed, k, f);
      if PeerKey(k, f) !in store { assert k in cache && cache[k].dirty; }
    }
  }

  lemma AddingAddress(c: Config, s: State, t: State)
    requires CommandAgrees(c, s) && t.cmd == s.cmd
    requires s.cmd.Adding? ==> Lookup(t.device, s.cmd.k) == Lookup(s.device, s.cmd.k) && NoStoredKey(t.store, s.cmd.k)
    requires forall k :: StoredIP(t.store, k) == StoredIP(s.store, k)
    ensures CommandAgrees(c, t)
  {
    hide StoredIP, NoStoredKey;
  }

  lemma FreshIsUncached(s: State)
    requires CacheAgrees(s.cache, s.store) && s.cmd.Adding? && NoStoredKey(s.store, s.cmd.k) && IsPubkey(s.cmd.k)
    ensures s.cmd.k !in s.cache
  {
    assert PeerKey(s.cmd.k, WgIp) !in s.store;
  }

  lemma SyncKeepsAddresses(c: Config, s: State, failed: set<string>, t: State)
    requires Sane(s) && AddressesAgree(c, s) && PluginStep(c, s, Sync(failed), t)
    ensures AddressesAgree(c, t)
  {
    hide PeerKey, IsPubkey, Intact, Accepted, ParseIPv4, SyncResult, HoldsPeers, CacheSane, DeviceSane, NoStoredKey,
      StoredIP, DistinctAddresses, AddressesPresent, DeviceAgrees, CacheAgrees;
    SyncWritesSame(s.cache, s.store, failed, t.store);
    SameAddresses(s.store, t.store);
    SyncKeepsPresent(s.cache, s.store, failed, t.store);
    if s.cmd.Adding? {
      FreshIsUncached(s);
      SyncSkipsAbsent(s.cache, s.store, failed, t.store, s.cmd.k);
    }
    AddingAddress(c, s, t);
  }

  // ---- Polls

  lemma PollKeepsAgreement(cache: CacheView, store: Store, device: Device, endpoints: map<string, string>,
                           failed: set<string>)
    requires AddressesPresent(store) && DeviceAgrees(device, store) && CacheAgrees(cache, store)
    ensures CacheAgrees(Polled(cache, store, Sightings(device, endpoints), failed), store)
  {
    hide PeerKey, IsPubkey, Polled;
    var seen := Sightings(device, endpoints);
    var after := Polled(cache, store, seen, failed);
    forall k | k in after && IsPubkey(k)
      ensures StoredIP(store, k) == Some(after[k].wgIP)
    {
      PolledLookup(cache, store, seen, failed, k);
      if k !in cache { HasFieldsHasAddress(store, k); }
    }
  }

  lemma HasFieldsHasAddress(store: Store, k: string)
    requires AddressesPresent(store) && HasFields(store, k)
    ensures StoredIP(store, k).Some?
  {
  }

  // ---- DDNS registrations

  lemma RegistrationFrame(store: Store, l: string, alias: string, aliasOk: bool, fieldOk: bool)
    requires StoredIP(store, l).Some? && AddressesPresent(store)
    ensures var after := AliasWritten(store, l, alias, aliasOk, fieldOk);
            (forall k :: StoredIP(after, k) == StoredIP(store, k)) && AddressesPresent(after)
  {
    hide PeerKey, AliasKey, PubkeyToDnsLabel;
    KeyFamiliesApart();
    var after := AliasWritten(store, l, alias, aliasOk, fieldOk);
    forall k ensures StoredIP(after, k) == StoredIP(store, k) {
      PeerKeyIsNoAliasKey(k, WgIp, alias);
      assert PeerKey(l, Alias) != PeerKey(k, WgIp);
    }
    forall k, f | PeerKey(k, f) in after ensures StoredIP(after, k).Some? {
      PeerKeyIsNoAliasKey(k, f, alias);
      if PeerKey(k, f) == PeerKey(l, Alias) { PeerKeyInjective(k, f, l, Alias); }
    }
  }

  lemma DdnsKeepsAddresses(c: Config, s: State, ev: Event, t: State)
    requires Sane(s) && AddressesAgree(c, s) && PluginStep(c, s, ev, t) && ev.DdnsUpdate? && FairToAddresses(c, s, ev)
    ensures AddressesAgree(c, t)
  {
    hide PeerKey, AliasKey, IsPubkey, Intact, Accepted, ParseIPv4, HoldsPeers, DeviceSane, NoStoredKey, StoredIP,
      AliasWritten, DistinctAddresses, AddressesPresent, DeviceAgrees, ValidLan;
    var k := ev.k;
    assert IsPubkey(k);
    RegistrationFrame(s.store, k, ev.alias, ev.aliasOk, ev.fieldOk);
    SameAddresses(s.store, t.store);
    if s.cmd.Adding? {
      FreshIsUncached(s);
      AliasWriteOfOther(s.store, k, ev.alias, ev.aliasOk, ev.fieldOk, s.cmd.k);
    }
    AddingAddress(c, s, t);
    UpdateKeepsAgreement(s.cache, t.store, k, ev.lan);
  }

  lemma UpdateKeepsAgreement(cache: CacheView, store: Store, k: string, lan: string)
    requires CacheAgrees(cache, store)
    ensures CacheAgrees(Updated(cache, k, (e: Entry) => WithLan(e, k, lan)), store)
  {
    hide PeerKey, IsPubkey;
  }

  // ---- Restarts

  lemma RestartKeepsAddresses(c: Config, s: State, ev: Event, t: State)
    requires Sane(s) && AddressesAgree(c, s) && PluginStep(c, s, ev, t) && ev.Restart?
    ensures AddressesAgree(c, t)
  {
    hide PeerKey, IsPubkey, Intact, Accepted, ParseIPv4, HoldsPeers, NoStoredKey, LoadedEntries, DistinctAddresses,
      AddressesPresent, CacheSane;
    var loaded: CacheView :|
      (if ev.loadOk then LoadResult(s.store, loaded) else loaded == map[])
      && t.cache == loaded[c.self := SelfEntry(c.self, c.selfIP)]
      && t.device == RestoredDevice(loaded, s.device, ev.failed);
    forall k | k in loaded && IsPubkey(k) ensures StoredIP(s.store, k) == Some(loaded[k].wgIP) {
      LoadedAddress(s.store, loaded, k);
    }
  }

  lemma LoadedAddress(store: Store, loaded: CacheView, k: string)
    requires LoadResult(store, loaded) && AddressesPresent(store) && k in loaded && IsPubkey(k)
    ensures StoredIP(store, k) == Some(loaded[k].wgIP)
  {
    hide PeerKey, IsPubkey, LoadedEntries;
    assert Loadable(store, k);
    var f :| LoaderReads(k, f) && PeerKey(k, f) in store;
    assert LoaderReads(k, WgIp);
    assert EntryField(EntryOr(loaded, k), WgIp) == LoadedText(store, k, WgIp);
  }

  // ---- valonctl's steps

  lemma AddressWritten(store: Store, k: string, ip: string, alias: string)
    requires AddArguments(k, ip, alias)
    ensures var after := AddedPeer(store, k, ip, alias);
            && (forall l :: StoredIP(after, l) == if l == k then Some(ip) else StoredIP(store, l))
            && (forall l, f :: l != k ==> (PeerKey(l, f) in after <==> PeerKey(l, f) in store))
  {
    hide PeerKey, AliasKey, AddedPeer, IsPubkey, Intact, Accepted;
    AddedPeerKeys(store, k, ip, alias);
    KeyFamiliesApart();
    forall l, f, g | l != k ensures PeerKey(l, f) != PeerKey(k, g) {
      if PeerKey(l, f) == PeerKey(k, g) { PeerKeyInjective(l, f, k, g); }
    }
    assert PeerKey(k, Alias) != PeerKey(k, WgIp);
  }

  lemma AddressNotEmpty(ip: string)
    requires ParseIPv4(ip).Some?
    ensures ip != ""
  {
    EmptyIsNoAddress();
  }

  /** A transaction keeps the stored addresses distinct exactly when no other peer has the new one. */
  lemma AddKeepsDistinctIff(store: Store, k: string, ip: string, alias: string)
    requires DistinctAddresses(store) && AddArguments(k, ip, alias)
    ensures DistinctAddresses(AddedPeer(store, k, ip, alias)) <==> forall l :: l != k ==> StoredIP(store, l) != Some(ip)
  {
    hide PeerKey, AddedPeer, AddArguments, StoredIP;
    AddressWritten(store, k, ip, alias);
    var after := AddedPeer(store, k, ip, alias);
    assert StoredIP(after, k) == Some(ip);
    if l :| l != k && StoredIP(store, l) == Some(ip) {
      assert StoredIP(after, l) == StoredIP(after, k);
    }
  }

  lemma AddKeepsAddresses(c: Config, s: State, ev: Event, t: State)
    requires Sane(s) && AddressesAgree(c, s) && AddStep(s, ev, t) && FairToAddresses(c, s, ev)
    ensures AddressesAgree(c, t)
  {
    hide PeerKey, AliasKey, AddedPeer, IsPubkey, Intact, Accepted, ParseIPv4, HoldsPeers, CacheSane, DeviceSane,
      CtlAliasKey;
    match ev
    case AddDevice(k, ip, _) =>
      AddressNotEmpty(ip);
      assert StoredIP(s.store, k) == None;
    case AddCommit =>
      AddressWritten(s.store, s.cmd.k, s.cmd.ip, s.cmd.alias);
      assert StoredIP(s.store, s.cmd.k) == None;
      SelfIsNotAdded(c, s);
    case AddRollback(_) =>
  }

  lemma SelfIsNotAdded(c: Config, s: State)
    requires AddressesAgree(c, s) && s.cmd.Adding?
    ensures s.cmd.k != c.self
  {
    assert PeerKey(s.cmd.k, WgIp) !in s.store;
  }

  /** Deleting keys that are not addresses, or all keys of one peer. */
  lemma DeleteKeepsAddresses(store: Store, after: Store, k: string)
    requires DistinctAddresses(store) && AddressesPresent(store)
    requires forall l, f :: PeerKey(l, f) in after ==>
             PeerKey(l, f) in store && after[PeerKey(l, f)] == store[PeerKey(l, f)]
    requires forall l :: l != k && PeerKey(l, WgIp) in store ==> PeerKey(l, WgIp) in after
    requires NoStoredKey(after, k) || (PeerKey(k, WgIp) in store ==> PeerKey(k, WgIp) in after)
    ensures DistinctAddresses(after) && AddressesPresent(after)
    ensures forall l :: l != k ==> StoredIP(after, l) == StoredIP(store, l)
    ensures forall l :: StoredIP(after, l) == StoredIP(store, l) || StoredIP(after, l) == None
  {
    hide PeerKey;
  }

  lemma KeyDeleteFrame(store: Store, key: string)
    requires forall l :: key != PeerKey(l, WgIp)
    ensures var after := store - {key};
            && (forall l, f :: PeerKey(l, f) in after ==>
                PeerKey(l, f) in store && after[PeerKey(l, f)] == store[PeerKey(l, f)])
            && (forall l :: PeerKey(l, WgIp) in store ==> PeerKey(l, WgIp) in after)
            && (forall l :: StoredIP(after, l) == StoredIP(store, l))
  {
    hide PeerKey;
  }

  lemma RemoveKeysFrame(store: Store, k: string)
    requires HoldsPeers(store) && IsPubkey(k) && Intact(k)
    ensures var after := WithoutPrefix(store, CtlPeerPrefix(k));
            (forall l, f :: PeerKey(l, f) in after ==>
              PeerKey(l, f) in store && after[PeerKey(l, f)] == store[PeerKey(l, f)])
            && (forall l, f :: l != k && PeerKey(l, f) in store ==> PeerKey(l, f) in after)
            && NoStoredKey(after, k)
  {
    hide PeerKey, IsPubkey, Intact, CtlPeerPrefix;
    KeysDeleted(store, k);
    PrefixDeleteExact(store, k);
    var after := WithoutPrefix(store, CtlPeerPrefix(k));
    forall l, f | l != k && PeerKey(l, f) in store ensures PeerKey(l, f) in after {
      StoredKeyIsPubkey(store, l, f);
      assert Lookup(after, PeerKey(l, f)) == Lookup(store, PeerKey(l, f));
    }
  }

  lemma StoredKeyIsPubkey(store: Store, l: string, f: Field)
    requires HoldsPeers(store) && PeerKey(l, f) in store
    ensures IsPubkey(l)
  {
    hide PeerKey, IsPubkey, HasPrefix;
    PeerKeyHasPrefix(l, f);
    assert IsPrinted(PeerKey(l, f));
    var m, g :| IsPubkey(m) && PeerKey(l, f) == PeerKey(m, g);
    PeerKeyInjective(l, f, m, g);
  }

  lemma RemoveKeepsAddresses(c: Config, s: State, ev: Event, t: State)
    requires Sane(s) && AddressesAgree(c, s) && RemoveStep(s, ev, t) && FairToAddresses(c, s, ev)
    ensures AddressesAgree(c, t)
  {
    hide PeerKey, AliasKey, CtlAliasKey, CtlPeerPrefix, Classify, WithoutPrefix, IsPubkey, Intact, HoldsPeers,
      CacheSane, DeviceSane, HasFields, NoStoredKey, StoredIP, DistinctAddresses, AddressesPresent, HarmlessDelete;
    match ev
    case RemoveCache(_) =>
      forall l { PeerKeyIsNoAliasKey(l, WgIp, s.cmd.k); }
      KeyDeleteKeepsAddresses(c, s, AliasKey(s.cmd.k), t);
    case RemoveKeys => PeerDeleteKeepsAddresses(c, s, t);
    case RemoveAlias => AliasDeleteKeepsIff(c, s, t);
    case _ =>
  }

  /** A step that deletes at most one etcd key, no address, and may take entries off the cache. */
  lemma KeyDeleteKeepsAddresses(c: Config, s: State, key: string, t: State)
    requires AddressesAgree(c, s) && CommandAgrees(c, t) && !t.cmd.Adding?
    requires t.store == s.store || t.store == s.store - {key}
    requires (forall l :: key != PeerKey(l, WgIp)) && t.device == s.device
    requires forall k :: k in t.cache ==> k in s.cache && t.cache[k] == s.cache[k]
    ensures AddressesAgree(c, t)
  {
    hide PeerKey, IsPubkey, StoredIP, DistinctAddresses, AddressesPresent, DeviceAgrees;
    KeyDeleteFrame(s.store, key);
    if t.store != s.store {
      DeleteKeepsAddresses(s.store, t.store, "");
      SameAddresses(s.store, t.store);
    }
  }

  lemma PeerDeleteKeepsAddresses(c: Config, s: State, t: State)
    requires Sane(s) && AddressesAgree(c, s) && RemoveStep(s, RemoveKeys, t)
    requires s.cmd.k !in s.cache && s.cmd.k != c.self
    ensures AddressesAgree(c, t)
  {
    hide PeerKey, CtlPeerPrefix, WithoutPrefix, IsPubkey, Intact, HoldsPeers, CacheSane, DeviceSane, NoStoredKey,
      StoredIP, DistinctAddresses, AddressesPresent;
    RemoveKeysFrame(s.store, s.cmd.k);
    DeleteKeepsAddresses(s.store, t.store, s.cmd.k);
  }

  // ---- The conditions on the two deletes are exact

  lemma RemoveKeysKeepsIff(c: Config, s: State, t: State)
    requires Sane(s) && AddressesAgree(c, s) && RemoveStep(s, RemoveKeys, t)
    ensures AddressesAgree(c, t) <==> s.cmd.k !in s.cache && s.cmd.k != c.self
  {
    hide PeerKey, CtlPeerPrefix, WithoutPrefix, IsPubkey, Intact, HoldsPeers, CacheSane, DeviceSane, NoStoredKey,
      DistinctAddresses, AddressesPresent, DeviceAgrees, StoredIP;
    if s.cmd.k !in s.cache && s.cmd.k != c.self {
      PeerDeleteKeepsAddresses(c, s, t);
    } else {
      KeysDeleted(s.store, s.cmd.k);
      NoAddressLeft(t.store, s.cmd.k);
    }
  }

  /** The alias delete keeps the agreement exactly when it takes no address that is still needed. */
  lemma AliasDeleteKeepsIff(c: Config, s: State, t: State)
    requires Sane(s) && AddressesAgree(c, s) && RemoveStep(s, RemoveAlias, t)
    ensures AddressesAgree(c, t) <==> HarmlessDelete(c, s, CtlAliasKey(s.cmd.alias))
  {
    hide PeerKey, CtlAliasKey, IsPubkey, Intact, HoldsPeers, CacheSane, DeviceSane, StoredIP, NoStoredKey,
      DistinctAddresses, AddressesPresent, DeviceAgrees, CacheAgrees;
    var key := CtlAliasKey(s.cmd.alias);
    if l :| key == PeerKey(l, WgIp) && key in s.store {
      StoredKeyIsPubkey(s.store, l, WgIp);
      AddressDeleteKeepsIff(c, s, l, t);
    } else if key in s.store {
      KeyDeleteKeepsAddresses(c, s, key, t);
    } else {
      assert t.store == s.store;
    }
  }

  lemma AddressDeleteKeepsIff(c: Config, s: State, l: string, t: State)
    requires AddressesAgree(c, s) && PeerKey(l, WgIp) in s.store && IsPubkey(l)
    requires t == s.(store := s.store - {PeerKey(l, WgIp)}, cmd := Idle)
    ensures AddressesAgree(c, t) <==> HarmlessDelete(c, s, PeerKey(l, WgIp))
  {
    hide PeerKey, IsPubkey;
    var after := s.store - {PeerKey(l, WgIp)};
    forall j, f | j != l || f != WgIp ensures PeerKey(j, f) != PeerKey(l, WgIp) {
      if PeerKey(j, f) == PeerKey(l, WgIp) { PeerKeyInjective(j, f, l, WgIp); }
    }
    HarmlessAt(c, s, l);
    if HarmlessDelete(c, s, PeerKey(l, WgIp)) {
      DeleteKeepsAddresses(s.store, after, l);
    } else {
      NeededAddress(c, s, l, t);
    }
  }

  lemma HarmlessAt(c: Config, s: State, l: string)
    requires PeerKey(l, WgIp) in s.store
    ensures HarmlessDelete(c, s, PeerKey(l, WgIp))
            <==> l !in s.cache && l != c.self && forall f :: f != WgIp ==> PeerKey(l, f) !in s.store
  {
    hide PeerKey;
    forall j | PeerKey(j, WgIp) == PeerKey(l, WgIp) ensures j == l { PeerKeyInjective(j, WgIp, l, WgIp); }
  }

  lemma NeededAddress(c: Config, s: State, l: string, t: State)
    requires IsPubkey(l) && t == s.(store := s.store - {PeerKey(l, WgIp)}, cmd := Idle)
    requires l in s.cache || l == c.self || exists f :: f != WgIp && PeerKey(l, f) in s.store
    ensures !AddressesAgree(c, t)
  {
    hide PeerKey, IsPubkey, DistinctAddresses, DeviceAgrees;
    assert StoredIP(t.store, l) == None;
    if f :| f != WgIp && PeerKey(l, f) in s.store {
      if PeerKey(l, f) == PeerKey(l, WgIp) { PeerKeyInjective(l, f, l, WgIp); }
      assert PeerKey(l, f) in t.store;
    }
  }

  lemma NoAddressLeft(store: Store, k: string)
    requires NoStoredKey(store, k)
    ensures StoredIP(store, k) == None
  {
    hide PeerKey;
  }

  // ---- Runs

  lemma StepKeepsAddresses(c: Config, s: State, ev: Event, t: State)
    requires Sane(s) && AddressesAgree(c, s) && Step(c, s, ev, t) && FairToAddresses(c, s, ev)
    ensures AddressesAgree(c, t)
  {
    hide Sane, AddStep, RemoveStep, FairToAddresses, Polled, SyncResult, AliasWritten, RestartResult;
    if AddStep(s, ev, t) {
      AddKeepsAddresses(c, s, ev, t);
    } else if RemoveStep(s, ev, t) {
      RemoveKeepsAddresses(c, s, ev, t);
    } else {
      match ev
      case Poll(endpoints, failed) => PollKeepsAddresses(c, s, ev, t);
      case Sync(failed) => SyncKeepsAddresses(c, s, failed, t);
      case DdnsUpdate(_, _, _, _, _, _) => DdnsKeepsAddresses(c, s, ev, t);
      case Restart(_, _) => RestartKeepsAddresses(c, s, ev, t);
    }
  }

  lemma PollKeepsAddresses(c: Config, s: State, ev: Event, t: State)
    requires AddressesAgree(c, s) && PluginStep(c, s, ev, t) && ev.Poll?
    ensures AddressesAgree(c, t)
  {
    hide Polled, DistinctAddresses, AddressesPresent, DeviceAgrees, CacheAgrees, StoredIP, NoStoredKey;
    PollKeepsAgreement(s.cache, s.store, s.device, ev.endpoints, ev.failed);
  }

  /**
    In every fair run the stored addresses are pairwise distinct, and any two of device, cache and etcd
    that know a key give it the same address.
   */
  lemma {:induction false} AddressInvariant(c: Config, states: seq<State>, events: seq<Event>, n: nat)
    requires Run(c, states, events) && IsPubkey(c.self) && n < |states|
    requires Sane(states[0]) && AddressesAgree(c, states[0])
    requires forall i :: 0 <= i < |events| ==> FairToAddresses(c, states[i], events[i])
    ensures Sane(states[n]) && AddressesAgree(c, states[n])
  {
    hide Sane, AddressesAgree, Step, IsPubkey;
    if n > 0 {
      AddressInvariant(c, states, events, n - 1);
      StepKeepsSane(c, states[n - 1], events[n - 1], states[n]);
      assert FairToAddresses(c, states[n - 1], events[n - 1]);
      StepKeepsAddresses(c, states[n - 1], events[n - 1], states[n]);
    }
  }

  /** The three stores name one address per key and no address twice. */
  lemma StoresAgree(c: Config, s: State, k: string)
    requires AddressesAgree(c, s) && IsPubkey(k)
    ensures k in s.cache && k in s.device ==> s.cache[k].wgIP == s.device[k]
    ensures k in s.cache ==> StoredIP(s.store, k) == Some(s.cache[k].wgIP)
    ensures k in s.device && StoredIP(s.store, k).Some? ==> StoredIP(s.store, k) == Some(s.device[k])
    ensures forall l :: l in s.cache && k in s.cache && IsPubkey(l) && l != k ==> s.cache[l].wgIP != s.cache[k].wgIP
  {
    hide IsPubkey, PeerKey;
    forall l | l in s.cache && k in s.cache && IsPubkey(l) && l != k ensures s.cache[l].wgIP != s.cache[k].wgIP {
      assert StoredIP(s.store, k) != StoredIP(s.store, l);
    }
  }

  // ---- Who may change what

  /**
    A request from an overlay address that is not the node's is let in for the one cached peer to which etcd gave
    that address, and for no other.
   */
  lemma AuthorizedIsOwner(c: Config, s: State, clientIP: string, k: string)
    requires Sane(s) && AddressesAgree(c, s) && clientIP != "" && clientIP != c.selfIP
    ensures IsAuthorized(s.cache, c.selfIP, clientIP, k) <==> k in s.cache && StoredIP(s.store, k) == Some(clientIP)
    ensures forall l ::
      IsAuthorized(s.cache, c.selfIP, clientIP, k) && IsAuthorized(s.cache, c.selfIP, clientIP, l) ==> k == l
  {
    hide IsPubkey, PeerKey, HoldsPeers;
    forall l
      ensures IsAuthorized(s.cache, c.selfIP, clientIP, l) <==> l in s.cache && StoredIP(s.store, l) == Some(clientIP)
    {
      if StoredIP(s.store, l).Some? { StoredAreKeys(s.store, l); }
    }
  }

  lemma StoredAreKeys(store: Store, k: string)
    requires HoldsPeers(store) && StoredIP(store, k).Some?
    ensures IsPubkey(k)
  {
    hide IsPubkey, PeerKey;
    PeerKeyHasPrefix(k, WgIp);
    assert IsPrinted(PeerKey(k, WgIp));
    var l, f :| IsPubkey(l) && PeerKey(k, WgIp) == PeerKey(l, f);
    PeerKeyInjective(k, WgIp, l, f);
  }

  /** The machine's requests are those from other nodes that the handler grants. */
  lemma RequestIsStepIff(c: Config, s: State, ev: Event)
    requires Sane(s) && ev.DdnsUpdate? && ev.clientIP != "" && ev.clientIP != c.selfIP
    ensures (exists t :: PluginStep(c, s, ev, t))
            <==> UpdateStatus(s.cache, c.selfIP, ev.clientIP, ev.k, ev.lan) == StatusOK
  {
    hide IsPubkey, PeerKey, HoldsPeers, ValidLan, AliasWritten;
    if ev.k == "" && ev.k in s.cache && IsPubkey(ev.k) { PubkeyShape(ev.k); }
    if UpdateStatus(s.cache, c.selfIP, ev.clientIP, ev.k, ev.lan) == StatusOK {
      var t := s.(cache := Updated(s.cache, ev.k, (e: Entry) => WithLan(e, ev.k, ev.lan)),
                  store := AliasWritten(s.store, ev.k, ev.alias, ev.aliasOk, ev.fieldOk));
      assert PluginStep(c, s, ev, t);
    }
  }

  /** Such a request leaves the entries and the stored fields of every peer with another address alone. */
  lemma RequestTouchesOwner(c: Config, s: State, ev: Event, t: State, l: string)
    requires Sane(s) && AddressesAgree(c, s) && ev.DdnsUpdate? && PluginStep(c, s, ev, t)
    requires StoredIP(s.store, l) != Some(ev.clientIP)
    ensures Lookup(t.cache, l) == Lookup(s.cache, l)
    ensures forall f :: Lookup(t.store, PeerKey(l, f)) == Lookup(s.store, PeerKey(l, f))
  {
    hide IsPubkey, PeerKey, AliasKey, HoldsPeers, ValidLan, WithLan, PubkeyToDnsLabel;
    assert l != ev.k;
    forall f ensures Lookup(t.store, PeerKey(l, f)) == Lookup(s.store, PeerKey(l, f)) {
      PeerKeyIsNoAliasKey(l, f, ev.alias);
      if PeerKey(l, f) == PeerKey(ev.k, Alias) { PeerKeyInjective(l, f, ev.k, Alias); }
    }
  }
}
