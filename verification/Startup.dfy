/** Initialisation of the plugin (coredns-plugin/valon/valon.go): load, restore, register self. */
module Startup {
  import opened Options
  import opened Text
  import opened Rfc4648
  import opened Labels
  import opened Addresses
  import opened PeerKeys
  import opened Cache
  import opened Etcd
  import opened Loader

  /** The WireGuard interface: the overlay address of each configured peer, by key. */
  type Device = map<string, string>

  class WgDevice {
    var peers: Device

    constructor ()
      ensures peers == map[]
    {
      peers := map[];
    }

    /** ConfigureDevice for one peer: it may fail, and then changes nothing. */
    method Configure(pubkey: string, wgIP: string, ok: bool)
      modifies this
      ensures peers == if ok then old(peers)[pubkey := wgIP] else old(peers)
    {
      if ok {
        peers := peers[pubkey := wgIP];
      }
    }

    method Remove(pubkey: string, ok: bool)
      modifies this
      ensures peers == if ok then old(peers) - {pubkey} else old(peers)
    {
      if ok {
        peers := peers - {pubkey};
      }
    }
  }

  /** The peers that a restore puts back: keys the device lacks, with an address that parses. */
  predicate Restorable(cache: CacheView, device: Device, failed: set<string>, k: string) {
    k in cache && k !in device && k !in failed && IsPubkey(k) && ParseIPv4(cache[k].wgIP).Some?
  }

  function RestoredDevice(cache: CacheView, device: Device, failed: set<string>): Device {
    device + (map k | k in cache && Restorable(cache, device, failed, k) :: cache[k].wgIP)
  }

  function SelfEntry(self: string, selfIP: string): Entry {
    Entry(self, selfIP, "", "", true)
  }

  /** The cache and the device after a restart of the plugin; a failed load leaves an empty cache. */
  ghost predicate RestartResult(self: string, selfIP: string, store: Store, device: Device, loadOk: bool,
                                failed: set<string>, cacheAfter: CacheView, deviceAfter: Device) {
    exists loaded: CacheView ::
      (if loadOk then LoadResult(store, loaded) else loaded == map[])
      && cacheAfter == loaded[self := SelfEntry(self, selfIP)]
      && deviceAfter == RestoredDevice(loaded, device, failed)
  }

  lemma LoadAllSteps(kvs: seq<KV>, i: nat)
    requires i <= |kvs|
    ensures i == 0 ==> LoadAll(kvs[..i]) == map[]
    ensures i < |kvs| ==> LoadAll(kvs[..i + 1]) == LoadStep(LoadAll(kvs[..i]), kvs[i])
  {
    if i < |kvs| {
      assert kvs[..i + 1][..i] == kvs[..i];
    }
  }

  lemma LoadedNothing()
    ensures LoadedEntries(map[])
  {
  }

  // ---- Loops over maps, one key at a time

  function Inserted(before: CacheView, loaded: CacheView, done: set<string>): CacheView {
    before + map k | k in loaded && k in done :: loaded[k]
  }

  lemma InsertedStep(before: CacheView, loaded: CacheView, done: set<string>, k: string)
    requires k in loaded
    ensures Inserted(before, loaded, done + {k}) == Inserted(before, loaded, done)[k := loaded[k]]
  {
  }

  lemma InsertedEnds(before: CacheView, loaded: CacheView, done: set<string>)
    ensures done == {} ==> Inserted(before, loaded, done) == before
    ensures done == loaded.Keys ==> Inserted(before, loaded, done) == before + loaded
  {
    if done == loaded.Keys {
      assert (map k | k in loaded && k in done :: loaded[k]) == loaded;
    }
  }

  function RestoredSoFar(cache: CacheView, device: Device, failed: set<string>, done: set<string>): Device {
    device + map k | k in cache && k in done && Restorable(cache, device, failed, k) :: cache[k].wgIP
  }

  lemma RestoredStep(cache: CacheView, device: Device, failed: set<string>, done: set<string>, k: string)
    requires k in cache
    ensures RestoredSoFar(cache, device, failed, done + {k})
            == if Restorable(cache, device, failed, k)
               then RestoredSoFar(cache, device, failed, done)[k := cache[k].wgIP]
               else RestoredSoFar(cache, device, failed, done)
  {
    hide IsPubkey, ParseIPv4;
  }

  lemma RestoredEnds(cache: CacheView, device: Device, failed: set<string>, done: set<string>)
    ensures done == {} ==> RestoredSoFar(cache, device, failed, done) == device
    ensures done == cache.Keys ==> RestoredSoFar(cache, device, failed, done) == RestoredDevice(cache, device, failed)
  {
    hide IsPubkey, ParseIPv4;
    if done == cache.Keys {
      assert (map k | k in cache && k in done && Restorable(cache, device, failed, k) :: cache[k].wgIP)
          == (map k | k in cache && Restorable(cache, device, failed, k) :: cache[k].wgIP);
    }
  }

  lemma RestoredPointwise(cache: CacheView, device: Device, failed: set<string>)
    ensures var after := RestoredDevice(cache, device, failed);
            && (forall k :: k in device ==> Lookup(after, k) == Some(device[k]))
            && forall k :: k !in device ==>
                 Lookup(after, k)
                 == if k in cache && IsPubkey(k) && ParseIPv4(cache[k].wgIP).Some? && k !in failed
                    then Some(cache[k].wgIP) else None
  {
    hide IsPubkey, ParseIPv4;
  }

  // ---- The node's own interface

  datatype StartError = NoEtcdClient | NotConfigured | NoInterface | NoKey | NoAddress

  datatype InterfaceAddress = IPv4Address(text: string) | OtherAddress

  /** What the system says of the configured interface; a part may be unavailable. */
  datatype OwnInterface = OwnInterface(found: bool, key: Option<string>, addresses: Option<seq<InterfaceAddress>>)

  /** This is the IPv4 address that no other one stands before. */
  predicate IsFirstIPv4(addresses: seq<InterfaceAddress>, ip: string) {
    exists i :: 0 <= i < |addresses| && addresses[i] == IPv4Address(ip)
                && forall j :: 0 <= j < i ==> addresses[j].OtherAddress?
  }

  method GetOwnWireGuardIP(addresses: Option<seq<InterfaceAddress>>) returns (r: Option<string>)
    ensures r.Some? ==> addresses.Some? && IsFirstIPv4(addresses.value, r.value)
    ensures r.None? ==> addresses.None? || forall a :: a in addresses.value ==> a.OtherAddress?
  {
    if addresses.None? {
      return None;
    }
    for i := 0 to |addresses.value|
      invariant forall j :: 0 <= j < i ==> addresses.value[j].OtherAddress?
    {
      if addresses.value[i].IPv4Address? {
        return Some(addresses.value[i].text);
      }
    }
    return None;
  }

  lemma FirstIsThere(addresses: seq<InterfaceAddress>, ip: string)
    requires IsFirstIPv4(addresses, ip)
    ensures exists a :: a in addresses && !a.OtherAddress?
  {
    var i :| 0 <= i < |addresses| && addresses[i] == IPv4Address(ip);
    assert addresses[i] in addresses;
  }

  /** Why the node cannot register itself, in the order of the checks. */
  function Obstacle(wgInterface: string, own: OwnInterface): Option<StartError> {
    if wgInterface == "" then Some(NotConfigured)
    else if !own.found then Some(NoInterface)
    else if own.key.None? then Some(NoKey)
    else if own.addresses.None? || forall a :: a in own.addresses.value ==> a.OtherAddress? then Some(NoAddress)
    else None
  }

  class Plugin {
    const cache: PeerCache
    const etcd: EtcdServer
    const device: WgDevice
    const wgInterface: string
    var selfWgIP: string

    constructor (cache: PeerCache, etcd: EtcdServer, device: WgDevice, wgInterface: string)
      ensures this.cache == cache && this.etcd == etcd && this.device == device && this.wgInterface == wgInterface
      ensures selfWgIP == ""
    {
      this.cache, this.etcd, this.device, this.wgInterface := cache, etcd, device, wgInterface;
      selfWgIP := "";
    }

    /** The entry of a name, made on first use. */
    method EntryFor(peersByPubkey: map<string, PeerInfo>, pubkey: string)
      returns (after: map<string, PeerInfo>, peer: PeerInfo)
      requires Distinct(peersByPubkey)
      ensures Distinct(after) && pubkey in after && after[pubkey] == peer
      ensures forall k :: k in after ==> (k in peersByPubkey && after[k] == peersByPubkey[k]) || fresh(after[k])
      ensures ViewOf(after) == ViewOf(peersByPubkey)[pubkey := EntryOr(ViewOf(peersByPubkey), pubkey)]
    {
      after := peersByPubkey;
      if pubkey !in after {
        var blank := new PeerInfo(Blank(pubkey));
        after := after[pubkey := blank];
      }
      peer := after[pubkey];
    }

    method AssignEntry(peersByPubkey: map<string, PeerInfo>, pubkey: string, entry: Entry)
      requires Distinct(peersByPubkey) && pubkey in peersByPubkey
      modifies peersByPubkey[pubkey]
      ensures ViewOf(peersByPubkey) == old(ViewOf(peersByPubkey))[pubkey := entry]
    {
      peersByPubkey[pubkey].Assign(entry);
    }

    /** One turn of the grouping loop. */
    method GroupKey(peersByPubkey: map<string, PeerInfo>, kv: KV) returns (after: map<string, PeerInfo>)
      requires Distinct(peersByPubkey)
      modifies peersByPubkey.Values
      ensures Distinct(after)
      ensures forall k :: k in after ==> (k in peersByPubkey && after[k] == peersByPubkey[k]) || fresh(after[k])
      ensures ViewOf(after) == LoadStep(old(ViewOf(peersByPubkey)), kv)
    {
      hide LoaderParse, LoaderField, TrimPrefix, EntryOr, WithField;
      after := peersByPubkey;
      match LoaderParse(TrimPrefix(kv.key, PEERS))
      case None =>
      case Some(p) =>
        ghost var view := ViewOf(peersByPubkey);
        ghost var e := EntryOr(view, p.pubkey);
        var peer;
        after, peer := EntryFor(peersByPubkey, p.pubkey);
        assert peer.View() == ViewOf(after)[p.pubkey] == e;
        match LoaderField(p.fieldPath) {
          case None =>
          case Some(f) =>
            AssignEntry(after, p.pubkey, WithField(peer.View(), f, kv.value));
            assert view[p.pubkey := e][p.pubkey := WithField(e, f, kv.value)]
              == view[p.pubkey := WithField(e, f, kv.value)];
        }
    }

    /** The loop over the etcd keys: one object per name that the parser cuts out. */
    method GroupByPubkey(kvs: seq<KV>) returns (peersByPubkey: map<string, PeerInfo>)
      ensures Distinct(peersByPubkey) && (forall k :: k in peersByPubkey ==> fresh(peersByPubkey[k]))
      ensures ViewOf(peersByPubkey) == LoadAll(kvs)
    {
      hide LoadStep, LoadAll;
      peersByPubkey := map[];
      LoadAllSteps(kvs, 0);
      for i := 0 to |kvs|
        invariant Distinct(peersByPubkey) && forall k :: k in peersByPubkey ==> fresh(peersByPubkey[k])
        invariant ViewOf(peersByPubkey) == LoadAll(kvs[..i])
      {
        LoadAllSteps(kvs, i);
        peersByPubkey := GroupKey(peersByPubkey, kvs[i]);
      }
      assert kvs[..|kvs|] == kvs;
    }

    /** The second loop of the load: every grouped entry goes into the cache. */
    method FillCache(peersByPubkey: map<string, PeerInfo>)
      requires cache.Valid() && Distinct(peersByPubkey)
      requires forall k, l :: k in peersByPubkey && l in cache.peers ==> cache.peers[l] != peersByPubkey[k]
      modifies cache
      ensures cache.Valid() && cache.View() == old(cache.View()) + ViewOf(peersByPubkey)
    {
      hide Inserted;
      var left := peersByPubkey.Keys;
      ghost var keys, loaded, before, done := peersByPubkey.Keys, ViewOf(peersByPubkey), cache.View(), {};
      assert loaded.Keys == keys;
      assert forall k :: k in keys ==> loaded[k] == peersByPubkey[k].View();
      InsertedEnds(before, loaded, done);
      while left != {}
        invariant cache.Valid() && left !! done && left + done == keys
        invariant forall k, l :: k in left && l in cache.peers ==> cache.peers[l] != peersByPubkey[k]
        invariant cache.View() == Inserted(before, loaded, done)
        decreases left
      {
        var pubkey :| pubkey in left;
        InsertedStep(before, loaded, done, pubkey);
        assert loaded[pubkey] == peersByPubkey[pubkey].View();
        cache.Set(pubkey, peersByPubkey[pubkey]);
        left, done := left - {pubkey}, done + {pubkey};
      }
      InsertedEnds(before, loaded, done);
    }

    method LoadFromEtcd() returns (ghost kvs: seq<KV>)
      requires cache.Valid()
      modifies cache
      ensures Enumerates(kvs, etcd.kvs, PEERS)
      ensures cache.Valid() && cache.View() == old(cache.View()) + LoadAll(kvs)
    {
      hide LoadAll, Enumerates;
      var found := etcd.GetPrefix(PEERS);
      kvs := found;
      var peersByPubkey := GroupByPubkey(found);
      FillCache(peersByPubkey);
    }

    method RestorePeer(peer: PeerInfo, existing: set<string>, ok: bool)
      requires IsPubkey(peer.pubKey) || |peer.pubKey| < 44
      modifies device
      ensures device.peers
              == if peer.pubKey !in existing && ParseIPv4(peer.wgIP).Some? && IsPubkey(peer.pubKey) && ok
                 then old(device.peers)[peer.pubKey := peer.wgIP] else old(device.peers)
    {
      if peer.pubKey in existing || ParseIPv4(peer.wgIP).None? {
        return;
      }
      if |peer.pubKey| < 44 { ShortTextIsNoKey(peer.pubKey); }
      var bytes := Decode64(peer.pubKey);
      if bytes.None? || |bytes.value| != 32 {
        return;
      }
      device.Configure(Encode64(bytes.value), peer.wgIP, ok);
    }

    /** Only keys that the device lacked at the start are configured, each from its own entry. */
    method RestoreWireGuardPeers(failed: set<string>)
      requires cache.Valid() && LoadedEntries(cache.View())
      modifies device
      ensures device.peers == RestoredDevice(cache.View(), old(device.peers), failed)
      ensures forall k :: k in old(device.peers) ==> Lookup(device.peers, k) == Some(old(device.peers)[k])
      ensures forall k :: k !in old(device.peers) ==>
        Lookup(device.peers, k)
        == if k in cache.View() && IsPubkey(k) && ParseIPv4(cache.View()[k].wgIP).Some? && k !in failed
           then Some(cache.View()[k].wgIP) else None
    {
      hide IsPubkey, ParseIPv4, RestoredSoFar, RestoredDevice;
      var peers := cache.GetAll();
      var existing := device.peers.Keys;
      var left := peers.Keys;
      ghost var view, before, done := cache.View(), device.peers, {};
      RestoredEnds(view, before, failed, done);
      while left != {}
        invariant left !! done && left + done == view.Keys && cache.View() == view
        invariant device.peers == RestoredSoFar(view, before, failed, done)
        decreases left
      {
        var pubkey :| pubkey in left;
        RestoredStep(view, before, failed, done, pubkey);
        assert view[pubkey] == peers[pubkey].View();
        RestorePeer(peers[pubkey], existing, pubkey !in failed);
        left, done := left - {pubkey}, done + {pubkey};
      }
      RestoredEnds(view, before, failed, done);
      RestoredPointwise(view, before, failed);
    }

    /** The node's own entry, under its own key and first IPv4 address, which is also kept for authorisation. */
    method RegisterSelf(own: OwnInterface) returns (r: Result<(), StartError>)
      requires cache.Valid()
      modifies cache, this`selfWgIP
      ensures cache.Valid()
      ensures match Obstacle(wgInterface, own)
              case Some(e) => r == Err(e) && cache.View() == old(cache.View()) && selfWgIP == old(selfWgIP)
              case None =>
                && r.Ok? && IsFirstIPv4(own.addresses.value, selfWgIP)
                && cache.View() == old(cache.View())[own.key.value := SelfEntry(own.key.value, selfWgIP)]
      ensures r == Err(NotConfigured) <==> wgInterface == ""
      ensures r == Err(NoInterface) <==> wgInterface != "" && !own.found
      ensures r == Err(NoKey) <==> wgInterface != "" && own.found && own.key.None?
      ensures r == Err(NoAddress) <==>
        && wgInterface != "" && own.found && own.key.Some?
        && (own.addresses.None? || forall a :: a in own.addresses.value ==> a.OtherAddress?)
      ensures r.Ok? ==>
        Lookup(cache.View(), own.key.value) == Some(Entry(own.key.value, selfWgIP, "", "", true))
    {
      if wgInterface == "" {
        return Err(NotConfigured);
      }
      if !own.found {
        return Err(NoInterface);
      }
      if own.key.None? {
        return Err(NoKey);
      }
      var wgIP := GetOwnWireGuardIP(own.addresses);
      if wgIP.None? {
        return Err(NoAddress);
      }
      FirstIsThere(own.addresses.value, wgIP.value);
      var info := new PeerInfo(SelfEntry(own.key.value, wgIP.value));
      cache.Set(own.key.value, info);
      selfWgIP := wgIP.value;
      return Ok(());
    }

    /** The load and the restore on a new cache; a failed load is logged and start-up goes on. */
    method LoadAndRestore(loadOk: bool, failed: set<string>) returns (ghost loaded: CacheView)
      requires cache.Valid() && cache.View() == map[] && HoldsPeers(etcd.kvs)
      modifies cache, device
      ensures cache.Valid() && (if loadOk then LoadResult(etcd.kvs, loaded) else loaded == map[])
      ensures cache.View() == loaded && device.peers == RestoredDevice(loaded, old(device.peers), failed)
    {
      hide LoadAll, LoadedKeys, LoadedFields, LoadedEntries, RestoredDevice, HoldsPeers, Enumerates;
      loaded := map[];
      LoadedNothing();
      if loadOk {
        ghost var kvs := LoadFromEtcd();
        LoadFromStore(kvs, etcd.kvs);
        loaded := LoadAll(kvs);
        assert map[] + loaded == loaded;
      }
      RestoreWireGuardPeers(failed);
    }

    /**
      Init on a new cache: without an etcd client nothing happens, and without an own address it fails after
      the restore.
     */
    method Init(clientOk: bool, own: OwnInterface, loadOk: bool, failed: set<string>) returns (r: Result<(),
                StartError>)
      requires cache.Valid() && cache.View() == map[] && HoldsPeers(etcd.kvs)
      modifies cache, device, this`selfWgIP
      ensures cache.Valid()
      ensures r.Ok? <==> clientOk && Obstacle(wgInterface, own).None?
      ensures r.Ok? ==>
        && IsFirstIPv4(own.addresses.value, selfWgIP)
        && RestartResult(own.key.value, selfWgIP, etcd.kvs, old(device.peers), loadOk, failed, cache.View(),
            device.peers)
      ensures !clientOk ==> r == Err(NoEtcdClient) && cache.View() == map[] && device.peers == old(device.peers)
      ensures r.Err? ==> selfWgIP == old(selfWgIP)
      ensures clientOk && r.Err? ==>
        && Some(r.error) == Obstacle(wgInterface, own)
        && (if loadOk then LoadResult(etcd.kvs, cache.View()) else cache.View() == map[])
        && device.peers == RestoredDevice(cache.View(), old(device.peers), failed)
    {
      hide LoadResult, RestoredDevice, HoldsPeers, SelfEntry;
      if !clientOk {
        return Err(NoEtcdClient);
      }
      ghost var loaded := LoadAndRestore(loadOk, failed);
      r := RegisterSelf(own);
    }
  }
}
