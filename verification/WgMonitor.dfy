/** The polling step (coredns-plugin/valon/wg_monitor.go). */
module WgMonitor {
  import opened Options
  import opened Text
  import opened Bits
  import opened Rfc4648
  import opened Labels
  import opened PeerKeys
  import opened Cache
  import opened Etcd
  import opened Loader

  datatype AllowedIP = IPv4(text: string) | IPv6

  /** A peer as the device reports it; the endpoint is empty while none was observed. */
  datatype WgPeer = WgPeer(publicKey: seq<byte>, endpoint: string, allowedIPs: seq<AllowedIP>)

  /** The text of the first IPv4 network among the allowed ones. */
  function OverlayIP(allowedIPs: seq<AllowedIP>): string {
    if allowedIPs == [] then ""
    else if allowedIPs[0].IPv4? then allowedIPs[0].text
    else OverlayIP(allowedIPs[1..])
  }

  method ExtractWgIP(allowedIPs: seq<AllowedIP>) returns (ip: string)
    ensures ip == OverlayIP(allowedIPs)
    ensures forall i :: 0 <= i < |allowedIPs| && allowedIPs[i].IPv4? ==>
      (forall j :: 0 <= j < i ==> allowedIPs[j].IPv6?) ==> ip == allowedIPs[i].text
    ensures (forall i :: 0 <= i < |allowedIPs| ==> allowedIPs[i].IPv6?) ==> ip == ""
  {
    assert allowedIPs[0..] == allowedIPs;
    for i := 0 to |allowedIPs|
      invariant OverlayIP(allowedIPs) == OverlayIP(allowedIPs[i..])
      invariant forall j :: 0 <= j < i ==> allowedIPs[j].IPv6?
    {
      if allowedIPs[i].IPv4? {
        return allowedIPs[i].text;
      }
      assert allowedIPs[i..][1..] == allowedIPs[i + 1..];
    }
    return "";
  }

  // ---- A peer read from etcd

  predicate HasFields(store: Store, k: string) {
    exists f: Field :: PeerKey(k, f) in store
  }

  /** The entry that etcd holds for a key; the device's address stands in for a missing one. */
  function StoredEntry(store: Store, k: string, wgIP: string): Entry {
    var stored := Lookup(store, PeerKey(k, WgIp));
    Entry(k, if stored.Some? then stored.value else wgIP,
          TextOr(Lookup(store, PeerKey(k, Lan))), TextOr(Lookup(store, PeerKey(k, Nated))), false)
  }

  function SuffixStep(e: Entry, kv: KV): Entry {
    if HasSuffix(kv.key, "/wg_ip") then e.(wgIP := kv.value)
    else if HasSuffix(kv.key, "/endpoints/lan") then e.(lanEndpoint := kv.value)
    else if HasSuffix(kv.key, "/endpoints/nated") then e.(natEndpoint := kv.value)
    else e
  }

  lemma SuffixOfKey(k: string, f: Field, g: Field)
    ensures HasSuffix(PeerKey(k, f), "/" + FieldPath(g)) <==> f == g
  {
    hide FieldPath;
    LastChars(k, f);
    TailChars(g);
    var s, t := PeerKey(k, f), "/" + FieldPath(g);
    if f == g {
      SuffixConcat(PEERS + k, t);
      assert s == PEERS + k + t;
    } else if HasSuffix(s, t) {
      OccurrenceChars(s, t, |s| - |t|, |s| - 1);
      OccurrenceChars(s, t, |s| - |t|, |s| - 3);
    }
  }

  lemma SuffixStepOfKey(e: Entry, k: string, f: Field, value: string)
    ensures SuffixStep(e, KV(PeerKey(k, f), value)) == WithField(e, f, value)
  {
    hide PeerKey, HasSuffix;
    SuffixOfKey(k, f, WgIp);
    SuffixOfKey(k, f, Lan);
    SuffixOfKey(k, f, Nated);
    assert "/" + FieldPath(WgIp) == "/wg_ip" && "/" + FieldPath(Lan) == "/endpoints/lan";
    assert "/" + FieldPath(Nated) == "/endpoints/nated";
  }

  function SuffixFold(e: Entry, kvs: seq<KV>): Entry {
    if kvs == [] then e else SuffixStep(SuffixFold(e, kvs[..|kvs| - 1]), kvs[|kvs| - 1])
  }

  ghost predicate IsKeyOf(key: string, k: string) {
    exists f :: key == PeerKey(k, f)
  }

  ghost predicate KeysOf(kvs: seq<KV>, k: string) {
    forall i :: 0 <= i < |kvs| ==> IsKeyOf(kvs[i].key, k)
  }

  lemma {:induction false} SuffixFoldIsStored(kvs: seq<KV>, k: string, wgIP: string)
    requires KeysOf(kvs, k)
    ensures SuffixFold(Blank(k).(wgIP := wgIP), kvs) == StoredEntry(StoreOf(kvs), k, wgIP)
  {
    hide PeerKey, SuffixStep;
    if kvs != [] {
      var n := |kvs| - 1;
      SuffixFoldIsStored(kvs[..n], k, wgIP);
      var f :| kvs[n].key == PeerKey(k, f);
      SuffixStepOfKey(SuffixFold(Blank(k).(wgIP := wgIP), kvs[..n]), k, f, kvs[n].value);
      assert kvs[n] == KV(PeerKey(k, f), kvs[n].value);
      forall g | g != f { OtherLookups(StoreOf(kvs[..n]), k, f, kvs[n].value, k, g); }
    }
  }

  lemma PrefixKeys(kvs: seq<KV>, store: Store, k: string)
    requires HoldsPeers(store) && IsPubkey(k) && Enumerates(kvs, store, PEERS + k + "/")
    ensures KeysOf(kvs, k)
    ensures forall f :: Lookup(StoreOf(kvs), PeerKey(k, f)) == Lookup(store, PeerKey(k, f))
    ensures kvs == [] <==> !HasFields(store, k)
  {
    hide PeerKey, IsPubkey, HasPrefix;
    PubkeyShape(k);
    var prefix := PEERS + k + "/";
    forall i | 0 <= i < |kvs|
      ensures IsKeyOf(kvs[i].key, k)
    {
      PrefixOfPrefix(kvs[i].key, PEERS + k, "/");
      PrefixOfPrefix(kvs[i].key, PEERS, k);
      assert IsPrinted(kvs[i].key);
      var l, f :| IsPubkey(l) && kvs[i].key == PeerKey(l, f);
      PubkeyShape(l);
      PrefixIdentifiesKey(k, l, f);
    }
    forall f
      ensures HasPrefix(PeerKey(k, f), prefix) && Lookup(StoreOf(kvs), PeerKey(k, f)) == Lookup(store, PeerKey(k, f))
    {
      FieldBehindPrefix(k, f);
      EnumerationLookup(kvs, store, prefix, PeerKey(k, f));
    }
    if kvs == [] {
      forall f ensures PeerKey(k, f) !in store { assert Lookup(StoreOf(kvs), PeerKey(k, f)) == None; }
    } else {
      assert IsKeyOf(kvs[0].key, k) && kvs[0].key in store;
      var f :| kvs[0].key == PeerKey(k, f);
    }
  }

  lemma FieldBehindPrefix(k: string, f: Field)
    ensures HasPrefix(PeerKey(k, f), PEERS + k + "/")
  {
    PrefixConcat(PEERS + k + "/", FieldPath(f));
    assert PeerKey(k, f) == (PEERS + k + "/") + FieldPath(f);
  }

  /**
    What loadPeerFromEtcd may build from any store: the keys under the peer's prefix, in some order, folded by
    their suffixes; nothing if there are none.
   */
  ghost predicate Loads(store: Store, k: string, wgIP: string, e: Option<Entry>) {
    exists kvs ::
      Enumerates(kvs, store, PEERS + k + "/")
      && e == if kvs == [] then None else Some(SuffixFold(Blank(k).(wgIP := wgIP), kvs))
  }

  ghost predicate LoadsIf(store: Store, etcdOk: bool, k: string, wgIP: string, e: Option<Entry>) {
    if etcdOk then Loads(store, k, wgIP, e) else e == None
  }

  ghost predicate LoadsUnless(store: Store, failed: set<string>, k: string, wgIP: string, e: Option<Entry>) {
    LoadsIf(store, k !in failed, k, wgIP, e)
  }

  /** In a store of peers the order does not matter: the entry holds the stored fields. */
  lemma LoadsStored(store: Store, k: string, wgIP: string, e: Option<Entry>)
    requires HoldsPeers(store) && IsPubkey(k) && Loads(store, k, wgIP, e)
    ensures e == if HasFields(store, k) then Some(StoredEntry(store, k, wgIP)) else None
  {
    hide HoldsPeers, IsPubkey, Enumerates, HasFields, SuffixFold, PeerKey;
    var kvs :| Enumerates(kvs, store, PEERS + k + "/")
      && e == if kvs == [] then None else Some(SuffixFold(Blank(k).(wgIP := wgIP), kvs));
    PrefixKeys(kvs, store, k);
    SuffixFoldIsStored(kvs, k, wgIP);
  }

  // ---- One poll on values

  /** What a sighting does to an entry; the update leaves it dirty whether or not it changed. */
  function Observed(e: Entry, k: string, wgIP: string, endpoint: string): Entry {
    e.(pubKey := k, wgIP := if wgIP != "" then wgIP else e.wgIP,
       natEndpoint := if endpoint != "" && e.natEndpoint != endpoint then endpoint else e.natEndpoint, dirty := true)
  }

  function ObservedIf(e: Option<Entry>, k: string, wgIP: string, endpoint: string): Option<Entry> {
    match e
    case None => None
    case Some(known) => Some(Observed(known, k, wgIP, endpoint))
  }

  /** What a sighting does to the cache, given what etcd had to say about an unknown peer. */
  function Processed(cache: CacheView, k: string, wgIP: string, endpoint: string, e: Option<Entry>): CacheView {
    if k in cache then cache[k := Observed(cache[k], k, wgIP, endpoint)]
    else if e.Some? then cache[k := Observed(e.value, k, wgIP, endpoint)]
    else cache
  }

  lemma ProcessedKnown(cache: CacheView, k: string, wgIP: string, endpoint: string, e: Option<Entry>)
    requires k in cache || e.Some?
    ensures var known := if k in cache then cache else cache[k := e.value];
            Processed(cache, k, wgIP, endpoint, e) == known[k := Observed(known[k], k, wgIP, endpoint)]
  {
    hide Observed;
  }

  datatype Sighting = Sighting(wgIP: string, endpoint: string)

  /** What a poll leaves for one key: a peer of the device is known already, or found in etcd, or skipped. */
  function PolledEntry(cache: CacheView, store: Store, seen: map<string, Sighting>, failed: set<string>,
                       k: string): Option<Entry> {
    if k !in seen then Lookup(cache, k)
    else if k in cache then Some(Observed(cache[k], k, seen[k].wgIP, seen[k].endpoint))
    else if k !in failed && HasFields(store, k) then
      Some(Observed(StoredEntry(store, k, seen[k].wgIP), k, seen[k].wgIP, seen[k].endpoint))
    else None
  }

  function Polled(cache: CacheView, store: Store, seen: map<string, Sighting>, failed: set<string>): CacheView {
    map k | k in cache.Keys + seen.Keys && PolledEntry(cache, store, seen, failed, k).Some? ::
      PolledEntry(cache, store, seen, failed, k).value
  }

  lemma PolledLookup(cache: CacheView, store: Store, seen: map<string, Sighting>, failed: set<string>, k: string)
    ensures Lookup(Polled(cache, store, seen, failed), k) == PolledEntry(cache, store, seen, failed, k)
  {
    hide HasFields, StoredEntry, Observed;
  }

  /** What a poll may leave for one key, over any store. */
  ghost predicate MayLeave(cache: CacheView, store: Store, seen: map<string, Sighting>, failed: set<string>,
                           k: string, r: Option<Entry>) {
    if k !in seen then r == Lookup(cache, k)
    else if k in cache then r == Some(Observed(cache[k], k, seen[k].wgIP, seen[k].endpoint))
    else exists e ::
      LoadsUnless(store, failed, k, seen[k].wgIP, e) && r == ObservedIf(e, k, seen[k].wgIP, seen[k].endpoint)
  }

  ghost predicate PolledAs(cache: CacheView, store: Store, seen: map<string, Sighting>, failed: set<string>,
                           after: CacheView) {
    forall k :: MayLeave(cache, store, seen, failed, k, Lookup(after, k))
  }

  /** In a store of peers a poll has one outcome. */
  lemma PolledExactly(cache: CacheView, store: Store, seen: map<string, Sighting>, failed: set<string>,
                      after: CacheView)
    requires HoldsPeers(store) && (forall k :: k in seen ==> IsPubkey(k)) && PolledAs(cache, store, seen, failed, after)
    ensures after == Polled(cache, store, seen, failed)
  {
    hide HoldsPeers, IsPubkey, HasFields, StoredEntry, Observed, Polled, Loads;
    forall k ensures Lookup(after, k) == Lookup(Polled(cache, store, seen, failed), k) {
      PolledLookup(cache, store, seen, failed, k);
      assert MayLeave(cache, store, seen, failed, k, Lookup(after, k));
      if k in seen && k !in cache {
        var e :| LoadsUnless(store, failed, k, seen[k].wgIP, e)
          && Lookup(after, k) == ObservedIf(e, k, seen[k].wgIP, seen[k].endpoint);
        if k !in failed { LoadsStored(store, k, seen[k].wgIP, e); }
      }
    }
    SameLookups(after, Polled(cache, store, seen, failed));
  }

  lemma PolledStep(cache: CacheView, store: Store, seen: map<string, Sighting>, failed: set<string>, now: CacheView,
                   k: string, s: Sighting, e: Option<Entry>)
    requires PolledAs(cache, store, seen, failed, now) && k !in seen
    requires k !in now ==> LoadsUnless(store, failed, k, s.wgIP, e)
    ensures PolledAs(cache, store, seen[k := s], failed, Processed(now, k, s.wgIP, s.endpoint, e))
  {
    hide LoadsUnless, Observed;
    var after := Processed(now, k, s.wgIP, s.endpoint, e);
    assert MayLeave(cache, store, seen, failed, k, Lookup(now, k));
    forall l ensures MayLeave(cache, store, seen[k := s], failed, l, Lookup(after, l)) {
      assert MayLeave(cache, store, seen, failed, l, Lookup(now, l));
      if l == k && k !in cache {
        assert Lookup(after, k) == ObservedIf(e, k, s.wgIP, s.endpoint);
      }
    }
  }

  /** What a poll leaves of a sighted peer in a store of peers, field by field. */
  lemma PolledFields(cache: CacheView, store: Store, seen: map<string, Sighting>, failed: set<string>, k: string)
    requires k in seen && (k in cache || (k !in failed && HasFields(store, k)))
    ensures var after := Polled(cache, store, seen, failed);
            var lan := if k in cache then cache[k].lanEndpoint else TextOr(Lookup(store, PeerKey(k, Lan)));
            var known := if k in cache then cache[k].natEndpoint else TextOr(Lookup(store, PeerKey(k, Nated)));
            var wgIP := if k in cache then cache[k].wgIP else TextOr(Lookup(store, PeerKey(k, WgIp)));
            && k in after && after[k].pubKey == k && after[k].dirty && after[k].lanEndpoint == lan
            && after[k].natEndpoint == (if seen[k].endpoint != "" then seen[k].endpoint else known)
            && after[k].wgIP == (if seen[k].wgIP != "" then seen[k].wgIP else wgIP)
  {
    hide PeerKey, HasFields, Polled;
    PolledLookup(cache, store, seen, failed, k);
  }

  lemma PolledNone(cache: CacheView, store: Store, failed: set<string>)
    ensures PolledAs(cache, store, map[], failed, cache)
  {
  }

  function PeerName(peer: WgPeer): string {
    Encode64(peer.publicKey)
  }

  function SightingsOf(peers: seq<WgPeer>): map<string, Sighting> {
    if peers == [] then map[]
    else
      var last := peers[|peers| - 1];
      SightingsOf(peers[..|peers| - 1])[PeerName(last) := Sighting(OverlayIP(last.allowedIPs), last.endpoint)]
  }

  lemma {:induction false} SightingsKeys(peers: seq<WgPeer>, name: string)
    requires name in SightingsOf(peers)
    ensures exists i :: 0 <= i < |peers| && PeerName(peers[i]) == name
  {
    hide PeerName;
    var n := |peers| - 1;
    if PeerName(peers[n]) != name {
      SightingsKeys(peers[..n], name);
      var i :| 0 <= i < n && PeerName(peers[..n][i]) == name;
      assert peers[i] == peers[..n][i];
    }
  }

  /** The entry after a sighting: what the device reported, as far as it did, and else what was known. */
  predicate Shows(before: Entry, after: Entry, peer: WgPeer) {
    var wgIP := OverlayIP(peer.allowedIPs);
    && after.pubKey == PeerName(peer) && after.dirty && after.lanEndpoint == before.lanEndpoint
    && after.natEndpoint == (if peer.endpoint != "" then peer.endpoint else before.natEndpoint)
    && after.wgIP == (if wgIP != "" then wgIP else before.wgIP)
  }

  class Monitor {
    const cache: PeerCache
    const etcd: EtcdServer

    constructor (cache: PeerCache, etcd: EtcdServer)
      ensures this.cache == cache && this.etcd == etcd
    {
      this.cache, this.etcd := cache, etcd;
    }

    /** Over any store; what is built is stored in a fresh object. */
    method LoadPeerFromEtcd(pubkey: string, wgIP: string, etcdOk: bool) returns (found: bool, ghost e: Option<Entry>)
      requires cache.Valid()
      modifies cache
      ensures cache.Valid() && LoadsIf(etcd.kvs, etcdOk, pubkey, wgIP, e) && found == e.Some?
      ensures found ==> pubkey in cache.peers
      ensures cache.View() == if found then old(cache.View())[pubkey := e.value] else old(cache.View())
      ensures forall k :: k in cache.peers ==>
              (k in old(cache.peers) && cache.peers[k] == old(cache.peers[k])) || fresh(cache.peers[k])
    {
      hide Enumerates, SuffixStep, PeerKey;
      e := None;
      if !etcdOk {
        return false, e;
      }
      var kvs := etcd.GetPrefix(PEERS + pubkey + "/");
      if |kvs| == 0 {
        return false, e;
      }
      var start := Blank(pubkey).(wgIP := wgIP);
      var peer := new PeerInfo(start);
      for i := 0 to |kvs|
        invariant peer.View() == SuffixFold(start, kvs[..i])
        invariant cache.peers == old(cache.peers) && cache.View() == old(cache.View()) && cache.Valid()
      {
        assert kvs[..i + 1][..i] == kvs[..i];
        peer.Assign(SuffixStep(peer.View(), kvs[i]));
      }
      assert kvs[..|kvs|] == kvs;
      e := Some(SuffixFold(start, kvs));
      cache.Set(pubkey, peer);
      return true, e;
    }

    /** The update of a known peer. */
    method Observe(pubkey: string, wgIP: string, endpoint: string)
      requires cache.Valid() && pubkey in cache.peers
      modifies cache.peers.Values
      ensures cache.Valid()
      ensures cache.View() == old(cache.View())[pubkey := Observed(old(cache.View())[pubkey], pubkey, wgIP, endpoint)]
    {
      hide Observed;
      ghost var e := cache.View()[pubkey];
      cache.Update(pubkey, (p: Entry) => Observed(p, pubkey, wgIP, endpoint));
      ObservedIsDirty(e, pubkey, wgIP, endpoint);
    }

    method ProcessPeer(peer: WgPeer, etcdOk: bool) returns (ghost e: Option<Entry>)
      requires cache.Valid()
      modifies cache, cache.peers.Values
      ensures cache.Valid()
      ensures PeerName(peer) !in old(cache.View()) ==>
        LoadsIf(etcd.kvs, etcdOk, PeerName(peer), OverlayIP(peer.allowedIPs), e)
      ensures cache.View() == Processed(old(cache.View()), PeerName(peer), OverlayIP(peer.allowedIPs), peer.endpoint, e)
      ensures forall k :: k in cache.peers ==>
              (k in old(cache.peers) && cache.peers[k] == old(cache.peers[k])) || fresh(cache.peers[k])
    {
      hide LoadsIf, Encode64, Observed, OverlayIP, Processed;
      var pubkey := Encode64(peer.publicKey);
      var wgIP := ExtractWgIP(peer.allowedIPs);
      var existing := cache.Get(pubkey);
      ghost var view := cache.View();
      e := None;
      if existing == null {
        assert pubkey !in view;
        var found;
        found, e := LoadPeerFromEtcd(pubkey, wgIP, etcdOk);
        if !found {
          ProcessedSkipped(view, pubkey, wgIP, peer.endpoint);
          return;
        }
      }
      Observe(pubkey, wgIP, peer.endpoint);
      ProcessedKnown(view, pubkey, wgIP, peer.endpoint, e);
    }

    /** Each key is what it was, observed, read from etcd and observed, or absent; in a store of peers, `Polled`. */
    method PollWireGuard(peers: seq<WgPeer>, failed: set<string>)
      requires cache.Valid()
      requires forall i :: 0 <= i < |peers| ==> |peers[i].publicKey| == 32
      requires forall i, j :: 0 <= i < j < |peers| ==> peers[i].publicKey != peers[j].publicKey
      modifies cache, cache.peers.Values
      ensures cache.Valid()
      ensures forall i :: 0 <= i < |peers| && PeerName(peers[i]) in old(cache.View()) ==>
        PeerName(peers[i]) in cache.View()
        && Shows(old(cache.View())[PeerName(peers[i])], cache.View()[PeerName(peers[i])], peers[i])
      ensures forall k :: (forall i :: 0 <= i < |peers| ==> PeerName(peers[i]) != k) ==>
        Lookup(cache.View(), k) == Lookup(old(cache.View()), k)
      ensures PolledAs(old(cache.View()), etcd.kvs, SightingsOf(peers), failed, cache.View())
      ensures HoldsPeers(etcd.kvs) ==> cache.View() == Polled(old(cache.View()), etcd.kvs, SightingsOf(peers), failed)
    {
      hide HoldsPeers, Polled, PolledAs, Processed, SightingsOf, OverlayIP, IsPubkey, LoadsIf, PeerName;
      ghost var view := cache.View();
      SightingsSteps(peers, 0);
      PolledNone(view, etcd.kvs, failed);
      for i := 0 to |peers|
        invariant cache.Valid()
        invariant forall k :: k in cache.peers ==>
          (k in old(cache.peers) && cache.peers[k] == old(cache.peers[k])) || fresh(cache.peers[k])
        invariant PolledAs(view, etcd.kvs, SightingsOf(peers[..i]), failed, cache.View())
      {
        SightingsSteps(peers, i);
        NotSeenYet(peers, i);
        ghost var now := cache.View();
        ghost var e := ProcessPeer(peers[i], PeerName(peers[i]) !in failed);
        PolledStep(view, etcd.kvs, SightingsOf(peers[..i]), failed, now, PeerName(peers[i]),
                   Sighting(OverlayIP(peers[i].allowedIPs), peers[i].endpoint), e);
      }
      assert peers[..|peers|] == peers;
      PolledPointwise(view, etcd.kvs, peers, failed, cache.View());
      if HoldsPeers(etcd.kvs) {
        SightedArePubkeys(peers);
        PolledExactly(view, etcd.kvs, SightingsOf(peers), failed, cache.View());
      }
    }
  }

  lemma {:induction false} SightingAt(peers: seq<WgPeer>, i: nat)
    requires i < |peers|
    requires forall i, j :: 0 <= i < j < |peers| ==> peers[i].publicKey != peers[j].publicKey
    ensures PeerName(peers[i]) in SightingsOf(peers)
    ensures SightingsOf(peers)[PeerName(peers[i])] == Sighting(OverlayIP(peers[i].allowedIPs), peers[i].endpoint)
  {
    hide PeerName, OverlayIP;
    var n := |peers| - 1;
    if i < n {
      SightingAt(peers[..n], i);
      assert peers[..n][i] == peers[i];
      NotSeenYet(peers, n);
    }
  }

  /** What a poll leaves, field by field. */
  lemma PolledPointwise(cache: CacheView, store: Store, peers: seq<WgPeer>, failed: set<string>, after: CacheView)
    requires forall i, j :: 0 <= i < j < |peers| ==> peers[i].publicKey != peers[j].publicKey
    requires PolledAs(cache, store, SightingsOf(peers), failed, after)
    ensures forall i :: 0 <= i < |peers| && PeerName(peers[i]) in cache ==>
      PeerName(peers[i]) in after && Shows(cache[PeerName(peers[i])], after[PeerName(peers[i])], peers[i])
    ensures forall k :: (forall i :: 0 <= i < |peers| ==> PeerName(peers[i]) != k) ==>
      Lookup(after, k) == Lookup(cache, k)
  {
    hide SightingsOf, OverlayIP, PeerName, LoadsUnless;
    forall i | 0 <= i < |peers| && PeerName(peers[i]) in cache
      ensures Lookup(after, PeerName(peers[i]))
              == Some(Observed(cache[PeerName(peers[i])], PeerName(peers[i]), OverlayIP(peers[i].allowedIPs),
                               peers[i].endpoint))
    {
      SightingAt(peers, i);
      assert MayLeave(cache, store, SightingsOf(peers), failed, PeerName(peers[i]), Lookup(after, PeerName(peers[i])));
    }
    forall k | forall i :: 0 <= i < |peers| ==> PeerName(peers[i]) != k
      ensures Lookup(after, k) == Lookup(cache, k)
    {
      if k in SightingsOf(peers) { SightingsKeys(peers, k); }
      assert MayLeave(cache, store, SightingsOf(peers), failed, k, Lookup(after, k));
    }
  }

  lemma SightedArePubkeys(peers: seq<WgPeer>)
    requires forall i :: 0 <= i < |peers| ==> |peers[i].publicKey| == 32
    ensures forall k :: k in SightingsOf(peers) ==> IsPubkey(k)
  {
    hide IsPubkey, Encode64, SightingsOf;
    forall k | k in SightingsOf(peers) ensures IsPubkey(k) {
      SightingsKeys(peers, k);
      var i :| 0 <= i < |peers| && PeerName(peers[i]) == k;
      Encode64IsPubkey(peers[i].publicKey);
    }
  }

  lemma ProcessedSkipped(cache: CacheView, k: string, wgIP: string, endpoint: string)
    requires k !in cache
    ensures Processed(cache, k, wgIP, endpoint, None) == cache
  {
  }

  lemma ObservedIsDirty(e: Entry, k: string, wgIP: string, endpoint: string)
    ensures Observed(e, k, wgIP, endpoint).(dirty := true) == Observed(e, k, wgIP, endpoint)
  {
  }

  lemma SightingsSteps(peers: seq<WgPeer>, i: nat)
    requires i <= |peers|
    ensures i == 0 ==> SightingsOf(peers[..i]) == map[]
    ensures i < |peers| ==>
      SightingsOf(peers[..i + 1])
      == SightingsOf(peers[..i])[PeerName(peers[i]) := Sighting(OverlayIP(peers[i].allowedIPs), peers[i].endpoint)]
  {
    if i < |peers| {
      assert peers[..i + 1][..i] == peers[..i];
    }
  }

  lemma NotSeenYet(peers: seq<WgPeer>, i: nat)
    requires i < |peers|
    requires forall i, j :: 0 <= i < j < |peers| ==> peers[i].publicKey != peers[j].publicKey
    ensures PeerName(peers[i]) !in SightingsOf(peers[..i])
  {
    if PeerName(peers[i]) in SightingsOf(peers[..i]) {
      SightingsKeys(peers[..i], PeerName(peers[i]));
      var j :| 0 <= j < i && PeerName(peers[..i][j]) == PeerName(peers[i]);
      Encode64Injective(peers[j].publicKey, peers[i].publicKey);
    }
  }
}
