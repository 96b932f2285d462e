/** valonctl's view of the registry (valonctl/pkg/client/etcd.go). */
module EtcdClient {
  import opened Options
  import opened Text
  import opened Labels
  import opened PeerKeys
  import opened Etcd
  import Allocator

  // ---- AddPeer

  datatype AddError =
    | MissingField
    | TransactionFailed
    | AliasExists
    | NoFreeAddress
    | InvalidAlias
    | InvalidKey
    | InvalidAddress
    | DeviceFailed

  /** The three writes of the transaction. */
  function AddedPeer(store: Store, k: string, ip: string, alias: string): Store {
    store[CtlPeerKey(k, WgIp) := ip][CtlPeerKey(k, Alias) := alias][CtlAliasKey(alias) := k]
  }

  // ---- Used addresses

  predicate IsAddressKey(key: string) {
    HasPrefix(key, "/valon/peers") && HasSuffix(key, "/wg_ip")
  }

  function UsedIPs(store: Store): set<string> {
    set key | key in store && IsAddressKey(key) :: store[key]
  }

  /** Every stored overlay address counts as used. */
  lemma StoredIsUsed(store: Store, k: string)
    requires PeerKey(k, WgIp) in store
    ensures store[PeerKey(k, WgIp)] in UsedIPs(store)
  {
    var key := PeerKey(k, WgIp);
    assert key == "/valon/peers" + ("/" + k + "/wg_ip");
    PrefixConcat("/valon/peers", "/" + k + "/wg_ip");
    assert key == (PEERS + k) + "/wg_ip";
    SuffixConcat(PEERS + k, "/wg_ip");
  }

  // ---- ListPeers

  datatype ListedPeer = ListedPeer(pubkey: string, ip: string, alias: string, endpoint: string,
                                   lanEndpoint: string, natEndpoint: string)

  type Listing = map<string, ListedPeer>

  function ListedOr(m: Listing, k: string): ListedPeer {
    if k in m then m[k] else ListedPeer(k, "", "", "", "", "")
  }

  /** One field of the listing; "ip", "endpoint" and "last_seen" are read for old registries only. */
  function ListField(p: ListedPeer, fieldPath: string, value: string): ListedPeer {
    var parts := Split(fieldPath, '/');
    if parts[0] == "wg_ip" || parts[0] == "ip" then p.(ip := value)
    else if parts[0] == "alias" then p.(alias := value)
    else if parts[0] == "endpoint" then p.(endpoint := value)
    else if parts[0] == "endpoints" then
      var q := if |parts| >= 2 && parts[1] == "lan" then p.(lanEndpoint := value)
               else if |parts| >= 2 && parts[1] == "nated" then p.(natEndpoint := value) else p;
      if q.endpoint == "" then q.(endpoint := value) else q
    else p
  }

  function ListStep(m: Listing, kv: KV): Listing {
    match ListParse(TrimPrefix(kv.key, PEERS))
    case None => m
    case Some(p) => m[p.pubkey := ListField(ListedOr(m, p.pubkey), p.fieldPath, kv.value)]
  }

  function ListAll(kvs: seq<KV>): Listing {
    if kvs == [] then map[] else ListStep(ListAll(kvs[..|kvs| - 1]), kvs[|kvs| - 1])
  }

  /** The slice that ListPeers returns: the map's values in some order. */
  ghost predicate Lists(peers: seq<ListedPeer>, m: Listing) {
    && (forall i :: 0 <= i < |peers| ==> peers[i].pubkey in m && m[peers[i].pubkey] == peers[i])
    && (forall k :: k in m ==> m[k].pubkey == k && m[k] in peers)
  }

  ghost predicate ListedPubkeys(m: Listing) {
    forall k :: k in m ==> m[k].pubkey == k
  }

  lemma {:induction false} ListAllPubkeys(kvs: seq<KV>)
    ensures ListedPubkeys(ListAll(kvs))
  {
    hide ListParse;
    if kvs != [] {
      ListAllPubkeys(kvs[..|kvs| - 1]);
    }
  }

  // ---- Resolving the argument of a remove

  predicate LooksLikePubkey(arg: string) {
    '+' in arg || '/' in arg || HasSuffix(arg, "=")
  }

  /** A WireGuard key ends in '=', so RemovePeer never takes it for an alias. */
  lemma PubkeyLooksLikeOne(k: string)
    requires IsPubkey(k)
    ensures LooksLikePubkey(k)
  {
    PubkeyShape(k);
    assert k[43..44] == "=";
  }

  lemma EqualsAtEnd(arg: string)
    ensures HasSuffix(arg, "=") <==> arg != "" && arg[|arg| - 1] == '='
  {
    if HasSuffix(arg, "=") { OccurrenceChars(arg, "=", |arg| - 1, |arg| - 1); }
    if arg != "" && arg[|arg| - 1] == '=' { assert arg[|arg| - 1..|arg| - 1 + 1] == "="; }
  }

  datatype Target = Target(pubkey: string, alias: string)

  /** RemovePeer's own reading of its argument. */
  function Classify(store: Store, arg: string): Option<Target> {
    if LooksLikePubkey(arg) then
      (match Lookup(store, CtlPeerKey(arg, Alias))
       case None => None
       case Some(alias) => Some(Target(arg, alias)))
    else
      match Lookup(store, CtlAliasKey(arg))
      case None => None
      case Some(k) => Some(Target(k, arg))
  }

  class Client {
    const etcd: EtcdServer

    constructor (etcd: EtcdServer)
      ensures this.etcd == etcd
    {
      this.etcd := etcd;
    }

    /** One transaction guarded by the alias being free; `committed` says whether etcd could be reached. */
    method AddPeer(k: string, ip: string, alias: string, committed: bool) returns (r: Result<(), AddError>)
      modifies etcd
      ensures etcd.kvs == if r.Ok? then AddedPeer(old(etcd.kvs), k, ip, alias) else old(etcd.kvs)
      ensures r.Ok? <==> k != "" && ip != "" && alias != "" && committed && CtlAliasKey(alias) !in old(etcd.kvs)
      ensures r.Err? && r.error != MissingField ==> r.error == if committed then AliasExists else TransactionFailed
      ensures r.Err? ==> (r.error == MissingField <==> k == "" || ip == "" || alias == "")
    {
      if k == "" || ip == "" || alias == "" {
        return Err(MissingField);
      }
      if !committed {
        return Err(TransactionFailed);
      }
      if CtlAliasKey(alias) in etcd.kvs {
        return Err(AliasExists);
      }
      etcd.kvs := AddedPeer(etcd.kvs, k, ip, alias);
      return Ok(());
    }

    method GetAllUsedIPs() returns (used: set<string>)
      ensures used == UsedIPs(etcd.kvs)
      ensures forall ip :: ip in used <==>
        exists key ::
          key in etcd.kvs && HasPrefix(key, "/valon/peers") && HasSuffix(key, "/wg_ip") && etcd.kvs[key] == ip
    {
      hide HasPrefix, HasSuffix;
      var kvs := etcd.GetPrefix("/valon/peers");
      used := {};
      for i := 0 to |kvs|
        invariant forall ip ::
          ip in used <==> exists j :: 0 <= j < i && HasSuffix(kvs[j].key, "/wg_ip") && kvs[j].value == ip
      {
        if HasSuffix(kvs[i].key, "/wg_ip") {
          used := used + {kvs[i].value};
        }
      }
      forall ip ensures ip in used <==> ip in UsedIPs(etcd.kvs) {
        if ip in UsedIPs(etcd.kvs) {
          var key :| key in etcd.kvs && IsAddressKey(key) && etcd.kvs[key] == ip;
          var j :| 0 <= j < |kvs| && kvs[j].key == key;
        }
      }
    }

    /** The smallest host address whose text is not stored. */
    method AllocateIP(ip: Allocator.IP, ones: nat) returns (r: Option<string>)
      requires |ip| == 4 && 1 <= ones <= 32
      ensures r.Some? ==> Allocator.IsSmallestFree(ip, ones, UsedIPs(etcd.kvs), r.value)
      ensures r.None? ==> Allocator.AllHostsUsed(ip, ones, UsedIPs(etcd.kvs))
    {
      var used := GetAllUsedIPs();
      r := Allocator.AllocateIP(ip, ones, used);
    }

    method ListPeers() returns (peers: seq<ListedPeer>)
      ensures exists kvs :: Enumerates(kvs, etcd.kvs, PEERS) && Lists(peers, ListAll(kvs))
    {
      hide ListStep, ListAll, Enumerates;
      var found := etcd.GetPrefix(PEERS);
      ghost var kvs := found;
      var peerMap: Listing := map[];
      ListAllSteps(kvs, 0);
      for i := 0 to |found|
        invariant peerMap == ListAll(kvs[..i])
      {
        ListAllSteps(kvs, i);
        peerMap := ListStep(peerMap, found[i]);
      }
      assert kvs[..|kvs|] == kvs;
      ListAllPubkeys(kvs);
      peers := [];
      var left := peerMap.Keys;
      while left != {}
        invariant left <= peerMap.Keys
        invariant forall i :: 0 <= i < |peers| ==> peers[i].pubkey in peerMap && peerMap[peers[i].pubkey] == peers[i]
        invariant forall k :: k in peerMap && k !in left ==> peerMap[k] in peers
        decreases left
      {
        var k :| k in left;
        peers := peers + [peerMap[k]];
        left := left - {k};
      }
    }

    /** RemovePeer's read: which peer and which alias a remove is about. */
    method Resolve(arg: string) returns (target: Option<Target>)
      ensures target == Classify(etcd.kvs, arg)
      ensures '+' in arg || '/' in arg || (arg != "" && arg[|arg| - 1] == '=') ==>
        if CtlPeerKey(arg, Alias) in etcd.kvs then target == Some(Target(arg, etcd.kvs[CtlPeerKey(arg, Alias)]))
        else target == None
      ensures !('+' in arg || '/' in arg || (arg != "" && arg[|arg| - 1] == '=')) ==>
        if CtlAliasKey(arg) in etcd.kvs then target == Some(Target(etcd.kvs[CtlAliasKey(arg)], arg)) else target == None
    {
      hide CtlPeerKey, CtlAliasKey;
      EqualsAtEnd(arg);
      if LooksLikePubkey(arg) {
        var alias := etcd.Get(CtlPeerKey(arg, Alias));
        return if alias.None? then None else Some(Target(arg, alias.value));
      }
      var k := etcd.Get(CtlAliasKey(arg));
      return if k.None? then None else Some(Target(k.value, arg));
    }

    method DeletePeerKeys(k: string)
      modifies etcd
      ensures etcd.kvs == WithoutPrefix(old(etcd.kvs), CtlPeerPrefix(k))
    {
      etcd.DeletePrefix(CtlPeerPrefix(k));
    }

    method DeleteAliasKey(alias: string)
      modifies etcd
      ensures etcd.kvs == old(etcd.kvs) - {CtlAliasKey(alias)}
    {
      etcd.Delete(CtlAliasKey(alias));
    }
  }

  lemma ListAllSteps(kvs: seq<KV>, i: nat)
    requires i <= |kvs|
    ensures i == 0 ==> ListAll(kvs[..i]) == map[]
    ensures i < |kvs| ==> ListAll(kvs[..i + 1]) == ListStep(ListAll(kvs[..i]), kvs[i])
  {
    if i < |kvs| {
      assert kvs[..i + 1][..i] == kvs[..i];
    }
  }
}
