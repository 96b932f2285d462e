/** The add and remove commands of valonctl (valonctl/cmd/peer_add.go, valonctl/cmd/peer_remove.go). */
module PeerCommands {
  import opened Options
  import opened Text
  import opened Rfc4648
  import opened Labels
  import opened Addresses
  import opened PeerKeys
  import opened Aliases
  import opened Cache
  import opened Etcd
  import opened EtcdClient
  import opened Startup
  import opened Ddns
  import Allocator

  // ---- The target of a remove

  /** The command's own scan: the first listed peer with this key or this alias. */
  function ScanTarget(peers: seq<ListedPeer>, arg: string): Option<ListedPeer> {
    if peers == [] then None
    else if peers[0].pubkey == arg || peers[0].alias == arg then Some(peers[0])
    else ScanTarget(peers[1..], arg)
  }

  predicate Matches(p: ListedPeer, arg: string) {
    p.pubkey == arg || p.alias == arg
  }

  ghost predicate IsFirstMatch(peers: seq<ListedPeer>, arg: string, p: ListedPeer) {
    exists i :: 0 <= i < |peers| && peers[i] == p && Matches(p, arg)
                && forall j :: 0 <= j < i ==> !Matches(peers[j], arg)
  }

  method FindTarget(peers: seq<ListedPeer>, arg: string) returns (target: Option<ListedPeer>)
    ensures target == ScanTarget(peers, arg)
    ensures target.Some? ==> IsFirstMatch(peers, arg, target.value)
    ensures target.None? ==> forall i :: 0 <= i < |peers| ==> !Matches(peers[i], arg)
  {
    assert peers[0..] == peers;
    for i := 0 to |peers|
      invariant forall j :: 0 <= j < i ==> !Matches(peers[j], arg)
      invariant ScanTarget(peers, arg) == ScanTarget(peers[i..], arg)
    {
      if peers[i].pubkey == arg || peers[i].alias == arg {
        return Some(peers[i]);
      }
      assert peers[i..][1..] == peers[i + 1..];
    }
    return None;
  }

  lemma OneFirstMatch(peers: seq<ListedPeer>, arg: string)
    ensures forall p, q :: IsFirstMatch(peers, arg, p) && IsFirstMatch(peers, arg, q) ==> p == q
  {
  }

  // ---- The commands

  class Valonctl {
    const client: Client
    const device: WgDevice
    const ddns: DdnsServer

    constructor (client: Client, device: WgDevice, ddns: DdnsServer)
      ensures this.client == client && this.device == device && this.ddns == ddns
    {
      this.client, this.device, this.ddns := client, device, ddns;
    }

    /** The configured network, the flags and the outcomes that the environment decides. */
    method RunPeerAdd(k: string, wgIP: string, alias: string, net: Allocator.IP, ones: nat,
                      deviceOk: bool, committed: bool, rollbackOk: bool)
      returns (ip: string, r: Result<(), AddError>)
      requires |net| == 4 && 1 <= ones <= 32
      modifies device, client.etcd
      ensures r.Ok? ==>
        && Accepted(alias) && IsDeviceKey(k) && ParseIPv4(ip).Some? && CtlAliasKey(alias) !in old(client.etcd.kvs)
        && (if wgIP != "" then ip == wgIP
            else Allocator.IsSmallestFree(net, ones, UsedIPs(old(client.etcd.kvs)), ip))
        && device.peers == old(device.peers)[DeviceName(k) := ip]
        && client.etcd.kvs == AddedPeer(old(client.etcd.kvs), k, ip, alias)
      ensures r.Err? ==> client.etcd.kvs == old(client.etcd.kvs)
      ensures r.Err? && !FailedInEtcd(r.error) ==> device.peers == old(device.peers)
      ensures r.Err? && FailedInEtcd(r.error) ==>
        IsDeviceKey(k) && device.peers == (if rollbackOk then old(device.peers) - {DeviceName(k)}
                                           else old(device.peers)[DeviceName(k) := ip])
      ensures r == Err(InvalidAlias) <==> !Accepted(alias)
      ensures r == Err(NoFreeAddress) <==>
        Accepted(alias) && wgIP == "" && Allocator.AllHostsUsed(net, ones, UsedIPs(old(client.etcd.kvs)))
      ensures Accepted(alias) && (wgIP == "" ==> !Allocator.AllHostsUsed(net, ones, UsedIPs(old(client.etcd.kvs)))) ==>
        && (r == Err(InvalidKey) <==> !IsDeviceKey(k))
        && (r == Err(InvalidAddress) <==> IsDeviceKey(k) && wgIP != "" && ParseIPv4(wgIP).None?)
        && (IsDeviceKey(k) && (wgIP == "" || ParseIPv4(wgIP).Some?) ==>
              && (r == Err(DeviceFailed) <==> !deviceOk)
              && (r == Err(TransactionFailed) <==> deviceOk && !committed)
              && (r == Err(AliasExists) <==> deviceOk && committed && CtlAliasKey(alias) in old(client.etcd.kvs))
              && (r.Ok? <==> deviceOk && committed && CtlAliasKey(alias) !in old(client.etcd.kvs)))
    {
      hide Accepted, ParseIPv4, IsDeviceKey, DeviceName, CtlAliasKey, AddedPeer, UsedIPs, Allocator.IsSmallestFree,
        Allocator.AllHostsUsed;
      ip := wgIP;
      if !Accepted(alias) {
        return ip, Err(InvalidAlias);
      }
      if ip == "" {
        var lowest := client.AllocateIP(net, ones);
        if lowest.None? {
          return ip, Err(NoFreeAddress);
        }
        ip := lowest.value;
        Allocator.SmallestFreeExists(net, ones, UsedIPs(client.etcd.kvs), ip);
      }
      if !IsDeviceKey(k) {
        return ip, Err(InvalidKey);
      }
      if ParseIPv4(ip).None? {
        return ip, Err(InvalidAddress);
      }
      if !deviceOk {
        return ip, Err(DeviceFailed);
      }
      device.Configure(DeviceName(k), ip, true);
      AddedArguments(k, ip, alias);
      r := client.AddPeer(k, ip, alias, committed);
      if r.Err? {
        device.Remove(DeviceName(k), rollbackOk);
        assert old(device.peers)[DeviceName(k) := ip] - {DeviceName(k)} == old(device.peers) - {DeviceName(k)};
      }
    }

    /** Cache, peer keys and alias key of the peer that the argument names. A failed cache step is only a warning. */
    method RemovePeer(arg: string, ddnsOk: bool, keysOk: bool, aliasOk: bool) returns (target: Option<Target>)
      requires ddns.cache.Valid() && ddns.etcd == client.etcd
      modifies client.etcd, ddns.cache
      ensures ddns.cache.Valid() && target == Classify(old(client.etcd.kvs), arg)
      ensures ddns.cache.View() == RemovedFromCache(old(ddns.cache.View()), target, ddnsOk)
      ensures client.etcd.kvs == RemovedFromStore(old(client.etcd.kvs), target, ddnsOk, keysOk, aliasOk)
    {
      hide AliasKey, CtlAliasKey, CtlPeerKey, Classify, Deleted;
      target := client.Resolve(arg);
      if target.None? {
        return;
      }
      DropFromCache(target.value.pubkey, ddnsOk);
      DropFromEtcd(target.value, keysOk, aliasOk);
    }

    /** The call of the plugin's delete request, made from the discovery node. */
    method DropFromCache(k: string, ok: bool)
      requires ddns.cache.Valid() && ddns.etcd == client.etcd
      modifies client.etcd, ddns.cache
      ensures ddns.cache.Valid()
      ensures ddns.cache.View() == if ok && k != "" then old(ddns.cache.View()) - {k} else old(ddns.cache.View())
      ensures client.etcd.kvs == if ok && k != "" then old(client.etcd.kvs) - {AliasKey(k)} else old(client.etcd.kvs)
    {
      hide AliasKey;
      if ok {
        var status := ddns.HandleEndpointDelete(ddns.selfWgIP, k, true);
      }
    }

    method DropFromEtcd(t: Target, keysOk: bool, aliasOk: bool)
      modifies client.etcd
      ensures client.etcd.kvs == Deleted(old(client.etcd.kvs), t, keysOk, aliasOk)
    {
      hide CtlAliasKey, CtlPeerPrefix, WithoutPrefix;
      if keysOk {
        client.DeletePeerKeys(t.pubkey);
        if aliasOk {
          client.DeleteAliasKey(t.alias);
        }
      }
    }

    /**
      A remove finds its peer twice: in the listing, whose key leaves the device, and in RemovePeer's
      own reading, whose key leaves the cache and etcd. A failed device step is only a warning.
     */
    method RunPeerRemove(arg: string, deviceOk: bool, ddnsOk: bool, keysOk: bool, aliasOk: bool)
      returns (found: Option<string>, target: Option<Target>, ghost peers: seq<ListedPeer>, ghost kvs: seq<KV>)
      requires ddns.cache.Valid() && ddns.etcd == client.etcd
      modifies device, client.etcd, ddns.cache
      ensures ddns.cache.Valid()
      ensures Enumerates(kvs, old(client.etcd.kvs), PEERS) && Lists(peers, ListAll(kvs))
      ensures found == ScannedKey(peers, arg)
      ensures target == if found.Some? then Classify(old(client.etcd.kvs), arg) else None
      ensures device.peers == RemovedFromDevice(old(device.peers), found, deviceOk)
      ensures found.Some? ==> found.value != "" && exists p :: IsFirstMatch(peers, arg, p) && p.pubkey == found.value
      ensures found.None? ==> forall p :: IsFirstMatch(peers, arg, p) ==> p.pubkey == ""
      ensures forall l :: IsPubkey(l) ==>
        (l in device.peers <==>
         l in old(device.peers) && !(deviceOk && found.Some? && Decode64(found.value) == Decode64(l)))
      ensures found.None? ==> device.peers == old(device.peers)
      ensures target.None? ==> ddns.cache.View() == old(ddns.cache.View()) && client.etcd.kvs == old(client.etcd.kvs)
      ensures ddns.cache.View() == RemovedFromCache(old(ddns.cache.View()), target, ddnsOk)
      ensures client.etcd.kvs == RemovedFromStore(old(client.etcd.kvs), target, ddnsOk, keysOk, aliasOk)
    {
      hide IsPubkey, Decode64, IsDeviceKey, DeviceName, Classify, Enumerates, ScanTarget, ListAll, Lists,
        RemovedFromCache, RemovedFromStore;
      NothingRemoved(ddns.cache.View(), client.etcd.kvs, ddnsOk, keysOk, aliasOk);
      target := None;
      ghost var before := device.peers;
      var listed;
      listed := client.ListPeers();
      kvs :| Enumerates(kvs, client.etcd.kvs, PEERS) && Lists(listed, ListAll(kvs));
      peers := listed;
      var first := FindTarget(listed, arg);
      OneFirstMatch(listed, arg);
      found := if first.None? || first.value.pubkey == "" then None else Some(first.value.pubkey);
      RemovedByName(before, found, deviceOk);
      if found.None? {
        return;
      }
      if IsDeviceKey(found.value) {
        device.Remove(DeviceName(found.value), deviceOk);
      }
      target := RemovePeer(arg, ddnsOk, keysOk, aliasOk);
    }
  }

  /** The errors after which a configured peer is taken off the device again. */
  predicate FailedInEtcd(e: AddError) {
    e == TransactionFailed || e == AliasExists
  }

  function ScannedKey(peers: seq<ListedPeer>, arg: string): Option<string> {
    var first := ScanTarget(peers, arg);
    if first.None? || first.value.pubkey == "" then None else Some(first.value.pubkey)
  }

  function RemovedFromDevice(device: Device, found: Option<string>, ok: bool): Device {
    if found.Some? && ok && IsDeviceKey(found.value) then device - {DeviceName(found.value)} else device
  }

  function RemovedFromCache(cache: CacheView, target: Option<Target>, ddnsOk: bool): CacheView {
    if target.Some? && ddnsOk && target.value.pubkey != "" then cache - {target.value.pubkey} else cache
  }

  /** The writes of a remove in order; the plugin's delete also drops an alias named like the key. */
  function RemovedFromStore(store: Store, target: Option<Target>, ddnsOk: bool, keysOk: bool, aliasOk: bool): Store {
    match target
    case None => store
    case Some(t) =>
      Deleted(if ddnsOk && t.pubkey != "" then store - {AliasKey(t.pubkey)} else store, t, keysOk, aliasOk)
  }

  /** A failed delete of the peer keys ends the command before the alias key. */
  function Deleted(store: Store, t: Target, keysOk: bool, aliasOk: bool): Store {
    if !keysOk then store
    else
      var left := WithoutPrefix(store, CtlPeerPrefix(t.pubkey));
      if aliasOk then left - {CtlAliasKey(t.alias)} else left
  }

  lemma NothingRemoved(cache: CacheView, store: Store, ddnsOk: bool, keysOk: bool, aliasOk: bool)
    ensures RemovedFromCache(cache, None, ddnsOk) == cache
    ensures RemovedFromStore(store, None, ddnsOk, keysOk, aliasOk) == store
  {
  }

  /** wgtypes.ParseKey accepts any base 64 text of 32 bytes; the device prints the key in its own form. */
  predicate IsDeviceKey(k: string) {
    Decode64(k).Some? && |Decode64(k).value| == 32
  }

  function DeviceName(k: string): string
    requires IsDeviceKey(k)
  {
    Encode64(Decode64(k).value)
  }

  /** The device loses the key in its own spelling, however etcd spells it. */
  lemma RemovedByName(device: Device, found: Option<string>, ok: bool)
    ensures var after := RemovedFromDevice(device, found, ok);
            forall l :: IsPubkey(l) ==>
              (l in after <==> l in device && !(ok && found.Some? && Decode64(found.value) == Decode64(l)))
  {
    hide Decode64, Encode64;
    forall l | IsPubkey(l)
      ensures found.Some? ==>
        (Decode64(found.value) == Decode64(l) <==> IsDeviceKey(found.value) && DeviceName(found.value) == l)
    {
      if found.Some? && IsDeviceKey(found.value) { DecodeEncode64(Decode64(found.value).value); }
    }
  }

  lemma CanonicalDeviceName(k: string)
    requires IsDeviceKey(k)
    ensures IsPubkey(DeviceName(k)) && (DeviceName(k) == k <==> IsPubkey(k))
  {
    hide Decode64, Encode64;
    Encode64IsPubkey(Decode64(k).value);
  }

  /** Text of 32 bytes has no dots, ends in one '=', and is 44 characters long but for line breaks. */
  lemma DeviceKeyText(k: string)
    requires IsDeviceKey(k)
    ensures '.' !in k && '=' in k && ('\r' in k || '\n' in k || |k| == 44)
  {
    hide StripNewlines, DecodeSymbols64;
    var t := StripNewlines(k);
    var body := t[..|t| - PaddingCount(t)];
    assert |body| == 43 && |t| == 44 && HasSuffix(t, "=");
    OccurrenceChars(t, "=", 43, 43);
    assert t[43] in t;
    StripSubset(k, '=');
    if '.' in k {
      StripKeeps(k, '.');
      DotNotInText(t);
    }
    if '\r' !in k && '\n' !in k { StripNothing(k); }
  }

  lemma DotNotInText(t: string)
    requires |t| == 44 && AllChars64(t[..43]) && t[43] == '='
    ensures '.' !in t
  {
    assert forall i :: 0 <= i < 43 ==> t[i] == t[..43][i];
  }

  lemma AddedArguments(k: string, ip: string, alias: string)
    requires IsDeviceKey(k) && ParseIPv4(ip).Some? && Accepted(alias)
    ensures k != "" && ip != "" && alias != ""
  {
    if k == "" { EmptyDecodesEmpty(); }
  }
}
