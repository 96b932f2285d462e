/** The DDNS requests as state steps (coredns-plugin/valon/ddns.go), after HTTP and JSON decoding. */
module Ddns {
  import opened Options
  import opened Labels
  import opened Addresses
  import opened PeerKeys
  import opened Cache
  import opened Etcd

  const OFFLINE: string := "0.0.0.0:0"

  datatype Status = BadRequest | Forbidden | StatusOK

  /** The discovery node may change every peer, a peer only itself. */
  predicate IsAuthorized(cache: CacheView, selfIP: string, clientIP: string, k: string) {
    clientIP == selfIP || (k in cache && cache[k].wgIP == clientIP)
  }

  predicate ValidLan(lan: string) {
    lan == "" || lan == OFFLINE || SplitHostPort(lan).Some?
  }

  function UpdateStatus(cache: CacheView, selfIP: string, clientIP: string, k: string, lan: string): Status {
    if k == "" then BadRequest
    else if !IsAuthorized(cache, selfIP, clientIP, k) then Forbidden
    else if !ValidLan(lan) then BadRequest
    else StatusOK
  }

  /** Going offline empties the endpoint; a request that repeats the cached text leaves it. */
  function WithLan(e: Entry, k: string, lan: string): Entry {
    e.(pubKey := k, dirty := true,
       lanEndpoint := if e.lanEndpoint == lan then lan else if lan == OFFLINE || lan == "" then "" else lan)
  }

  /** The two alias writes are separate, and each may fail alone. */
  function AliasWritten(store: Store, k: string, alias: string, aliasOk: bool, fieldOk: bool): Store {
    if alias == "" || PubkeyToDnsLabel(k).None? then store
    else
      var first := if aliasOk then store[AliasKey(alias) := k] else store;
      if fieldOk then first[PeerKey(k, Alias) := alias] else first
  }

  /** What an update does to the entries, field by field. */
  lemma UpdatedLan(cache: CacheView, k: string, lan: string)
    ensures var after := Updated(cache, k, (e: Entry) => WithLan(e, k, lan));
            && (k in cache ==>
                  && k in after && after[k].pubKey == k && after[k].dirty
                  && (lan != OFFLINE ==> after[k].lanEndpoint == lan)
                  && (lan == OFFLINE ==>
                        after[k].lanEndpoint == if cache[k].lanEndpoint == OFFLINE then OFFLINE else "")
                  && after[k].wgIP == cache[k].wgIP && after[k].natEndpoint == cache[k].natEndpoint)
            && forall l :: l != k || k !in cache ==> Lookup(after, l) == Lookup(cache, l)
  {
  }

  lemma AliasTexts(k: string, alias: string)
    ensures AliasKey(alias) == "/valon/aliases/" + alias && PeerKey(k, Alias) == "/valon/peers/" + k + "/alias"
    ensures AliasKey(alias) != PeerKey(k, Alias)
  {
    PeerKeyIsNoAliasKey(k, Alias, alias);
  }

  class DdnsServer {
    const cache: PeerCache
    const etcd: EtcdServer
    const selfWgIP: string

    constructor (cache: PeerCache, etcd: EtcdServer, selfWgIP: string)
      ensures this.cache == cache && this.etcd == etcd && this.selfWgIP == selfWgIP
    {
      this.cache, this.etcd, this.selfWgIP := cache, etcd, selfWgIP;
    }

    method Authorize(clientIP: string, k: string) returns (granted: bool)
      ensures granted <==> clientIP == selfWgIP || (k in cache.View() && cache.View()[k].wgIP == clientIP)
    {
      if clientIP == selfWgIP {
        return true;
      }
      var peer := cache.Get(k);
      return peer != null && peer.wgIP == clientIP;
    }

    method RegisterAlias(k: string, alias: string, aliasOk: bool, fieldOk: bool)
      modifies etcd
      ensures etcd.kvs == AliasWritten(old(etcd.kvs), k, alias, aliasOk, fieldOk)
      ensures alias == "" || PubkeyToDnsLabel(k).None? ==> etcd.kvs == old(etcd.kvs)
      ensures alias != "" && PubkeyToDnsLabel(k).Some? ==>
        && Lookup(etcd.kvs, "/valon/aliases/" + alias)
           == (if aliasOk then Some(k) else Lookup(old(etcd.kvs), "/valon/aliases/" + alias))
        && Lookup(etcd.kvs, "/valon/peers/" + k + "/alias")
           == (if fieldOk then Some(alias) else Lookup(old(etcd.kvs), "/valon/peers/" + k + "/alias"))
      ensures forall key :: key != "/valon/aliases/" + alias && key != "/valon/peers/" + k + "/alias" ==>
        Lookup(etcd.kvs, key) == Lookup(old(etcd.kvs), key)
    {
      AliasTexts(k, alias);
      if alias != "" && PubkeyToDnsLabel(k).Some? {
        etcd.Put(AliasKey(alias), k, aliasOk);
        etcd.Put(PeerKey(k, Alias), alias, fieldOk);
      }
    }

    method UpdateLan(k: string, lan: string)
      requires cache.Valid()
      modifies cache.peers.Values
      ensures cache.Valid() && cache.View() == Updated(old(cache.View()), k, (e: Entry) => WithLan(e, k, lan))
    {
      cache.Update(k, (e: Entry) => WithLan(e, k, lan));
    }

    method HandleEndpointUpdate(clientIP: string, k: string, lan: string, alias: string, aliasOk: bool, fieldOk: bool)
      returns (status: Status)
      requires cache.Valid()
      modifies etcd, cache.peers.Values
      ensures cache.Valid() && status == UpdateStatus(old(cache.View()), selfWgIP, clientIP, k, lan)
      ensures status == Forbidden <==>
        k != "" && clientIP != selfWgIP && !(k in old(cache.View()) && old(cache.View())[k].wgIP == clientIP)
      ensures status != Forbidden ==>
        (status == BadRequest <==> k == "" || (lan != "" && lan != OFFLINE && SplitHostPort(lan).None?))
      ensures status == StatusOK && k in old(cache.View()) ==>
        var before := old(cache.View())[k];
        && k in cache.View() && cache.View()[k].pubKey == k && cache.View()[k].dirty
        && (lan != OFFLINE ==> cache.View()[k].lanEndpoint == lan)
        && (lan == OFFLINE ==> cache.View()[k].lanEndpoint == if before.lanEndpoint == OFFLINE then OFFLINE else "")
        && cache.View()[k].wgIP == before.wgIP && cache.View()[k].natEndpoint == before.natEndpoint
      ensures forall l :: l != k || status != StatusOK ==> Lookup(cache.View(), l) == Lookup(old(cache.View()), l)
      ensures cache.View() == if status == StatusOK then Updated(old(cache.View()), k, (e: Entry) => WithLan(e, k, lan))
                              else old(cache.View())
      ensures etcd.kvs == if status == StatusOK then AliasWritten(old(etcd.kvs), k, alias, aliasOk, fieldOk)
                          else old(etcd.kvs)
    {
      hide WithLan, Updated, AliasWritten, SplitHostPort;
      if k == "" {
        return BadRequest;
      }
      var granted := Authorize(clientIP, k);
      if !granted {
        return Forbidden;
      }
      if lan != "" && lan != OFFLINE && SplitHostPort(lan).None? {
        return BadRequest;
      }
      ghost var view := cache.View();
      UpdateLan(k, lan);
      UpdatedLan(view, k, lan);
      RegisterAlias(k, alias, aliasOk, fieldOk);
      return StatusOK;
    }

    /** Also deletes an alias named like the key itself, which is not where a peer's alias is kept. */
    method HandleEndpointDelete(clientIP: string, k: string, deleteOk: bool) returns (status: Status)
      requires cache.Valid()
      modifies cache, etcd
      ensures cache.Valid()
      ensures status == if k == "" then BadRequest else if clientIP != selfWgIP then Forbidden else StatusOK
      ensures cache.View() == if status == StatusOK then old(cache.View()) - {k} else old(cache.View())
      ensures etcd.kvs == if status == StatusOK && deleteOk then old(etcd.kvs) - {AliasKey(k)} else old(etcd.kvs)
    {
      if k == "" {
        return BadRequest;
      }
      if clientIP != selfWgIP {
        return Forbidden;
      }
      cache.Delete(k);
      if deleteOk {
        etcd.Delete(AliasKey(k));
      }
      return StatusOK;
    }
  }
}
