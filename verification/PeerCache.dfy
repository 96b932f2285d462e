/** The plugin's in-memory peer cache (coredns-plugin/valon/cache.go): entries are shared heap objects. */
module Cache {

  /** The value of a cache entry; handshake and update times are not part of this model. */
  datatype Entry = Entry(pubKey: string, wgIP: string, lanEndpoint: string, natEndpoint: string, dirty: bool)

  class PeerInfo {
    var pubKey: string
    var wgIP: string
    var lanEndpoint: string
    var natEndpoint: string
    var dirty: bool

    constructor (entry: Entry)
      ensures View() == entry
    {
      pubKey, wgIP := entry.pubKey, entry.wgIP;
      lanEndpoint, natEndpoint, dirty := entry.lanEndpoint, entry.natEndpoint, entry.dirty;
    }

    function View(): Entry
      reads this
    {
      Entry(pubKey, wgIP, lanEndpoint, natEndpoint, dirty)
    }

    method Assign(entry: Entry)
      modifies this
      ensures View() == entry
    {
      pubKey, wgIP := entry.pubKey, entry.wgIP;
      lanEndpoint, natEndpoint, dirty := entry.lanEndpoint, entry.natEndpoint, entry.dirty;
    }
  }

  type CacheView = map<string, Entry>

  ghost function ViewOf(peers: map<string, PeerInfo>): CacheView
    reads peers.Values
  {
    map k | k in peers :: peers[k].View()
  }

  /** Distinct keys have distinct objects. */
  predicate Distinct(peers: map<string, PeerInfo>) {
    forall k, l :: k in peers && l in peers && k != l ==> peers[k] != peers[l]
  }

  /** PeerCache.Update on values: nothing for an unknown key, and always dirty afterwards. */
  function Updated(cache: CacheView, pubkey: string, fn: Entry -> Entry): CacheView {
    if pubkey in cache then cache[pubkey := fn(cache[pubkey]).(dirty := true)] else cache
  }

  class PeerCache {
    var peers: map<string, PeerInfo>

    ghost predicate Valid()
      reads this
    {
      Distinct(peers)
    }

    ghost function View(): CacheView
      reads this, peers.Values
    {
      ViewOf(peers)
    }

    constructor ()
      ensures Valid() && View() == map[] && peers == map[]
    {
      peers := map[];
    }

    method Get(pubkey: string) returns (info: PeerInfo?)
      ensures info == if pubkey in peers then peers[pubkey] else null
    {
      info := if pubkey in peers then peers[pubkey] else null;
    }

    /** Every caller stores an object of its own, so no other key may hold it already. */
    method Set(pubkey: string, info: PeerInfo)
      requires Valid()
      requires forall k :: k in peers && k != pubkey ==> peers[k] != info
      modifies this
      ensures Valid() && peers == old(peers)[pubkey := info]
      ensures View() == old(View())[pubkey := info.View()]
    {
      peers := peers[pubkey := info];
    }

    method Update(pubkey: string, fn: Entry -> Entry)
      requires Valid()
      modifies peers.Values
      ensures Valid()
      ensures View() == Updated(old(View()), pubkey, fn)
    {
      if pubkey in peers {
        var peer := peers[pubkey];
        peer.Assign(fn(peer.View()));
        peer.dirty := true;
      }
    }

    /** The map is copied; the entries are the cache's own objects. */
    method GetAll() returns (copy: map<string, PeerInfo>)
      ensures copy == peers
    {
      copy := peers;
    }

    method Delete(pubkey: string)
      requires Valid()
      modifies this
      ensures Valid() && peers == old(peers) - {pubkey}
      ensures View() == old(View()) - {pubkey}
    {
      peers := peers - {pubkey};
    }
  }
}
