/** The write-behind pass (coredns-plugin/valon/etcd_sync.go). */
module EtcdSync {
  import opened Options
  import opened PeerKeys
  import opened Cache
  import opened Etcd

  /** The value of a field in a cache entry; the cache knows no aliases and no old fields. */
  function EntryField(e: Entry, f: Field): string {
    match f
    case WgIp => e.wgIP
    case Lan => e.lanEndpoint
    case Nated => e.natEndpoint
    case _ => ""
  }

  function PutUnlessEmpty(store: Store, k: string, e: Entry, f: Field): Store {
    if EntryField(e, f) != "" then store[PeerKey(k, f) := EntryField(e, f)] else store
  }

  /** The store after one peer's transaction. */
  function Written(store: Store, k: string, e: Entry): Store {
    PutUnlessEmpty(PutUnlessEmpty(PutUnlessEmpty(store, k, e, WgIp), k, e, Lan), k, e, Nated)
  }

  lemma WrittenField(store: Store, k: string, e: Entry, l: string, f: Field)
    ensures Lookup(Written(store, k, e), PeerKey(l, f))
            == if l == k && EntryField(e, f) != "" then Some(EntryField(e, f)) else Lookup(store, PeerKey(l, f))
  {
    hide PeerKey;
    forall g | PeerKey(l, f) == PeerKey(k, g)
      ensures l == k && f == g
    {
      PeerKeyInjective(l, f, k, g);
    }
  }

  lemma WrittenElsewhere(store: Store, k: string, e: Entry, key: string)
    requires forall f :: key != PeerKey(k, f)
    ensures Lookup(Written(store, k, e), key) == Lookup(store, key)
  {
  }

  /** What a sync pass leaves in one field: the cached value of a dirty peer, else what was stored. */
  function SyncedField(cache: CacheView, store: Store, failed: set<string>, k: string, f: Field): Option<string> {
    if k in cache && cache[k].dirty && k !in failed && EntryField(cache[k], f) != "" then Some(EntryField(cache[k], f))
    else Lookup(store, PeerKey(k, f))
  }

  /** The store after a pass in which the transactions of the peers in `failed` fail. */
  ghost predicate SyncResult(cache: CacheView, store: Store, failed: set<string>, after: Store) {
    && (forall k, f :: Lookup(after, PeerKey(k, f)) == SyncedField(cache, store, failed, k, f))
    && (forall key :: (forall k, f :: key != PeerKey(k, f)) ==> Lookup(after, key) == Lookup(store, key))
  }

  /** The pass has one outcome, whatever the order in which the map is walked. */
  lemma SyncDeterministic(cache: CacheView, store: Store, failed: set<string>, a: Store, b: Store)
    requires SyncResult(cache, store, failed, a) && SyncResult(cache, store, failed, b)
    ensures a == b
  {
    forall key ensures Lookup(a, key) == Lookup(b, key) {
      if k, f :| key == PeerKey(k, f) {
        assert Lookup(a, PeerKey(k, f)) == SyncedField(cache, store, failed, k, f);
      }
    }
    SameLookups(a, b);
  }

  /** Part of a pass: the peers in `done` have had their turn. */
  ghost predicate SyncProgress(cache: CacheView, store: Store, failed: set<string>, done: set<string>, now: Store) {
    SyncResult(cache, store, failed + (cache.Keys - done), now)
  }

  function SyncTurn(cache: CacheView, failed: set<string>, k: string, now: Store): Store
    requires k in cache
  {
    if cache[k].dirty && k !in failed then Written(now, k, cache[k]) else now
  }

  lemma SyncStarts(cache: CacheView, store: Store, failed: set<string>)
    ensures SyncProgress(cache, store, failed, {}, store)
  {
  }

  lemma SyncEnds(cache: CacheView, store: Store, failed: set<string>, done: set<string>, now: Store)
    requires SyncProgress(cache, store, failed, done, now) && cache.Keys <= done
    ensures SyncResult(cache, store, failed, now)
  {
    assert failed + (cache.Keys - done) == failed;
  }

  lemma SyncExtends(cache: CacheView, store: Store, failed: set<string>, done: set<string>, k: string, now: Store)
    requires SyncProgress(cache, store, failed, done, now)
    requires k in cache && k !in done
    ensures SyncProgress(cache, store, failed, done + {k}, SyncTurn(cache, failed, k, now))
  {
    hide PeerKey, Written;
    var after := SyncTurn(cache, failed, k, now);
    var left := failed + (cache.Keys - done);
    forall l, f
      ensures Lookup(after, PeerKey(l, f)) == SyncedField(cache, store, failed + (cache.Keys - (done + {k})), l, f)
    {
      WrittenField(now, k, cache[k], l, f);
      assert Lookup(now, PeerKey(l, f)) == SyncedField(cache, store, left, l, f);
    }
    forall key | forall l, f :: key != PeerKey(l, f)
      ensures Lookup(after, key) == Lookup(store, key)
    {
      WrittenElsewhere(now, k, cache[k], key);
    }
  }

  /** A pass has an outcome. */
  lemma {:induction false} SyncHappens(cache: CacheView, store: Store, failed: set<string>, done: set<string>)
    requires done <= cache.Keys
    ensures exists now :: SyncProgress(cache, store, failed, done, now)
  {
    hide SyncProgress;
    if done == {} {
      SyncStarts(cache, store, failed);
    } else {
      var k :| k in done;
      SyncHappens(cache, store, failed, done - {k});
      var before :| SyncProgress(cache, store, failed, done - {k}, before);
      SyncExtends(cache, store, failed, done - {k}, k, before);
      assert done - {k} + {k} == done;
    }
  }

  lemma SyncExists(cache: CacheView, store: Store, failed: set<string>)
    ensures exists after :: SyncResult(cache, store, failed, after)
  {
    hide SyncProgress, SyncResult;
    SyncHappens(cache, store, failed, cache.Keys);
    var now :| SyncProgress(cache, store, failed, cache.Keys, now);
    SyncEnds(cache, store, failed, cache.Keys, now);
  }

  /** A store holds this text under one of a peer's keys, unless the text is empty. */
  predicate HoldsText(store: Store, key: string, text: string) {
    text != "" ==> Lookup(store, key) == Some(text)
  }

  /** The three keys that a pass may write for a peer, spelled out. */
  predicate IsKeyWritten(key: string, k: string) {
    var prefix := "/valon/peers/" + k;
    key == prefix + "/wg_ip" || key == prefix + "/endpoints/lan" || key == prefix + "/endpoints/nated"
  }

  ghost predicate HoldsEntry(store: Store, k: string, e: Entry) {
    var prefix := "/valon/peers/" + k;
    HoldsText(store, prefix + "/wg_ip", e.wgIP) && HoldsText(store, prefix + "/endpoints/lan", e.lanEndpoint)
    && HoldsText(store, prefix + "/endpoints/nated", e.natEndpoint)
  }

  lemma KeyTexts(k: string)
    ensures PeerKey(k, WgIp) == "/valon/peers/" + k + "/wg_ip"
    ensures PeerKey(k, Lan) == "/valon/peers/" + k + "/endpoints/lan"
    ensures PeerKey(k, Nated) == "/valon/peers/" + k + "/endpoints/nated"
  {
  }

  /**
    After a pass every dirty peer whose write went through has each non-empty field under its key, and no
    other key has changed.
   */
  lemma PassWritesEntries(cache: CacheView, store: Store, failed: set<string>, after: Store)
    requires SyncResult(cache, store, failed, after)
    ensures forall k :: k in cache && cache[k].dirty && k !in failed ==> HoldsEntry(after, k, cache[k])
    ensures forall key :: Lookup(after, key) != Lookup(store, key) ==>
      exists k :: k in cache && cache[k].dirty && k !in failed && IsKeyWritten(key, k)
  {
    hide PeerKey, HoldsText;
    forall k | k in cache && cache[k].dirty && k !in failed ensures HoldsEntry(after, k, cache[k]) {
      KeyTexts(k);
      assert forall f :: Lookup(after, PeerKey(k, f)) == SyncedField(cache, store, failed, k, f);
      WrittenTexts(cache, store, failed, after, k);
    }
    forall key | Lookup(after, key) != Lookup(store, key)
      ensures exists k :: k in cache && cache[k].dirty && k !in failed && IsKeyWritten(key, k)
    {
      var k, f :| key == PeerKey(k, f);
      assert Lookup(after, PeerKey(k, f)) == SyncedField(cache, store, failed, k, f);
      KeyTexts(k);
      assert IsKeyWritten(key, k);
    }
  }

  lemma WrittenTexts(cache: CacheView, store: Store, failed: set<string>, after: Store, k: string)
    requires k in cache && cache[k].dirty && k !in failed
    requires forall f :: Lookup(after, PeerKey(k, f)) == SyncedField(cache, store, failed, k, f)
    ensures HoldsText(after, PeerKey(k, WgIp), cache[k].wgIP)
    ensures HoldsText(after, PeerKey(k, Lan), cache[k].lanEndpoint)
    ensures HoldsText(after, PeerKey(k, Nated), cache[k].natEndpoint)
  {
    hide PeerKey;
  }

  function ClearDirty(e: Entry): Entry {
    e.(dirty := false)
  }

  /** Clearing the flag through PeerCache.Update leaves a dirty entry dirty. */
  lemma ClearingIsUndone(cache: CacheView, k: string)
    requires k in cache && cache[k].dirty
    ensures Updated(cache, k, ClearDirty) == cache
  {
  }

  datatype Op = OpPut(key: string, value: string)

  function Apply(store: Store, ops: seq<Op>): Store {
    if ops == [] then store
    else Apply(store, ops[..|ops| - 1])[ops[|ops| - 1].key := ops[|ops| - 1].value]
  }

  lemma ApplySnoc(store: Store, ops: seq<Op>, op: Op)
    ensures Apply(store, ops + [op]) == Apply(store, ops)[op.key := op.value]
  {
    assert (ops + [op])[..|ops|] == ops;
  }

  class Syncer {
    const cache: PeerCache
    const etcd: EtcdServer

    constructor (cache: PeerCache, etcd: EtcdServer)
      ensures this.cache == cache && this.etcd == etcd
    {
      this.cache, this.etcd := cache, etcd;
    }

    /** Only the non-empty fields are written, in one transaction. */
    method WritePeerToEtcd(pubkey: string, info: PeerInfo, committed: bool) returns (ok: bool)
      modifies etcd
      ensures etcd.kvs == if committed then Written(old(etcd.kvs), pubkey, info.View()) else old(etcd.kvs)
      ensures ok <==> committed || (info.wgIP == "" && info.lanEndpoint == "" && info.natEndpoint == "")
    {
      var ops: seq<Op> := [];
      if info.wgIP != "" {
        ApplySnoc(etcd.kvs, ops, OpPut(PeerKey(pubkey, WgIp), info.wgIP));
        ops := ops + [OpPut(PeerKey(pubkey, WgIp), info.wgIP)];
      }
      if info.lanEndpoint != "" {
        ApplySnoc(etcd.kvs, ops, OpPut(PeerKey(pubkey, Lan), info.lanEndpoint));
        ops := ops + [OpPut(PeerKey(pubkey, Lan), info.lanEndpoint)];
      }
      if info.natEndpoint != "" {
        ApplySnoc(etcd.kvs, ops, OpPut(PeerKey(pubkey, Nated), info.natEndpoint));
        ops := ops + [OpPut(PeerKey(pubkey, Nated), info.natEndpoint)];
      }
      if |ops| > 0 {
        if !committed {
          return false;
        }
        etcd.kvs := Apply(etcd.kvs, ops);
      }
      return true;
    }

    /** One turn of the pass; the entry comes from the snapshot, which shares the cache's objects. */
    method SyncPeer(pubkey: string, info: PeerInfo, committed: bool)
      requires cache.Valid() && pubkey in cache.peers && cache.peers[pubkey] == info
      modifies etcd, cache.peers.Values
      ensures cache.Valid() && cache.peers == old(cache.peers) && cache.View() == old(cache.View())
      ensures etcd.kvs == if old(info.dirty) && committed then Written(old(etcd.kvs), pubkey, old(info.View()))
                          else old(etcd.kvs)
    {
      if !info.dirty {
        return;
      }
      assert cache.View()[pubkey] == info.View();
      var ok := WritePeerToEtcd(pubkey, info, committed);
      if !ok {
        return;
      }
      ghost var view := cache.View();
      cache.Update(pubkey, ClearDirty);
      ClearingIsUndone(view, pubkey);
    }

    /**
      Writes the dirty peers and leaves the cache as it was: PeerCache.Update marks an entry dirty after
      running its function, so the flag that the pass clears is set again at once.
     */
    method SyncToEtcd(failed: set<string>)
      requires cache.Valid()
      modifies etcd, cache.peers.Values
      ensures cache.Valid() && cache.peers == old(cache.peers)
      ensures cache.View() == old(cache.View())
      ensures SyncResult(old(cache.View()), old(etcd.kvs), failed, etcd.kvs)
      ensures forall k :: k in cache.View() && cache.View()[k].dirty && k !in failed ==>
        HoldsEntry(etcd.kvs, k, cache.View()[k])
      ensures forall key :: Lookup(etcd.kvs, key) != Lookup(old(etcd.kvs), key) ==>
        exists k :: k in cache.View() && cache.View()[k].dirty && k !in failed && IsKeyWritten(key, k)
    {
      hide SyncProgress, SyncResult, Written, HoldsEntry, IsKeyWritten;
      var peers := cache.GetAll();
      var left := peers.Keys;
      ghost var view, store := cache.View(), etcd.kvs;
      ghost var done := {};
      SyncStarts(view, store, failed);
      while left != {}
        invariant peers == cache.peers == old(cache.peers) && cache.Valid()
        invariant cache.View() == view
        invariant left !! done && left + done == view.Keys
        invariant SyncProgress(view, store, failed, done, etcd.kvs)
        decreases left
      {
        var pubkey :| pubkey in left;
        assert view[pubkey] == peers[pubkey].View();
        SyncExtends(view, store, failed, done, pubkey, etcd.kvs);
        ghost var next := SyncTurn(view, failed, pubkey, etcd.kvs);
        SyncPeer(pubkey, peers[pubkey], pubkey !in failed);
        assert etcd.kvs == next;
        left, done := left - {pubkey}, done + {pubkey};
      }
      SyncEnds(view, store, failed, done, etcd.kvs);
      PassWritesEntries(view, store, failed, etcd.kvs);
    }
  }
}
