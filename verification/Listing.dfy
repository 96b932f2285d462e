/** What valonctl's listing shows of each peer (valonctl/pkg/client/etcd.go). */
module Listing {
  import opened Options
  import opened Labels
  import opened PeerKeys
  import opened Text
  import opened Etcd
  import opened Loader
  import opened EtcdClient
  import opened RemovalTarget

  /** The field is stored, and ListPeers reads it back. */
  predicate Shown(store: Store, k: string, f: Field) {
    ListReads(k, f) && PeerKey(k, f) in store
  }

  function ShownText(store: Store, k: string, f: Field): string {
    if Shown(store, k, f) then store[PeerKey(k, f)] else ""
  }

  /** The column of addresses: from wg_ip, or from the old field; where both are stored, the order decides. */
  predicate FitsIp(store: Store, k: string, ip: string) {
    (Shown(store, k, WgIp) && ip == store[PeerKey(k, WgIp)])
    || (Shown(store, k, OldIp) && ip == store[PeerKey(k, OldIp)])
    || (!Shown(store, k, WgIp) && !Shown(store, k, OldIp) && ip == "")
  }

  /** The old endpoint column: some endpoint of the peer; without an old field, one if there is one. */
  predicate FitsEndpoint(store: Store, k: string, e: string) {
    && (e == "" || e == ShownText(store, k, Lan) || e == ShownText(store, k, Nated)
        || e == ShownText(store, k, OldEndpoint))
    && (!Shown(store, k, OldEndpoint) ==>
          (e == "" <==> ShownText(store, k, Lan) == "" && ShownText(store, k, Nated) == ""))
  }

  predicate Fits(store: Store, k: string, p: ListedPeer) {
    && p.lanEndpoint == ShownText(store, k, Lan) && p.natEndpoint == ShownText(store, k, Nated)
    && p.alias == ShownText(store, k, Alias) && FitsIp(store, k, p.ip) && FitsEndpoint(store, k, p.endpoint)
  }

  ghost predicate ListedTexts(store: Store, m: Listing) {
    forall k :: IsPubkey(k) ==> Fits(store, k, ListedOr(m, k))
  }

  /** The columns that one field sets. */
  predicate Sets(before: ListedPeer, p: ListedPeer, f: Field, value: string) {
    && p.lanEndpoint == (if f == Lan then value else before.lanEndpoint)
    && p.natEndpoint == (if f == Nated then value else before.natEndpoint)
    && p.alias == (if f == Alias then value else before.alias)
    && p.ip == (if f == WgIp || f == OldIp then value else before.ip)
    && p.endpoint == (if f == OldEndpoint || ((f == Lan || f == Nated) && before.endpoint == "") then value
                      else before.endpoint)
  }

  lemma FieldSets(p: ListedPeer, f: Field, value: string)
    ensures Sets(p, ListField(p, FieldPath(f), value), f, value)
  {
    hide Split;
    FieldComponents(f);
  }

  /** What a printed key adds: one field of its peer, or an entry under a shorter name. */
  predicate StepPuts(m: Listing, next: Listing, k: string, f: Field, value: string, l: string, p: ListedPeer) {
    next == m[l := p] && if ListReads(k, f) then l == k && Sets(ListedOr(m, k), p, f, value) else |l| < 44
  }

  lemma StepSets(m: Listing, k: string, f: Field, value: string)
    requires IsPubkey(k)
    ensures exists l, p :: StepPuts(m, ListStep(m, KV(PeerKey(k, f), value)), k, f, value, l, p)
  {
    hide ListParse, ListField, IsPubkey, ListReads, Sets;
    PubkeyShape(k);
    TrimPeers(k, f);
    ListParseExact(k, f);
    if ListReads(k, f) {
      var p := ListField(ListedOr(m, k), FieldPath(f), value);
      FieldSets(ListedOr(m, k), f, value);
      assert StepPuts(m, ListStep(m, KV(PeerKey(k, f), value)), k, f, value, k, p);
    } else {
      var c := ListParse(RelativeKey(k, f)).value;
      var p := ListField(ListedOr(m, c.pubkey), c.fieldPath, value);
      assert StepPuts(m, ListStep(m, KV(PeerKey(k, f), value)), k, f, value, c.pubkey, p);
    }
  }

  lemma ShownAfter(store: Store, k: string, f: Field, value: string, l: string, g: Field)
    ensures var after := store[PeerKey(k, f) := value];
            && (l != k || g != f ==>
                  (Shown(after, l, g) <==> Shown(store, l, g)) && ShownText(after, l, g) == ShownText(store, l, g))
            && (Shown(after, k, f) <==> ListReads(k, f)) && (ListReads(k, f) ==> ShownText(after, k, f) == value)
  {
    hide PeerKey, ListReads;
    if (l != k || g != f) && PeerKey(l, g) == PeerKey(k, f) { PeerKeyInjective(l, g, k, f); }
  }

  lemma OtherFits(store: Store, k: string, f: Field, value: string, l: string, p: ListedPeer)
    requires Fits(store, l, p) && (l != k || !ListReads(k, f)) && PeerKey(k, f) !in store
    ensures Fits(store[PeerKey(k, f) := value], l, p)
  {
    hide PeerKey, ListReads;
    forall g { ShownAfter(store, k, f, value, l, g); }
    FitsByShown(store, store[PeerKey(k, f) := value], l, p);
  }

  lemma FitsByShown(store: Store, after: Store, k: string, p: ListedPeer)
    requires Fits(store, k, p)
    requires forall g ::
      (Shown(after, k, g) <==> Shown(store, k, g)) && ShownText(after, k, g) == ShownText(store, k, g)
    ensures Fits(after, k, p)
  {
    hide PeerKey, ListReads;
    assert Shown(store, k, WgIp) ==> ShownText(store, k, WgIp) == store[PeerKey(k, WgIp)];
    assert Shown(store, k, OldIp) ==> ShownText(store, k, OldIp) == store[PeerKey(k, OldIp)];
    assert Shown(after, k, WgIp) ==> ShownText(after, k, WgIp) == after[PeerKey(k, WgIp)];
    assert Shown(after, k, OldIp) ==> ShownText(after, k, OldIp) == after[PeerKey(k, OldIp)];
  }

  lemma OwnFits(store: Store, k: string, f: Field, value: string, before: ListedPeer, p: ListedPeer)
    requires Fits(store, k, before) && ListReads(k, f) && PeerKey(k, f) !in store && Sets(before, p, f, value)
    ensures Fits(store[PeerKey(k, f) := value], k, p)
  {
    hide PeerKey, ListReads;
    forall g { ShownAfter(store, k, f, value, k, g); }
    var after := store[PeerKey(k, f) := value];
    assert Shown(store, k, WgIp) ==> ShownText(store, k, WgIp) == store[PeerKey(k, WgIp)];
    assert Shown(store, k, OldIp) ==> ShownText(store, k, OldIp) == store[PeerKey(k, OldIp)];
    assert Shown(after, k, WgIp) ==> ShownText(after, k, WgIp) == after[PeerKey(k, WgIp)];
    assert Shown(after, k, OldIp) ==> ShownText(after, k, OldIp) == after[PeerKey(k, OldIp)];
    assert !Shown(store, k, f) && ShownText(store, k, f) == "";
  }

  lemma StepKeepsTexts(store: Store, m: Listing, k: string, f: Field, value: string)
    requires IsPubkey(k) && ListedTexts(store, m) && PeerKey(k, f) !in store
    ensures ListedTexts(store[PeerKey(k, f) := value], ListStep(m, KV(PeerKey(k, f), value)))
  {
    hide PeerKey, ListReads, IsPubkey, ListStep, Fits, Sets;
    StepSets(m, k, f, value);
    var next := ListStep(m, KV(PeerKey(k, f), value));
    var l, p :| StepPuts(m, next, k, f, value, l, p);
    forall j | IsPubkey(j) ensures Fits(store[PeerKey(k, f) := value], j, ListedOr(next, j)) {
      PubkeyShape(j);
      if j == k && ListReads(k, f) {
        OwnFits(store, k, f, value, ListedOr(m, k), p);
      } else {
        OtherFits(store, k, f, value, j, ListedOr(m, j));
      }
    }
  }

  lemma {:induction false} AllTexts(kvs: seq<KV>)
    requires PeerKVs(kvs) && DistinctKeys(kvs)
    ensures ListedTexts(StoreOf(kvs), ListAll(kvs))
  {
    hide ListedTexts, ListStep, IsPubkey, PeerKey;
    if kvs == [] {
      NoTexts();
    } else {
      var n := |kvs| - 1;
      var kv, before := kvs[n], kvs[..n];
      AllTexts(before);
      StoreOfLookup(before, kv.key);
      var k, f :| IsPubkey(k) && kv.key == PeerKey(k, f);
      StepKeepsTexts(StoreOf(before), ListAll(before), k, f, kv.value);
      assert kv == KV(PeerKey(k, f), kv.value);
    }
  }

  lemma NoTexts()
    ensures ListedTexts(map[], map[])
  {
    hide IsPubkey;
  }

  lemma SameTexts(a: Store, b: Store, m: Listing)
    requires forall k, f :: Lookup(a, PeerKey(k, f)) == Lookup(b, PeerKey(k, f))
    requires ListedTexts(a, m)
    ensures ListedTexts(b, m)
  {
    hide PeerKey, ListReads, IsPubkey, Fits;
    forall k | IsPubkey(k) ensures Fits(b, k, ListedOr(m, k)) {
      forall f ensures (Shown(b, k, f) <==> Shown(a, k, f)) && ShownText(b, k, f) == ShownText(a, k, f) {
        assert Lookup(a, PeerKey(k, f)) == Lookup(b, PeerKey(k, f));
      }
      FitsByShown(a, b, k, ListedOr(m, k));
    }
  }

  lemma TextsFromStore(kvs: seq<KV>, store: Store)
    requires HoldsPeers(store) && Enumerates(kvs, store, PEERS)
    ensures ListedTexts(store, ListAll(kvs))
  {
    hide StoreOf, ListAll, Enumerates, ListedTexts, HoldsPeers, PeerKVs, DistinctKeys;
    EnumeratedPeers(kvs, store);
    EnumeratedOnce(kvs, store);
    AllTexts(kvs);
    forall k, f ensures Lookup(StoreOf(kvs), PeerKey(k, f)) == Lookup(store, PeerKey(k, f)) {
      PeerKeyHasPrefix(k, f);
      EnumerationLookup(kvs, store, PEERS, PeerKey(k, f));
    }
    SameTexts(StoreOf(kvs), store, ListAll(kvs));
  }

  /**
    What the listing shows of a peer, whatever the orders: the stored alias and endpoints that can be read
    back, each in its own column, and else nothing; the stored address, or the one of the old field; and in
    the old endpoint column some endpoint of the peer.
   */
  lemma ListingShows(store: Store, kvs: seq<KV>, peers: seq<ListedPeer>, p: ListedPeer)
    requires HoldsPeers(store) && Enumerates(kvs, store, PEERS) && Lists(peers, ListAll(kvs))
    requires p in peers && IsPubkey(p.pubkey)
    ensures var k := p.pubkey;
            && p.alias == (if ListReads(k, Alias) then TextOr(Lookup(store, PeerKey(k, Alias))) else "")
            && p.lanEndpoint == (if ListReads(k, Lan) then TextOr(Lookup(store, PeerKey(k, Lan))) else "")
            && p.natEndpoint == (if ListReads(k, Nated) then TextOr(Lookup(store, PeerKey(k, Nated))) else "")
            && (PeerKey(k, OldIp) !in store ==> p.ip == TextOr(Lookup(store, PeerKey(k, WgIp))))
            && FitsIp(store, k, p.ip) && FitsEndpoint(store, k, p.endpoint)
  {
    hide ListAll, Enumerates, IsPubkey, HoldsPeers, PeerKey, FitsEndpoint;
    TextsFromStore(kvs, store);
    assert ListedOr(ListAll(kvs), p.pubkey) == p;
    assert ListReads(p.pubkey, WgIp);
  }
}
