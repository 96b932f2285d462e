/**
  A remove names its peer twice: valonctl's scan of the listing (valonctl/cmd/peer_remove.go) and
  RemovePeer's own reading of the argument (valonctl/pkg/client/etcd.go). When they pick the same key.
 */
module RemovalTarget {
  import opened Options
  import opened Text
  import opened Labels
  import opened PeerKeys
  import opened Aliases
  import opened Etcd
  import opened Loader
  import opened EtcdClient
  import opened PeerCommands

  // ---- What a listing holds

  /** Some stored field of the peer is readable for ListPeers. */
  ghost predicate Listable(store: Store, k: string) {
    exists f :: ListReads(k, f) && PeerKey(k, f) in store
  }

  function ListedAlias(store: Store, k: string): string {
    if ListReads(k, Alias) then TextOr(Lookup(store, PeerKey(k, Alias))) else ""
  }

  ghost predicate ListedKeys(store: Store, m: Listing) {
    forall k :: IsPubkey(k) ==> (k in m <==> Listable(store, k))
  }

  ghost predicate ListedAliases(store: Store, m: Listing) {
    forall k :: IsPubkey(k) ==> ListedOr(m, k).alias == ListedAlias(store, k)
  }

  /** The name under which ListPeers files a field that it does not read back. */
  predicate CutsTo(k: string, f: Field, name: string) {
    var parsed := ListParse(RelativeKey(k, f));
    !ListReads(k, f) && parsed.Some? && parsed.value.pubkey == name
  }

  /** Such a field is taken for an alias. */
  predicate CutsAlias(k: string, f: Field) {
    var parsed := ListParse(RelativeKey(k, f));
    !ListReads(k, f) && parsed.Some? && Split(parsed.value.fieldPath, '/')[0] == "alias"
  }

  ghost predicate StrayName(store: Store, name: string) {
    exists k, f :: IsPubkey(k) && PeerKey(k, f) in store && CutsTo(k, f, name)
  }

  ghost predicate StrayAlias(store: Store, alias: string) {
    exists k, f :: IsPubkey(k) && PeerKey(k, f) in store && CutsAlias(k, f) && store[PeerKey(k, f)] == alias
  }

  /** Whatever is listed and is no key is a wrong cut, and so is its alias. */
  ghost predicate ListedStrays(store: Store, m: Listing) {
    forall l :: l in m && !IsPubkey(l) ==>
      |l| < 44 && StrayName(store, l) && (m[l].alias == "" || StrayAlias(store, m[l].alias))
  }

  ghost predicate ListResult(store: Store, m: Listing) {
    ListedKeys(store, m) && ListedAliases(store, m) && ListedStrays(store, m)
  }

  lemma ListFieldAlias(p: ListedPeer, f: Field, value: string)
    ensures ListField(p, FieldPath(f), value).alias == if f == Alias then value else p.alias
  {
    hide Split;
    FieldComponents(f);
  }

  lemma CutFieldAlias(p: ListedPeer, path: string, value: string)
    ensures ListField(p, path, value).alias == if Split(path, '/')[0] == "alias" then value else p.alias
  {
    hide Split;
  }

  /** What a printed key adds: its peer, or an entry under a shorter name. */
  predicate StepAdds(m: Listing, next: Listing, k: string, f: Field, value: string, l: string, p: ListedPeer) {
    next == m[l := p]
    && if ListReads(k, f) then l == k && p.alias == (if f == Alias then value else ListedOr(m, k).alias)
       else |l| < 44 && CutsTo(k, f, l) && p.alias == if CutsAlias(k, f) then value else ListedOr(m, l).alias
  }

  lemma ListStepOfPrintedKey(m: Listing, k: string, f: Field, value: string)
    requires IsPubkey(k)
    ensures exists l, p :: StepAdds(m, ListStep(m, KV(PeerKey(k, f), value)), k, f, value, l, p)
  {
    hide ListParse, ListField, IsPubkey, ListReads;
    PubkeyShape(k);
    TrimPeers(k, f);
    ListParseExact(k, f);
    if ListReads(k, f) {
      var p := ListField(ListedOr(m, k), FieldPath(f), value);
      ListFieldAlias(ListedOr(m, k), f, value);
      assert StepAdds(m, ListStep(m, KV(PeerKey(k, f), value)), k, f, value, k, p);
    } else {
      var c := ListParse(RelativeKey(k, f)).value;
      var p := ListField(ListedOr(m, c.pubkey), c.fieldPath, value);
      CutFieldAlias(ListedOr(m, c.pubkey), c.fieldPath, value);
      assert StepAdds(m, ListStep(m, KV(PeerKey(k, f), value)), k, f, value, c.pubkey, p);
    }
  }

  lemma ListableAfter(store: Store, k: string, f: Field, value: string, l: string)
    ensures Listable(store[PeerKey(k, f) := value], l) <==> Listable(store, l) || (l == k && ListReads(k, f))
  {
    hide PeerKey, ListReads;
    var after := store[PeerKey(k, f) := value];
    forall g | l != k || g != f
      ensures PeerKey(l, g) in after <==> PeerKey(l, g) in store
    {
      OtherLookups(store, k, f, value, l, g);
      assert PeerKey(l, g) in after <==> Lookup(after, PeerKey(l, g)).Some?;
      assert PeerKey(l, g) in store <==> Lookup(store, PeerKey(l, g)).Some?;
    }
  }

  lemma ListedAliasAfter(store: Store, k: string, f: Field, value: string, l: string)
    ensures ListedAlias(store[PeerKey(k, f) := value], l)
            == if l == k && f == Alias && ListReads(k, f) then value else ListedAlias(store, l)
  {
    hide PeerKey, ListReads;
    if l != k || f != Alias { OtherLookups(store, k, f, value, l, Alias); }
  }

  lemma StraysAfter(store: Store, k: string, f: Field, value: string)
    requires IsPubkey(k) && PeerKey(k, f) !in store
    ensures var after := store[PeerKey(k, f) := value];
            && (forall l :: StrayName(store, l) || CutsTo(k, f, l) ==> StrayName(after, l))
            && (forall a :: StrayAlias(store, a) ==> StrayAlias(after, a))
            && (CutsAlias(k, f) ==> StrayAlias(after, value))
  {
    hide PeerKey, CutsTo, CutsAlias, IsPubkey;
    var after := store[PeerKey(k, f) := value];
    assert PeerKey(k, f) in after && after[PeerKey(k, f)] == value;
    assert forall j, g :: PeerKey(j, g) in store ==>
      PeerKey(j, g) in after && after[PeerKey(j, g)] == store[PeerKey(j, g)];
  }

  lemma StepKeepsKeys(store: Store, m: Listing, next: Listing, k: string, f: Field, value: string, l: string,
                      p: ListedPeer)
    requires IsPubkey(k) && ListedKeys(store, m) && ListedAliases(store, m) && StepAdds(m, next, k, f, value, l, p)
    ensures ListedKeys(store[PeerKey(k, f) := value], next) && ListedAliases(store[PeerKey(k, f) := value], next)
  {
    hide PeerKey, ListReads, IsPubkey, Listable, ListedAlias, CutsTo, CutsAlias;
    forall j { ListableAfter(store, k, f, value, j); }
    forall j { ListedAliasAfter(store, k, f, value, j); }
    forall j | IsPubkey(j) ensures |j| == 44 { PubkeyShape(j); }
  }

  lemma StepKeepsStrays(store: Store, m: Listing, next: Listing, k: string, f: Field, value: string, l: string,
                        p: ListedPeer)
    requires IsPubkey(k) && ListedStrays(store, m) && StepAdds(m, next, k, f, value, l, p) && PeerKey(k, f) !in store
    ensures ListedStrays(store[PeerKey(k, f) := value], next)
  {
    hide PeerKey, ListReads, IsPubkey, CutsTo, CutsAlias, StrayName, StrayAlias;
    StraysAfter(store, k, f, value);
    if IsPubkey(l) { PubkeyShape(l); }
  }

  lemma ListStepResult(store: Store, m: Listing, k: string, f: Field, value: string)
    requires IsPubkey(k) && ListResult(store, m) && PeerKey(k, f) !in store
    ensures ListResult(store[PeerKey(k, f) := value], ListStep(m, KV(PeerKey(k, f), value)))
  {
    hide PeerKey, IsPubkey, ListStep, ListedKeys, ListedAliases, ListedStrays, StepAdds;
    ListStepOfPrintedKey(m, k, f, value);
    var next := ListStep(m, KV(PeerKey(k, f), value));
    var l, p :| StepAdds(m, next, k, f, value, l, p);
    StepKeepsKeys(store, m, next, k, f, value, l, p);
    StepKeepsStrays(store, m, next, k, f, value, l, p);
  }

  ghost predicate DistinctKeys(kvs: seq<KV>) {
    forall i, j :: 0 <= i < j < |kvs| ==> kvs[i].key != kvs[j].key
  }

  lemma {:induction false} ListAllResult(kvs: seq<KV>)
    requires PeerKVs(kvs) && DistinctKeys(kvs)
    ensures ListResult(StoreOf(kvs), ListAll(kvs))
  {
    hide ListResult, ListStep, IsPubkey, PeerKey;
    if kvs == [] {
      EmptyListing();
    } else {
      var n := |kvs| - 1;
      var kv, before := kvs[n], kvs[..n];
      ListAllResult(before);
      StoreOfLookup(before, kv.key);
      var k, f :| IsPubkey(k) && kv.key == PeerKey(k, f);
      ListStepResult(StoreOf(before), ListAll(before), k, f, kv.value);
      assert kv == KV(PeerKey(k, f), kv.value);
    }
  }

  lemma EmptyListing()
    ensures ListResult(map[], map[])
  {
  }

  lemma EnumeratedOnce(kvs: seq<KV>, store: Store)
    requires Enumerates(kvs, store, PEERS)
    ensures DistinctKeys(kvs)
  {
  }

  /** Whatever order etcd answers in, the listing holds the readable part of the store, and wrong cuts of the rest. */
  lemma ListFromStore(kvs: seq<KV>, store: Store)
    requires HoldsPeers(store) && Enumerates(kvs, store, PEERS)
    ensures ListResult(store, ListAll(kvs))
  {
    hide StoreOf, ListAll, Enumerates, ListResult, HasPrefix, HoldsPeers, PeerKVs;
    EnumeratedPeers(kvs, store);
    EnumeratedOnce(kvs, store);
    ListAllResult(kvs);
    forall k, f
      ensures Lookup(StoreOf(kvs), PeerKey(k, f)) == Lookup(store, PeerKey(k, f))
    {
      PeerKeyHasPrefix(k, f);
      EnumerationLookup(kvs, store, PEERS, PeerKey(k, f));
    }
    SameFieldsSameListing(StoreOf(kvs), store, ListAll(kvs));
  }

  lemma SameFieldsSameListing(a: Store, b: Store, m: Listing)
    requires forall k, f :: Lookup(a, PeerKey(k, f)) == Lookup(b, PeerKey(k, f))
    requires ListResult(a, m)
    ensures ListResult(b, m)
  {
    hide PeerKey, ListReads, IsPubkey, StrayName, StrayAlias;
    forall k, f ensures PeerKey(k, f) in a <==> PeerKey(k, f) in b {
      assert Lookup(a, PeerKey(k, f)) == Lookup(b, PeerKey(k, f));
    }
    assert forall k :: Listable(a, k) <==> Listable(b, k);
    assert forall k :: ListedAlias(a, k) == ListedAlias(b, k);
    SameStrays(a, b);
  }

  lemma SameStrays(a: Store, b: Store)
    requires forall k, f :: Lookup(a, PeerKey(k, f)) == Lookup(b, PeerKey(k, f))
    ensures forall l :: StrayName(a, l) ==> StrayName(b, l)
    ensures forall l :: StrayAlias(a, l) ==> StrayAlias(b, l)
  {
    hide PeerKey, IsPubkey, CutsTo, CutsAlias;
    forall k, f | PeerKey(k, f) in a ensures PeerKey(k, f) in b && a[PeerKey(k, f)] == b[PeerKey(k, f)] {
      assert Lookup(a, PeerKey(k, f)) == Lookup(b, PeerKey(k, f));
    }
  }

  // ---- The scan

  /** The scan's pick, whatever the order: it matches, and it is None only if nothing does. */
  lemma {:induction false} ScanPicks(peers: seq<ListedPeer>, arg: string)
    ensures var r := ScanTarget(peers, arg);
            && (r.Some? ==> r.value in peers && (r.value.pubkey == arg || r.value.alias == arg))
            && (r.None? ==> forall p :: p in peers ==> p.pubkey != arg && p.alias != arg)
  {
    if peers != [] && peers[0].pubkey != arg && peers[0].alias != arg {
      ScanPicks(peers[1..], arg);
      assert peers == [peers[0]] + peers[1..];
    }
  }

  /** Aliases and peers point at each other; a peer may have no alias, as the discovery node itself. */
  ghost predicate AliasesMatch(store: Store) {
    && (forall k :: IsPubkey(k) && PeerKey(k, Alias) in store ==>
          Accepted(store[PeerKey(k, Alias)]) && Lookup(store, AliasKey(store[PeerKey(k, Alias)])) == Some(k))
    && (forall a :: AliasKey(a) in store ==>
          IsPubkey(store[AliasKey(a)]) && Lookup(store, PeerKey(store[AliasKey(a)], Alias)) == Some(a))
  }

  function KeyOf(target: Option<Target>): Option<string> {
    match target
    case None => None
    case Some(t) => Some(t.pubkey)
  }

  lemma AliasIsNoKey(arg: string)
    requires Accepted(arg)
    ensures !IsPubkey(arg) && !LooksLikePubkey(arg) && CtlAliasKey(arg) == AliasKey(arg) && arg != ""
  {
    AcceptedAlias(arg);
    CtlAliasKeyAgreesIff(arg);
    if IsPubkey(arg) { PubkeyShape(arg); }
    if HasSuffix(arg, "=") { OccurrenceChars(arg, "=", |arg| - 1, |arg| - 1); }
  }

  /** No unreadable field is filed under the argument or with it as an alias. */
  ghost predicate NoStray(store: Store, arg: string) {
    !StrayName(store, arg) && !StrayAlias(store, arg)
  }

  /** The alias field and the alias entry match at this alias. */
  ghost predicate MatchesAt(store: Store, alias: string) {
    && (forall k :: IsPubkey(k) ==>
          (Lookup(store, PeerKey(k, Alias)) == Some(alias) <==> Lookup(store, AliasKey(alias)) == Some(k)))
    && (AliasKey(alias) in store ==> IsPubkey(store[AliasKey(alias)]))
  }

  lemma MatchesEverywhere(store: Store, alias: string)
    requires AliasesMatch(store)
    ensures MatchesAt(store, alias)
  {
    hide IsPubkey, PeerKey, AliasKey, Accepted;
  }

  /** Who matches the argument: no stray does, and a key by its name or by its readable alias. */
  lemma WhoMatches(store: Store, m: Listing, peers: seq<ListedPeer>, arg: string, p: ListedPeer)
    requires ListResult(store, m) && Lists(peers, m) && NoStray(store, arg) && arg != ""
    requires p in peers && (p.pubkey == arg || p.alias == arg)
    ensures IsPubkey(p.pubkey) && p.pubkey != "" && Listable(store, p.pubkey)
    ensures p.pubkey == arg || (ListReads(p.pubkey, Alias) && Lookup(store, PeerKey(p.pubkey, Alias)) == Some(arg))
  {
    hide IsPubkey, PeerKey, ListReads, StrayName, StrayAlias, Listable;
    assert p.pubkey in m && m[p.pubkey] == p;
    assert IsPubkey(p.pubkey);
    assert ListedOr(m, p.pubkey).alias == ListedAlias(store, p.pubkey);
    PubkeyShape(p.pubkey);
  }

  lemma AliasAgreesIff(store: Store, m: Listing, peers: seq<ListedPeer>, arg: string)
    requires MatchesAt(store, arg) && NoStray(store, arg) && ListResult(store, m) && Lists(peers, m)
    requires Accepted(arg)
    ensures ScannedKey(peers, arg) == KeyOf(Classify(store, arg))
            <==> (AliasKey(arg) in store ==> ListReads(store[AliasKey(arg)], Alias))
  {
    hide ScanTarget, IsPubkey, Accepted, PeerKey, AliasKey, CtlAliasKey, LooksLikePubkey, ListReads, NoStray, Listable;
    AliasIsNoKey(arg);
    ScanPicks(peers, arg);
    var r := ScanTarget(peers, arg);
    if r.Some? {
      WhoMatches(store, m, peers, arg, r.value);
    } else if AliasKey(arg) in store {
      var k := store[AliasKey(arg)];
      if ListReads(k, Alias) { AliasIsListed(store, m, peers, k); }
    }
  }

  lemma AliasIsListed(store: Store, m: Listing, peers: seq<ListedPeer>, k: string)
    requires ListResult(store, m) && Lists(peers, m) && IsPubkey(k) && ListReads(k, Alias) && PeerKey(k, Alias) in store
    ensures exists p :: p in peers && p.alias == store[PeerKey(k, Alias)]
  {
    hide IsPubkey, PeerKey, ListReads;
    assert Listable(store, k);
    assert ListedOr(m, k).alias == ListedAlias(store, k);
    assert m[k] in peers;
  }

  lemma KeyIsListed(store: Store, m: Listing, peers: seq<ListedPeer>, k: string)
    requires ListResult(store, m) && Lists(peers, m) && IsPubkey(k) && Listable(store, k)
    ensures exists p :: p in peers && p.pubkey == k
  {
    hide IsPubkey, Listable;
    assert m[k] in peers;
  }

  lemma PubkeyAgreesIff(store: Store, m: Listing, peers: seq<ListedPeer>, arg: string)
    requires NoStray(store, arg) && ListResult(store, m) && Lists(peers, m)
    requires IsPubkey(arg) && Intact(arg) && NoAliasIs(store, arg)
    ensures ScannedKey(peers, arg) == KeyOf(Classify(store, arg))
            <==> (Listable(store, arg) <==> PeerKey(arg, Alias) in store)
  {
    hide ScanTarget, IsPubkey, PeerKey, CtlPeerKey, LooksLikePubkey, ListReads, Intact, NoStray, Listable;
    PubkeyShape(arg);
    PubkeyLooksLikeOne(arg);
    CtlPeerKeyAgrees(arg, Alias);
    ScanPicks(peers, arg);
    var r := ScanTarget(peers, arg);
    if r.Some? {
      WhoMatches(store, m, peers, arg, r.value);
    } else if Listable(store, arg) {
      KeyIsListed(store, m, peers, arg);
    }
  }

  ghost predicate NoAliasIs(store: Store, arg: string) {
    forall k :: IsPubkey(k) ==> Lookup(store, PeerKey(k, Alias)) != Some(arg)
  }

  /**
    The two readings of an argument that no wrong cut resembles, whatever the orders. For an accepted
    alias they agree exactly when the registered key's alias field is readable; for an intact key
    exactly when it is listed if and only if it has an alias, since RemovePeer refuses a key without
    one, after the key has left the device.
   */
  lemma ResolversAgreeIff(store: Store, kvs: seq<KV>, peers: seq<ListedPeer>, arg: string)
    requires HoldsPeers(store) && Enumerates(kvs, store, PEERS) && Lists(peers, ListAll(kvs)) && NoStray(store, arg)
    ensures Accepted(arg) && MatchesAt(store, arg) ==>
      (ScannedKey(peers, arg) == KeyOf(Classify(store, arg))
       <==> (AliasKey(arg) in store ==> ListReads(store[AliasKey(arg)], Alias)))
    ensures IsPubkey(arg) && Intact(arg) && NoAliasIs(store, arg) ==>
      (ScannedKey(peers, arg) == KeyOf(Classify(store, arg))
       <==> (Listable(store, arg) <==> PeerKey(arg, Alias) in store))
  {
    hide ScannedKey, Classify, IsPubkey, Accepted, PeerKey, AliasKey, Intact, HoldsPeers, MatchesAt, NoStray,
      Enumerates, Lists, ListAll, ListResult, Listable, ListReads;
    ListFromStore(kvs, store);
    if Accepted(arg) && MatchesAt(store, arg) {
      AliasAgreesIff(store, ListAll(kvs), peers, arg);
    }
    if IsPubkey(arg) && Intact(arg) && NoAliasIs(store, arg) {
      PubkeyAgreesIff(store, ListAll(kvs), peers, arg);
    }
  }

  /** ListPeers reads every stored field back: no key hides an earlier match. */
  ghost predicate Readable(store: Store) {
    forall k, f :: IsPubkey(k) && PeerKey(k, f) in store ==> ListReads(k, f)
  }

  /** In a registry in one-to-one correspondence whose keys all read back, every accepted alias names one peer. */
  lemma ResolversAgree(store: Store, kvs: seq<KV>, peers: seq<ListedPeer>, arg: string)
    requires HoldsPeers(store) && Enumerates(kvs, store, PEERS) && Lists(peers, ListAll(kvs))
    requires AliasesMatch(store) && Readable(store) && Accepted(arg)
    ensures ScannedKey(peers, arg) == KeyOf(Classify(store, arg))
  {
    hide ScannedKey, Classify, IsPubkey, Accepted, PeerKey, AliasKey, Intact, HoldsPeers, Enumerates, Lists, ListAll,
      ListResult, Listable, ListReads;
    MatchesEverywhere(store, arg);
    assert NoStray(store, arg);
    ResolversAgreeIff(store, kvs, peers, arg);
  }

  /** A registered alias whose peer's alias key ListPeers cannot read is never scanned as that peer. */
  lemma UnreadableAliasMissed(store: Store, kvs: seq<KV>, peers: seq<ListedPeer>, k: string, alias: string)
    requires HoldsPeers(store) && Enumerates(kvs, store, PEERS) && Lists(peers, ListAll(kvs))
    requires IsPubkey(k) && !ListReads(k, Alias) && Accepted(alias) && Lookup(store, AliasKey(alias)) == Some(k)
    ensures KeyOf(Classify(store, alias)) == Some(k) && ScannedKey(peers, alias) != Some(k)
  {
    hide ScanTarget, IsPubkey, Accepted, PeerKey, AliasKey, CtlAliasKey, LooksLikePubkey, ListReads, HoldsPeers,
      Enumerates, ListAll, HasPrefix;
    ListFromStore(kvs, store);
    AliasIsNoKey(alias);
    ScanPicks(peers, alias);
    assert ListedOr(ListAll(kvs), k).alias == ListedAlias(store, k) == "";
  }
}
