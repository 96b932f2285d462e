/** Start-up from etcd (coredns-plugin/valon/valon.go): grouping the flat keys back into peers. */
module Loader {
  import opened Options
  import opened Text
  import opened Labels
  import opened PeerKeys
  import opened Cache
  import opened Etcd
  import opened EtcdSync

  function Blank(k: string): Entry {
    Entry(k, "", "", "", false)
  }

  function EntryOr(cache: CacheView, k: string): Entry {
    if k in cache then cache[k] else Blank(k)
  }

  function WithField(e: Entry, f: Field, value: string): Entry {
    match f
    case WgIp => e.(wgIP := value)
    case Lan => e.(lanEndpoint := value)
    case Nated => e.(natEndpoint := value)
    case _ => e
  }

  /** One etcd key of the load: it may create an entry even when the field is not kept. */
  function LoadStep(loaded: CacheView, kv: KV): CacheView {
    match LoaderParse(TrimPrefix(kv.key, PEERS))
    case None => loaded
    case Some(p) =>
      var e := EntryOr(loaded, p.pubkey);
      match LoaderField(p.fieldPath)
      case None => loaded[p.pubkey := e]
      case Some(f) => loaded[p.pubkey := WithField(e, f, kv.value)]
  }

  function LoadAll(kvs: seq<KV>): CacheView {
    if kvs == [] then map[] else LoadStep(LoadAll(kvs[..|kvs| - 1]), kvs[|kvs| - 1])
  }

  // ---- What a load finds

  ghost predicate PeerKVs(kvs: seq<KV>) {
    forall i :: 0 <= i < |kvs| ==> IsPrinted(kvs[i].key)
  }

  function TextOr(value: Option<string>): string {
    if value.Some? then value.value else ""
  }

  predicate SameButEndpoints(a: Entry, b: Entry) {
    a.pubKey == b.pubKey && a.wgIP == b.wgIP && a.dirty == b.dirty
  }

  /**
    The step of a printed key: its own field if the parser reads it, else an entry under a shorter name
    or nothing.
   */
  lemma StepOfPrintedKey(loaded: CacheView, k: string, f: Field, value: string)
    requires IsPubkey(k)
    ensures var after := LoadStep(loaded, KV(PeerKey(k, f), value));
            if LoaderReads(k, f) then after == loaded[k := WithField(EntryOr(loaded, k), f, value)]
            else after == loaded
                 || exists l, e :: |l| < 44 && after == loaded[l := e] && SameButEndpoints(e, EntryOr(loaded, l))
  {
    hide LoaderParse, LoaderField, IsPubkey, LoaderReads;
    PubkeyShape(k);
    TrimPeers(k, f);
    LoaderParseExact(k, f);
    LoaderFieldOfPath(f);
    var parsed := LoaderParse(RelativeKey(k, f));
    if LoaderReads(k, f) {
      assert parsed == Some(Parsed(k, FieldPath(f)));
    } else if parsed.Some? {
      var p := parsed.value;
      FieldAfterWrongCut(k, f);
      var l := p.pubkey;
      var g := LoaderField(p.fieldPath);
      var e := if g.None? then EntryOr(loaded, l) else WithField(EntryOr(loaded, l), g.value, value);
      assert |l| < 44 && SameButEndpoints(e, EntryOr(loaded, l));
      assert LoadStep(loaded, KV(PeerKey(k, f), value)) == loaded[l := e];
    }
  }

  /** A wrong cut leaves "alias..." or "endpoints...", never a wg_ip field. */
  lemma FieldAfterWrongCut(k: string, f: Field)
    requires KeyShape(k) && !LoaderReads(k, f) && LoaderParse(RelativeKey(k, f)).Some?
    ensures LoaderField(LoaderParse(RelativeKey(k, f)).value.fieldPath) != Some(WgIp)
  {
    hide KeyShape, FoundAt, RelativeKey;
    LoaderIndices(k, f);
    var s, path := RelativeKey(k, f), LoaderParse(RelativeKey(k, f)).value.fieldPath;
    assert Index(s, "/wg_ip") == -1;
    if Index(s, "/alias") != -1 {
      OccurrenceChars(s, "/alias", Index(s, "/alias"), Index(s, "/alias") + 1);
    } else {
      OccurrenceChars(s, "/endpoints/", Index(s, "/endpoints/"), Index(s, "/endpoints/") + 1);
    }
    assert path[0] == 'a' || path[0] == 'e';
    FirstComponent(path);
    assert "wg_ip"[0] == 'w';
  }

  lemma FirstComponent(path: string)
    requires path != "" && path[0] != '/'
    ensures Split(path, '/')[0] != "" && Split(path, '/')[0][0] == path[0]
  {
  }

  // ---- The result of a load

  /** Some stored field of the peer is readable. */
  ghost predicate Loadable(store: Store, k: string) {
    exists f :: LoaderReads(k, f) && PeerKey(k, f) in store
  }

  function LoadedText(store: Store, k: string, f: Field): string {
    if LoaderReads(k, f) then TextOr(Lookup(store, PeerKey(k, f))) else ""
  }

  ghost predicate LoadedKeys(store: Store, loaded: CacheView) {
    forall k :: IsPubkey(k) ==> (k in loaded <==> Loadable(store, k))
  }

  ghost predicate LoadedFields(store: Store, loaded: CacheView) {
    forall k, f :: IsPubkey(k) && f != Alias ==> EntryField(EntryOr(loaded, k), f) == LoadedText(store, k, f)
  }

  ghost predicate LoadedEntries(loaded: CacheView) {
    forall k :: k in loaded ==>
      loaded[k].pubKey == k && !loaded[k].dirty && (IsPubkey(k) || (|k| < 44 && loaded[k].wgIP == ""))
  }

  /**
    What a load of a store holds: a key is there when one of its readable fields is stored, each
    readable field has its stored text, and what a wrong cut adds is shorter than a key and has no address.
   */
  ghost predicate LoadResult(store: Store, loaded: CacheView) {
    LoadedKeys(store, loaded) && LoadedFields(store, loaded) && LoadedEntries(loaded)
  }

  /** The part of an enumeration read so far, as a store. */
  function StoreOf(kvs: seq<KV>): Store {
    if kvs == [] then map[] else StoreOf(kvs[..|kvs| - 1])[kvs[|kvs| - 1].key := kvs[|kvs| - 1].value]
  }

  /** A step under a short name changes nothing that a load must get right. */
  lemma ShortStepResult(store: Store, loaded: CacheView, l: string, e: Entry)
    requires LoadResult(store, loaded) && |l| < 44 && SameButEndpoints(e, EntryOr(loaded, l))
    ensures LoadResult(store, loaded[l := e])
  {
    hide PeerKey, LoaderReads, IsPubkey, Loadable;
    forall k | IsPubkey(k) ensures k != l { PubkeyShape(k); }
  }

  lemma OtherLookups(store: Store, k: string, f: Field, value: string, l: string, g: Field)
    requires l != k || g != f
    ensures Lookup(store[PeerKey(k, f) := value], PeerKey(l, g)) == Lookup(store, PeerKey(l, g))
  {
    if PeerKey(l, g) == PeerKey(k, f) { PeerKeyInjective(l, g, k, f); }
  }

  lemma LoadableAfter(store: Store, k: string, f: Field, value: string, l: string)
    ensures Loadable(store[PeerKey(k, f) := value], l) <==> Loadable(store, l) || (l == k && LoaderReads(k, f))
  {
    hide PeerKey, LoaderReads;
    var after := store[PeerKey(k, f) := value];
    forall g | l != k || g != f
      ensures PeerKey(l, g) in after <==> PeerKey(l, g) in store
    {
      OtherLookups(store, k, f, value, l, g);
      assert PeerKey(l, g) in after <==> Lookup(after, PeerKey(l, g)).Some?;
      assert PeerKey(l, g) in store <==> Lookup(store, PeerKey(l, g)).Some?;
    }
  }

  lemma UnreadStepResult(store: Store, loaded: CacheView, k: string, f: Field, value: string)
    requires LoadResult(store, loaded) && !LoaderReads(k, f)
    ensures LoadResult(store[PeerKey(k, f) := value], loaded)
  {
    hide PeerKey, LoaderReads, IsPubkey, Loadable;
    forall l { LoadableAfter(store, k, f, value, l); }
    forall l, g ensures LoadedText(store[PeerKey(k, f) := value], l, g) == LoadedText(store, l, g) {
      if l != k || g != f { OtherLookups(store, k, f, value, l, g); }
    }
  }

  lemma ReadFields(k: string, f: Field)
    requires LoaderReads(k, f)
    ensures f == WgIp || f == Alias || f == Lan || f == Nated
  {
  }

  lemma ReadStepResult(store: Store, loaded: CacheView, k: string, f: Field, value: string)
    requires IsPubkey(k) && LoadResult(store, loaded) && LoaderReads(k, f)
    ensures LoadResult(store[PeerKey(k, f) := value], loaded[k := WithField(EntryOr(loaded, k), f, value)])
  {
    hide PeerKey, LoaderReads, IsPubkey, Loadable;
    var after := store[PeerKey(k, f) := value];
    var next := loaded[k := WithField(EntryOr(loaded, k), f, value)];
    ReadFields(k, f);
    forall l { LoadableAfter(store, k, f, value, l); }
    forall l, g | IsPubkey(l) && g != Alias
      ensures EntryField(EntryOr(next, l), g) == LoadedText(after, l, g)
    {
      assert EntryField(EntryOr(loaded, l), g) == LoadedText(store, l, g);
      if l != k || g != f { OtherLookups(store, k, f, value, l, g); }
    }
  }

  lemma LoadStepResult(store: Store, loaded: CacheView, k: string, f: Field, value: string)
    requires IsPubkey(k) && LoadResult(store, loaded)
    ensures LoadResult(store[PeerKey(k, f) := value], LoadStep(loaded, KV(PeerKey(k, f), value)))
  {
    hide PeerKey, LoaderReads, IsPubkey, LoadStep, LoadResult;
    StepOfPrintedKey(loaded, k, f, value);
    if LoaderReads(k, f) {
      ReadStepResult(store, loaded, k, f, value);
    } else {
      UnreadStepResult(store, loaded, k, f, value);
      if LoadStep(loaded, KV(PeerKey(k, f), value)) == loaded { return; }
      var l, e :| |l| < 44 && LoadStep(loaded, KV(PeerKey(k, f), value)) == loaded[l := e]
        && SameButEndpoints(e, EntryOr(loaded, l));
      ShortStepResult(store[PeerKey(k, f) := value], loaded, l, e);
    }
  }

  lemma {:induction false} LoadAllResult(kvs: seq<KV>)
    requires PeerKVs(kvs)
    ensures LoadResult(StoreOf(kvs), LoadAll(kvs))
  {
    if kvs != [] {
      var kv := kvs[|kvs| - 1];
      LoadAllResult(kvs[..|kvs| - 1]);
      var k, f :| IsPubkey(k) && kv.key == PeerKey(k, f);
      LoadStepResult(StoreOf(kvs[..|kvs| - 1]), LoadAll(kvs[..|kvs| - 1]), k, f, kv.value);
      assert kv == KV(PeerKey(k, f), kv.value);
    }
  }

  lemma {:induction false} StoreOfLookup(kvs: seq<KV>, key: string)
    requires forall i, j :: 0 <= i < j < |kvs| ==> kvs[i].key != kvs[j].key
    ensures key in StoreOf(kvs) <==> exists i :: 0 <= i < |kvs| && kvs[i].key == key
    ensures forall i :: 0 <= i < |kvs| && kvs[i].key == key ==> StoreOf(kvs)[key] == kvs[i].value
  {
    if kvs != [] {
      var n := |kvs| - 1;
      StoreOfLookup(kvs[..n], key);
      assert kvs[n] == kvs[|kvs| - 1];
    }
  }

  lemma EnumerationLookup(kvs: seq<KV>, store: Store, prefix: string, key: string)
    requires Enumerates(kvs, store, prefix) && HasPrefix(key, prefix)
    ensures Lookup(StoreOf(kvs), key) == Lookup(store, key)
  {
    StoreOfLookup(kvs, key);
  }

  lemma PeerKeyHasPrefix(k: string, f: Field)
    ensures HasPrefix(PeerKey(k, f), PEERS)
  {
    TrimPeers(k, f);
  }

  lemma EnumeratedPeers(kvs: seq<KV>, store: Store)
    requires HoldsPeers(store) && Enumerates(kvs, store, PEERS)
    ensures PeerKVs(kvs)
  {
    forall i | 0 <= i < |kvs|
      ensures IsPrinted(kvs[i].key)
    {
      assert kvs[i].key in store && HasPrefix(kvs[i].key, PEERS);
    }
  }

  /** The readable ones of the stored texts, spelled out, and nothing from the cache's own bookkeeping. */
  ghost predicate HasLoaded(store: Store, k: string, e: Entry) {
    var prefix := "/valon/peers/" + k;
    && e.pubKey == k && !e.dirty
    && e.wgIP == TextOr(Lookup(store, prefix + "/wg_ip"))
    && e.lanEndpoint == (if LoaderReads(k, Lan) then TextOr(Lookup(store, prefix + "/endpoints/lan")) else "")
    && e.natEndpoint == (if LoaderReads(k, Nated) then TextOr(Lookup(store, prefix + "/endpoints/nated")) else "")
  }

  lemma LoadedTexts(store: Store, loaded: CacheView, k: string)
    requires LoadResult(store, loaded) && IsPubkey(k) && k in loaded
    ensures HasLoaded(store, k, loaded[k])
  {
    hide PeerKey, IsPubkey;
    KeyTexts(k);
    assert EntryField(EntryOr(loaded, k), WgIp) == LoadedText(store, k, WgIp);
    assert EntryField(EntryOr(loaded, k), Lan) == LoadedText(store, k, Lan);
    assert EntryField(EntryOr(loaded, k), Nated) == LoadedText(store, k, Nated);
    assert LoaderReads(k, WgIp);
    hide LoaderReads;
  }

  /** Whatever order etcd answers in, a load holds what the store holds. */
  lemma LoadFromStore(kvs: seq<KV>, store: Store)
    requires HoldsPeers(store) && Enumerates(kvs, store, PEERS)
    ensures LoadResult(store, LoadAll(kvs))
    ensures forall k :: k in LoadAll(kvs) && IsPubkey(k) ==> HasLoaded(store, k, LoadAll(kvs)[k])
  {
    hide StoreOf, LoadAll, Enumerates, LoadResult, HasPrefix, HoldsPeers, PeerKVs, IsPubkey, HasLoaded;
    EnumeratedPeers(kvs, store);
    LoadAllResult(kvs);
    forall k, f
      ensures Lookup(StoreOf(kvs), PeerKey(k, f)) == Lookup(store, PeerKey(k, f))
    {
      PeerKeyHasPrefix(k, f);
      EnumerationLookup(kvs, store, PEERS, PeerKey(k, f));
    }
    SameFieldsSameLoad(StoreOf(kvs), store, LoadAll(kvs));
    forall k | k in LoadAll(kvs) && IsPubkey(k) ensures HasLoaded(store, k, LoadAll(kvs)[k]) {
      LoadedTexts(store, LoadAll(kvs), k);
    }
  }

  lemma LoadExists(store: Store)
    requires HoldsPeers(store)
    ensures exists loaded :: LoadResult(store, loaded)
  {
    hide LoadAll, Enumerates, LoadResult, HoldsPeers;
    EnumerationExists(store, PEERS);
    var kvs :| Enumerates(kvs, store, PEERS);
    LoadFromStore(kvs, store);
  }

  lemma SameFieldsSameLoad(a: Store, b: Store, loaded: CacheView)
    requires forall k, f :: Lookup(a, PeerKey(k, f)) == Lookup(b, PeerKey(k, f))
    requires LoadResult(a, loaded)
    ensures LoadResult(b, loaded)
  {
    hide PeerKey, LoaderReads, IsPubkey, Loadable;
    forall k { SameLoadable(a, b, k); }
    assert forall k, f :: LoadedText(a, k, f) == LoadedText(b, k, f);
  }

  lemma SameLoadable(a: Store, b: Store, k: string)
    requires forall f :: Lookup(a, PeerKey(k, f)) == Lookup(b, PeerKey(k, f))
    ensures Loadable(a, k) <==> Loadable(b, k)
  {
    hide PeerKey, LoaderReads;
    forall f ensures PeerKey(k, f) in a <==> PeerKey(k, f) in b {
      assert Lookup(a, PeerKey(k, f)) == Lookup(b, PeerKey(k, f));
    }
  }

  lemma SyncKeepsPeers(cache: CacheView, store: Store, failed: set<string>, after: Store)
    requires HoldsPeers(store) && SyncResult(cache, store, failed, after)
    requires forall k :: k in cache && cache[k].dirty ==> IsPubkey(k)
    ensures HoldsPeers(after)
  {
    hide HasPrefix, PeerKey, IsPubkey;
    forall key | key in after && HasPrefix(key, PEERS)
      ensures IsPrinted(key)
    {
      assert (forall k, f :: key != PeerKey(k, f)) ==> Lookup(after, key) == Lookup(store, key);
      if key in store {
      } else if k, f :| key == PeerKey(k, f) {
        assert Lookup(after, PeerKey(k, f)) == SyncedField(cache, store, failed, k, f);
      }
    }
  }

  /** The field of a peer after a crash: the cached value if it was dirty and non-empty, else the stored one. */
  function RecoveredField(cache: CacheView, store: Store, k: string, f: Field): string {
    if k in cache && cache[k].dirty && EntryField(cache[k], f) != "" then EntryField(cache[k], f)
    else TextOr(Lookup(store, PeerKey(k, f)))
  }

  /**
    Crash recovery is a field-wise merge: a sync pass without failures, a crash, and a load, in any
    order of the map and of the etcd answer, give back each peer's fields, for every key whose
    field the parser can read, and read as empty exactly the fields it cannot.
   */
  lemma CrashRecovery(cache: CacheView, store: Store, after: Store, kvs: seq<KV>, k: string, f: Field)
    requires HoldsPeers(store) && forall l :: l in cache && cache[l].dirty ==> IsPubkey(l)
    requires SyncResult(cache, store, {}, after) && Enumerates(kvs, after, PEERS)
    requires IsPubkey(k) && f != Alias
    ensures EntryField(EntryOr(LoadAll(kvs), k), f)
            == if LoaderReads(k, f) then RecoveredField(cache, store, k, f) else ""
  {
    hide PeerKey, LoaderReads, IsPubkey, HasPrefix, LoadAll;
    SyncKeepsPeers(cache, store, {}, after);
    LoadFromStore(kvs, after);
    assert Lookup(after, PeerKey(k, f)) == SyncedField(cache, store, {}, k, f);
  }
}
