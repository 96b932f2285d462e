/** etcd as a string map: atomic writes, prefix reads and prefix deletes. */
module Etcd {
  import opened Options
  import opened Text
  import opened Labels
  import opened PeerKeys

  type Store = map<string, string>

  datatype KV = KV(key: string, value: string)

  function WithoutPrefix(store: Store, prefix: string): Store {
    map key | key in store && !HasPrefix(key, prefix) :: store[key]
  }

  /** The answer to a prefix read: each matching key once, in any order. */
  ghost predicate Enumerates(kvs: seq<KV>, store: Store, prefix: string) {
    && (forall i :: 0 <= i < |kvs| ==>
        kvs[i].key in store && HasPrefix(kvs[i].key, prefix) && kvs[i].value == store[kvs[i].key])
    && (forall i, j :: 0 <= i < j < |kvs| ==> kvs[i].key != kvs[j].key)
    && (forall key :: key in store && HasPrefix(key, prefix) ==> exists i :: 0 <= i < |kvs| && kvs[i].key == key)
  }

  /** A prefix read has an answer. */
  lemma {:induction false} EnumerationExists(store: Store, prefix: string)
    ensures exists kvs :: Enumerates(kvs, store, prefix)
    decreases store.Keys
  {
    hide HasPrefix;
    if store.Keys == {} {
      assert Enumerates([], store, prefix);
    } else {
      var key :| key in store;
      EnumerationExists(store - {key}, prefix);
      var rest :| Enumerates(rest, store - {key}, prefix);
      if HasPrefix(key, prefix) {
        var kvs := rest + [KV(key, store[key])];
        assert kvs[|rest|].key == key && forall i :: 0 <= i < |rest| ==> kvs[i] == rest[i];
        assert Enumerates(kvs, store, prefix);
      } else {
        assert Enumerates(rest, store, prefix);
      }
    }
  }

  class EtcdServer {
    var kvs: Store

    constructor ()
      ensures kvs == map[]
    {
      kvs := map[];
    }

    /** A write that may fail, and then leaves the store alone. */
    method Put(key: string, value: string, ok: bool)
      modifies this
      ensures kvs == if ok then old(kvs)[key := value] else old(kvs)
    {
      if ok {
        kvs := kvs[key := value];
      }
    }

    method Get(key: string) returns (value: Option<string>)
      ensures value == Lookup(kvs, key)
    {
      value := Lookup(kvs, key);
    }

    method GetPrefix(prefix: string) returns (found: seq<KV>)
      ensures Enumerates(found, kvs, prefix)
    {
      var left := kvs.Keys;
      found := [];
      while left != {}
        invariant left <= kvs.Keys
        invariant forall i :: 0 <= i < |found| ==>
          found[i].key in kvs && found[i].key !in left && HasPrefix(found[i].key, prefix)
            && found[i].value == kvs[found[i].key]
        invariant forall i, j :: 0 <= i < j < |found| ==> found[i].key != found[j].key
        invariant forall key :: key in kvs && key !in left && HasPrefix(key, prefix) ==>
          exists i :: 0 <= i < |found| && found[i].key == key
        decreases left
      {
        var key :| key in left;
        ghost var before := found;
        if HasPrefix(key, prefix) {
          found := found + [KV(key, kvs[key])];
          assert found[|before|].key == key;
        }
        assert forall i :: 0 <= i < |before| ==> found[i] == before[i];
        left := left - {key};
      }
    }

    method Delete(key: string)
      modifies this
      ensures kvs == old(kvs) - {key}
    {
      kvs := kvs - {key};
    }

    method DeletePrefix(prefix: string)
      modifies this
      ensures kvs == WithoutPrefix(old(kvs), prefix)
    {
      kvs := WithoutPrefix(kvs, prefix);
    }
  }

  // ---- Stores that hold peers

  /** The key is one that a writer prints for some WireGuard key. */
  ghost predicate IsPrinted(key: string) {
    exists k, f :: IsPubkey(k) && key == PeerKey(k, f)
  }

  /** Every key under the peers directory belongs to a WireGuard key and a known field. */
  ghost predicate HoldsPeers(store: Store) {
    forall key :: key in store && HasPrefix(key, PEERS) ==> IsPrinted(key)
  }

  /** No printed key of one peer starts like another peer's. */
  lemma PrefixIdentifiesKey(k: string, l: string, f: Field)
    requires KeyShape(k) && KeyShape(l)
    ensures HasPrefix(PeerKey(l, f), PEERS + k) <==> k == l
  {
    var s := PeerKey(l, f);
    assert s == (PEERS + l) + ("/" + FieldPath(f));
    assert s[0..57] == PEERS + l;
    if HasPrefix(s, PEERS + k) {
      assert s[0..57] == PEERS + k;
      PrefixConcat(PEERS, k);
      PrefixConcat(PEERS, l);
    }
  }

  /**
    valonctl's prefix delete, which has no trailing slash, removes every key of the peer and nothing else.
   */
  lemma PrefixDeleteExact(store: Store, k: string)
    requires HoldsPeers(store) && IsPubkey(k) && Intact(k)
    ensures var left := WithoutPrefix(store, CtlPeerPrefix(k));
            && HoldsPeers(left)
            && (forall l, f :: IsPubkey(l) ==>
                  Lookup(left, PeerKey(l, f)) == if l == k then None else Lookup(store, PeerKey(l, f)))
            && (forall key :: !HasPrefix(key, PEERS) ==> Lookup(left, key) == Lookup(store, key))
  {
    hide CtlPeerPrefix, PeerKey, IsPubkey, HasPrefix, Intact;
    PubkeyShape(k);
    PrinterPrefixesAgreeIff(k);
    var left := WithoutPrefix(store, CtlPeerPrefix(k));
    forall l, f | IsPubkey(l)
      ensures Lookup(left, PeerKey(l, f)) == if l == k then None else Lookup(store, PeerKey(l, f))
    {
      PubkeyShape(l);
      PrefixIdentifiesKey(k, l, f);
    }
    forall key | !HasPrefix(key, PEERS)
      ensures Lookup(left, key) == Lookup(store, key)
    {
      if HasPrefix(key, PEERS + k) {
        PrefixOfPrefix(key, PEERS, k);
      }
    }
  }

  lemma PrefixOfPrefix(s: string, a: string, b: string)
    requires HasPrefix(s, a + b)
    ensures HasPrefix(s, a)
  {
    assert s[0..|a|] == s[0..|a + b|][0..|a|];
  }
}
