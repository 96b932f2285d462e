/** The alias registry: one alias names one peer, over whole runs. */
module Registry {
  import opened Options
  import opened Text
  import opened Labels
  import opened PeerKeys
  import opened Aliases
  import opened Cache
  import opened Etcd
  import opened EtcdSync
  import opened Startup
  import opened WgMonitor
  import opened Ddns
  import opened EtcdClient
  import opened System

  /** Each peer's alias field points to an alias entry that points back. */
  ghost predicate AliasesPointBack(store: Store) {
    forall k :: PeerKey(k, Alias) in store ==> Lookup(store, AliasKey(store[PeerKey(k, Alias)])) == Some(k)
  }

  /** No alias field points to this etcd key. */
  ghost predicate NoFieldAt(store: Store, key: string) {
    forall k :: PeerKey(k, Alias) in store ==> AliasKey(store[PeerKey(k, Alias)]) != key
  }

  /** While a remove runs, its alias is the removed peer's, and between its two deletes no field has it. */
  ghost predicate RemovedAliasOwned(s: State) {
    s.cmd.Removing? && s.cmd.stage != DeviceDone ==>
      && (ProperPath(s.cmd.alias) ==> Lookup(s.store, AliasKey(s.cmd.alias)) == Some(s.cmd.k))
      && (s.cmd.stage == KeysDone ==> Lookup(s.store, PeerKey(s.cmd.k, Alias)) != Some(s.cmd.alias))
  }

  ghost predicate RegistryHolds(s: State) {
    AliasesPointBack(s.store) && RemovedAliasOwned(s)
  }

  predicate FreeOrOwn(store: Store, k: string, alias: string) {
    AliasKey(alias) in store ==> store[AliasKey(alias)] == k
  }

  /** The registration comes from the removed peer, between the two deletes, and names the alias to be deleted. */
  predicate BetweenDeletes(s: State, k: string, alias: string, fieldOk: bool) {
    s.cmd.Removing? && s.cmd.stage == KeysDone && k == s.cmd.k && alias == s.cmd.alias && fieldOk
  }

  /**
    The runs in question. A registration names an alias that is free or the peer's own, leaves no field
    without its entry, and does not bring a removed alias back between the two deletes. No peer's alias is
    spelled like the key of a remove that reaches its cache step, and an alias that is no proper path is not
    deleted under a fielded name. Failed steps and restarts may fall anywhere.
   */
  ghost predicate FairToAliases(s: State, ev: Event) {
    match ev
    case DdnsUpdate(_, k, _, alias, aliasOk, fieldOk) =>
      alias == "" || (FreeOrOwn(s.store, k, alias) && (fieldOk ==> aliasOk || AliasKey(alias) in s.store)
                      && !BetweenDeletes(s, k, alias, fieldOk))
    case RemoveCache(ok) =>
      s.cmd.Removing? && ok ==> NoFieldAt(s.store, AliasKey(s.cmd.k)) && s.cmd.alias != s.cmd.k
    case RemoveAlias => s.cmd.Removing? ==> ProperPath(s.cmd.alias) || NoFieldAt(s.store, CtlAliasKey(s.cmd.alias))
    case _ => true
  }

  lemma PointBack(store: Store, k: string)
    requires AliasesPointBack(store) && PeerKey(k, Alias) in store
    ensures AliasKey(store[PeerKey(k, Alias)]) in store && store[AliasKey(store[PeerKey(k, Alias)])] == k
  {
    assert Lookup(store, AliasKey(store[PeerKey(k, Alias)])) == Some(k);
  }

  /** Hence no two peers share an alias. */
  lemma AliasesDistinct(store: Store, k: string, l: string)
    requires AliasesPointBack(store) && PeerKey(k, Alias) in store && PeerKey(l, Alias) in store
    requires store[PeerKey(k, Alias)] == store[PeerKey(l, Alias)]
    ensures k == l
  {
    PointBack(store, k);
    PointBack(store, l);
  }

  // ---- Writes and deletes of alias entries

  lemma KeyFamiliesApart()
    ensures forall k, f, a :: PeerKey(k, f) != AliasKey(a)
    ensures forall k, l :: PeerKey(k, Alias) == PeerKey(l, Alias) ==> k == l
    ensures forall k, l :: PeerKey(k, Alias) != PeerKey(l, WgIp)
    ensures forall a, b :: AliasKey(a) == AliasKey(b) ==> a == b
  {
    hide PeerKey, AliasKey;
    forall k, f, a { PeerKeyIsNoAliasKey(k, f, a); }
    forall k, l ensures PeerKey(k, Alias) == PeerKey(l, Alias) ==> k == l {
      if PeerKey(k, Alias) == PeerKey(l, Alias) { PeerKeyInjective(k, Alias, l, Alias); }
    }
    forall k, l ensures PeerKey(k, Alias) != PeerKey(l, WgIp) {
      if PeerKey(k, Alias) == PeerKey(l, WgIp) { PeerKeyInjective(k, Alias, l, WgIp); }
    }
    forall a, b ensures AliasKey(a) == AliasKey(b) ==> a == b {
      if AliasKey(a) == AliasKey(b) { AliasKeyInjective(a, b); }
    }
  }

  lemma RegisterKeeps(store: Store, k: string, alias: string, aliasOk: bool, fieldOk: bool)
    requires AliasesPointBack(store)
    requires alias == "" || (FreeOrOwn(store, k, alias) && (fieldOk ==> aliasOk || AliasKey(alias) in store))
    ensures var after := AliasWritten(store, k, alias, aliasOk, fieldOk);
            && AliasesPointBack(after)
            && (forall a, l :: Lookup(store, AliasKey(a)) == Some(l) ==> Lookup(after, AliasKey(a)) == Some(l))
            && (forall l :: Lookup(after, PeerKey(l, Alias)) == Lookup(store, PeerKey(l, Alias))
                            || (l == k && fieldOk && Lookup(after, PeerKey(l, Alias)) == Some(alias)))
  {
    hide PeerKey, AliasKey, PubkeyToDnsLabel;
    KeyFamiliesApart();
  }

  lemma AddKeeps(store: Store, k: string, ip: string, alias: string)
    requires AliasesPointBack(store) && AddArguments(k, ip, alias) && CtlAliasKey(alias) !in store
    ensures AliasesPointBack(AddedPeer(store, k, ip, alias))
  {
    hide PeerKey, AliasKey, CtlAliasKey, AddedPeer, IsPubkey, Intact, Accepted;
    AddedPeerKeys(store, k, ip, alias);
    KeyFamiliesApart();
  }

  lemma SyncKeepsAliases(cache: CacheView, store: Store, failed: set<string>, after: Store)
    requires SyncResult(cache, store, failed, after)
    ensures forall k :: Lookup(after, PeerKey(k, Alias)) == Lookup(store, PeerKey(k, Alias))
    ensures forall a :: Lookup(after, AliasKey(a)) == Lookup(store, AliasKey(a))
  {
    hide PeerKey, AliasKey;
    forall k ensures Lookup(after, PeerKey(k, Alias)) == Lookup(store, PeerKey(k, Alias)) {
      assert Lookup(after, PeerKey(k, Alias)) == SyncedField(cache, store, failed, k, Alias);
    }
    forall a ensures Lookup(after, AliasKey(a)) == Lookup(store, AliasKey(a)) {
      forall k, f { PeerKeyIsNoAliasKey(k, f, a); }
    }
  }

  lemma SameAliasKeys(store: Store, after: Store)
    requires AliasesPointBack(store)
    requires forall k :: PeerKey(k, Alias) in after ==>
             Lookup(after, PeerKey(k, Alias)) == Lookup(store, PeerKey(k, Alias))
    requires forall a :: Lookup(after, AliasKey(a)) == Lookup(store, AliasKey(a))
    ensures AliasesPointBack(after)
  {
    hide PeerKey, AliasKey;
    forall k | PeerKey(k, Alias) in after
      ensures Lookup(after, AliasKey(after[PeerKey(k, Alias)])) == Some(k)
    {
      PointBack(store, k);
    }
  }

  // ---- The steps

  lemma PluginKeepsRegistry(c: Config, s: State, ev: Event, t: State)
    requires RegistryHolds(s) && PluginStep(c, s, ev, t) && FairToAliases(s, ev)
    ensures RegistryHolds(t)
  {
    hide PeerKey, AliasKey, Polled, SyncResult, AliasWritten, RestartResult, ValidLan, AliasesPointBack, ProperPath;
    match ev
    case Poll(_, _) =>
    case Sync(failed) =>
      SyncKeepsAliases(s.cache, s.store, failed, t.store);
      SameAliasKeys(s.store, t.store);
    case DdnsUpdate(_, k, _, alias, aliasOk, fieldOk) =>
      RegisterKeeps(s.store, k, alias, aliasOk, fieldOk);
      NoAliasNoWrite(s.store, k, alias, aliasOk, fieldOk);
    case Restart(_, _) =>
  }

  lemma NoAliasNoWrite(store: Store, k: string, alias: string, aliasOk: bool, fieldOk: bool)
    ensures alias == "" ==> AliasWritten(store, k, alias, aliasOk, fieldOk) == store
  {
  }

  lemma AddKeepsRegistry(s: State, ev: Event, t: State)
    requires Sane(s) && RegistryHolds(s) && AddStep(s, ev, t)
    ensures RegistryHolds(t)
  {
    hide HoldsPeers, CacheSane, DeviceSane, AddArguments, AliasesPointBack, AddedPeer, CtlAliasKey;
    if ev.AddCommit? { AddKeeps(s.store, s.cmd.k, s.cmd.ip, s.cmd.alias); }
  }

  /** RemovePeer's reading yields an alias of the removed peer. */
  lemma ResolveReadsOwnAlias(s: State, arg: string, alias: string)
    requires Sane(s) && AliasesPointBack(s.store) && s.cmd.Removing?
    requires Classify(s.store, arg) == Some(Target(s.cmd.k, alias)) && ProperPath(alias)
    ensures Lookup(s.store, AliasKey(alias)) == Some(s.cmd.k)
  {
    hide PeerKey, AliasKey, CtlPeerKey, CtlAliasKey, HoldsPeers, CacheSane, DeviceSane, Intact, ProperPath;
    if LooksLikePubkey(arg) {
      PubkeyShape(arg);
      CtlPeerKeyAgrees(arg, Alias);
      PointBack(s.store, arg);
    } else {
      CtlAliasKeyAgreesIff(arg);
    }
  }

  lemma RemoveKeepsRegistry(s: State, ev: Event, t: State)
    requires Sane(s) && RegistryHolds(s) && RemoveStep(s, ev, t) && FairToAliases(s, ev)
    ensures RegistryHolds(t)
  {
    hide PeerKey, AliasKey, CtlAliasKey, CtlPeerPrefix, Classify, WithoutPrefix, HoldsPeers, CacheSane, DeviceSane,
      IsPubkey, Intact, HasFields, ProperPath, NoFieldAt, AliasesPointBack;
    match ev
    case RemoveResolve(arg, alias) => if ProperPath(alias) { ResolveReadsOwnAlias(s, arg, alias); }
    case RemoveCache(ok) =>
      RemoveCacheKeepsIff(s, ok, t);
      if AliasKey(s.cmd.alias) == AliasKey(s.cmd.k) { AliasKeyInjective(s.cmd.alias, s.cmd.k); }
    case RemoveKeys => PeerDeleteKeepsAliases(s.store, s.cmd.k);
    case RemoveAlias => AliasDeleteKeeps(s, t);
    case _ =>
  }

  lemma PeerDeleteKeepsAliases(store: Store, k: string)
    requires HoldsPeers(store) && IsPubkey(k) && Intact(k) && AliasesPointBack(store)
    ensures var after := WithoutPrefix(store, CtlPeerPrefix(k));
            AliasesPointBack(after) && Lookup(after, PeerKey(k, Alias)) == None
            && forall a :: Lookup(after, AliasKey(a)) == Lookup(store, AliasKey(a))
  {
    hide PeerKey, AliasKey, CtlPeerPrefix, IsPubkey, Intact, HoldsPeers, WithoutPrefix;
    PrefixDeleteExact(store, k);
    var after := WithoutPrefix(store, CtlPeerPrefix(k));
    forall a { AliasKeyOutside(a); }
    forall l | PeerKey(l, Alias) in after ensures Lookup(after, PeerKey(l, Alias)) == Lookup(store, PeerKey(l, Alias)) {
      LeftOverIsPubkey(store, k, l);
    }
    SameAliasKeys(store, after);
  }

  lemma LeftOverIsPubkey(store: Store, k: string, l: string)
    requires HoldsPeers(store) && PeerKey(l, Alias) in WithoutPrefix(store, CtlPeerPrefix(k))
    ensures IsPubkey(l)
  {
    hide PeerKey, IsPubkey, HasPrefix, CtlPeerPrefix;
    TrimPeers(l, Alias);
    assert IsPrinted(PeerKey(l, Alias));
    var m, f :| IsPubkey(m) && PeerKey(l, Alias) == PeerKey(m, f);
    PeerKeyInjective(l, Alias, m, f);
  }

  lemma AliasDeleteKeeps(s: State, t: State)
    requires RegistryHolds(s) && RemoveStep(s, RemoveAlias, t) && FairToAliases(s, RemoveAlias)
    ensures AliasesPointBack(t.store)
  {
    hide PeerKey, AliasKey, CtlAliasKey, ProperPath;
    RemoveAliasKeepsIff(s, t);
  }

  lemma StepKeepsRegistry(c: Config, s: State, ev: Event, t: State)
    requires Sane(s) && RegistryHolds(s) && Step(c, s, ev, t) && FairToAliases(s, ev)
    ensures RegistryHolds(t)
  {
    hide Sane, RegistryHolds, AddStep, RemoveStep, PluginStep, FairToAliases;
    if AddStep(s, ev, t) {
      AddKeepsRegistry(s, ev, t);
    } else if RemoveStep(s, ev, t) {
      RemoveKeepsRegistry(s, ev, t);
    } else {
      PluginKeepsRegistry(c, s, ev, t);
    }
  }

  /** In every fair run, every alias field points to an entry that points back. */
  lemma {:induction false} RegistryInvariant(c: Config, states: seq<State>, events: seq<Event>, n: nat)
    requires Run(c, states, events) && IsPubkey(c.self) && n < |states|
    requires Sane(states[0]) && RegistryHolds(states[0])
    requires forall i :: 0 <= i < |events| ==> FairToAliases(states[i], events[i])
    ensures Sane(states[n]) && RegistryHolds(states[n])
  {
    hide Sane, RegistryHolds, Step, IsPubkey, FairToAliases;
    if n > 0 {
      RegistryInvariant(c, states, events, n - 1);
      StepKeepsSane(c, states[n - 1], events[n - 1], states[n]);
      assert FairToAliases(states[n - 1], events[n - 1]);
      StepKeepsRegistry(c, states[n - 1], events[n - 1], states[n]);
    }
  }

  // ---- Which alias entries a remove takes away

  /**
    Exactly two steps of a remove delete an alias entry: the cache step the one named like the removed
    key, and the last step the one at valonctl's key for the alias.
   */
  lemma RemoveTouchesIff(s: State, ev: Event, t: State, a: string)
    requires Sane(s) && RemoveStep(s, ev, t) && AliasKey(a) in s.store
    ensures Lookup(t.store, AliasKey(a)) == Lookup(s.store, AliasKey(a))
            <==> !(ev.RemoveCache? && ev.ok && a == s.cmd.k)
                 && !(ev.RemoveAlias? && CtlAliasKey(s.cmd.alias) == AliasKey(a))
  {
    hide PeerKey, AliasKey, CtlAliasKey, CtlPeerPrefix, Classify, HoldsPeers, CacheSane, DeviceSane, IsPubkey, Intact,
      HasFields, HasPrefix, WithoutPrefix;
    match ev
    case RemoveCache(_) => if AliasKey(a) == AliasKey(s.cmd.k) { AliasKeyInjective(a, s.cmd.k); }
    case RemoveKeys =>
      PrefixDeleteExact(s.store, s.cmd.k);
      AliasKeyOutside(a);
    case _ =>
  }

  /** So a remove with a proper alias takes away no other peer's entry, unless it is named like the removed key. */
  lemma RemoveKeepsOtherAliases(s: State, ev: Event, t: State, a: string, l: string)
    requires Sane(s) && RegistryHolds(s) && RemoveStep(s, ev, t) && s.cmd.Removing? && l != s.cmd.k
    requires Lookup(s.store, AliasKey(a)) == Some(l) && a != s.cmd.k
    requires ev.RemoveAlias? ==> ProperPath(s.cmd.alias)
    ensures Lookup(t.store, AliasKey(a)) == Some(l)
  {
    hide PeerKey, AliasKey, CtlAliasKey, ProperPath, Sane, AliasesPointBack;
    RemoveTouchesIff(s, ev, t, a);
    if ev.RemoveAlias? { CtlAliasKeyAgreesIff(s.cmd.alias); }
  }

  /** An alias that is no proper path can take another peer's entry: x/../bob stands for bob. */
  lemma PathLikeAliasTakesAnother(s: State, t: State, l: string)
    requires Sane(s) && RemoveStep(s, RemoveAlias, t) && s.cmd.alias == "x/../bob"
    requires Lookup(s.store, AliasKey("bob")) == Some(l) && Lookup(s.store, PeerKey(l, Alias)) == Some("bob")
    ensures AliasKey("bob") !in t.store && !AliasesPointBack(t.store)
  {
    hide PeerKey, AliasKey, CtlAliasKey, Sane;
    NamesBob();
    PeerKeyIsNoAliasKey(l, Alias, "bob");
    assert t.store[PeerKey(l, Alias)] == "bob";
  }

  /** It gets there by the plugin's registration, which takes any free text, and a remove by key. */
  lemma PathLikeAliasIsRead(store: Store, k: string)
    requires IsPubkey(k) && Intact(k) && AliasKey("x/../bob") !in store
    ensures var after := AliasWritten(store, k, "x/../bob", true, true);
            FreeOrOwn(store, k, "x/../bob") && Classify(after, k) == Some(Target(k, "x/../bob"))
  {
    hide PeerKey, AliasKey, CtlPeerKey, IsPubkey, Intact, LooksLikePubkey, PubkeyToDnsLabel;
    KeyLabelExists(k);
    PubkeyLooksLikeOne(k);
    PubkeyShape(k);
    CtlPeerKeyAgrees(k, Alias);
  }

  // ---- The conditions are exact

  /**
    The last step of a remove keeps the registry exactly when no alias field points to what it deletes;
    for a proper alias of the removed peer, exactly when that peer's field does not name it again.
   */
  lemma RemoveAliasKeepsIff(s: State, t: State)
    requires AliasesPointBack(s.store) && RemoveStep(s, RemoveAlias, t)
    ensures AliasesPointBack(t.store) <==> NoFieldAt(s.store, CtlAliasKey(s.cmd.alias))
    ensures ProperPath(s.cmd.alias) && Lookup(s.store, AliasKey(s.cmd.alias)) == Some(s.cmd.k) ==>
      (AliasesPointBack(t.store) <==> Lookup(s.store, PeerKey(s.cmd.k, Alias)) != Some(s.cmd.alias))
  {
    hide PeerKey, AliasKey, CtlAliasKey, ProperPath, AliasesPointBack, NoFieldAt;
    DeleteKeepsIff(s.store, CtlAliasKey(s.cmd.alias));
    if ProperPath(s.cmd.alias) && Lookup(s.store, AliasKey(s.cmd.alias)) == Some(s.cmd.k) {
      CtlAliasKeyAgreesIff(s.cmd.alias);
      OwnFieldOnly(s.store, s.cmd.k, s.cmd.alias);
    }
  }

  lemma StillPointsNowhere(store: Store, after: Store, k: string)
    requires PeerKey(k, Alias) in store && PeerKey(k, Alias) in after
    requires after[PeerKey(k, Alias)] == store[PeerKey(k, Alias)]
    requires AliasKey(store[PeerKey(k, Alias)]) !in after
    ensures !AliasesPointBack(after)
  {
    hide PeerKey, AliasKey;
    assert Lookup(after, AliasKey(after[PeerKey(k, Alias)])) == None;
  }

  lemma DeleteKeepsIff(store: Store, key: string)
    requires AliasesPointBack(store)
    ensures AliasesPointBack(store - {key}) <==> NoFieldAt(store, key)
  {
    hide PeerKey, AliasKey;
    KeyFamiliesApart();
    var after := store - {key};
    if AliasesPointBack(after) {
      forall k | PeerKey(k, Alias) in store ensures AliasKey(store[PeerKey(k, Alias)]) != key {
        PeerKeyIsNoAliasKey(k, Alias, store[PeerKey(k, Alias)]);
        if AliasKey(store[PeerKey(k, Alias)]) == key { StillPointsNowhere(store, after, k); }
      }
    } else {
      var k :| PeerKey(k, Alias) in after && Lookup(after, AliasKey(after[PeerKey(k, Alias)])) != Some(k);
      PointBack(store, k);
    }
  }

  lemma OwnFieldOnly(store: Store, k: string, alias: string)
    requires AliasesPointBack(store) && Lookup(store, AliasKey(alias)) == Some(k)
    ensures NoFieldAt(store, AliasKey(alias)) <==> Lookup(store, PeerKey(k, Alias)) != Some(alias)
  {
    hide PeerKey, AliasKey;
    KeyFamiliesApart();
    forall l | PeerKey(l, Alias) in store && AliasKey(store[PeerKey(l, Alias)]) == AliasKey(alias)
      ensures l == k && store[PeerKey(l, Alias)] == alias
    {
      PointBack(store, l);
    }
  }

  /** The cache step keeps the registry exactly when it fails or no alias field names the removed key. */
  lemma RemoveCacheKeepsIff(s: State, ok: bool, t: State)
    requires AliasesPointBack(s.store) && RemoveStep(s, RemoveCache(ok), t)
    ensures AliasesPointBack(t.store) <==> !ok || NoFieldAt(s.store, AliasKey(s.cmd.k))
  {
    hide PeerKey, AliasKey, AliasesPointBack, NoFieldAt;
    if ok { DeleteKeepsIff(s.store, AliasKey(s.cmd.k)); }
  }

  /** A peer that is still cached registers its alias between the two deletes: its field loses its entry. */
  lemma ReRegistrationBreaks(c: Config, s: State, clientIP: string, lan: string, t: State, u: State)
    requires RegistryHolds(s) && s.cmd.Removing? && s.cmd.stage == KeysDone && IsPubkey(s.cmd.k)
    requires ProperPath(s.cmd.alias) && s.cmd.alias != ""
    requires PluginStep(c, s, DdnsUpdate(clientIP, s.cmd.k, lan, s.cmd.alias, true, true), t)
    requires RemoveStep(t, RemoveAlias, u)
    ensures !AliasesPointBack(u.store) && FreeOrOwn(s.store, s.cmd.k, s.cmd.alias) && s.cmd.k in s.cache
  {
    hide PeerKey, AliasKey, CtlAliasKey, ProperPath, IsPubkey, PubkeyToDnsLabel, ValidLan, AliasesPointBack;
    KeyLabelExists(s.cmd.k);
    RegisterKeeps(s.store, s.cmd.k, s.cmd.alias, true, true);
    PeerKeyIsNoAliasKey(s.cmd.k, Alias, s.cmd.alias);
    RemoveAliasKeepsIff(t, u);
  }

  /** Another peer holds the alias: its entry is the other's, and so is the field behind it. */
  predicate HeldByOther(store: Store, k: string, alias: string) {
    AliasKey(alias) in store && store[AliasKey(alias)] != k
    && Lookup(store, PeerKey(store[AliasKey(alias)], Alias)) == Some(alias)
  }

  /**
    A registration keeps the registry exactly when the entry it writes is not held by another peer, and
    when it does not write the field alone, unless the entry is the peer's already.
   */
  lemma RegistrationKeepsIff(store: Store, k: string, alias: string, aliasOk: bool, fieldOk: bool)
    requires AliasesPointBack(store) && IsPubkey(k) && alias != ""
    ensures AliasesPointBack(AliasWritten(store, k, alias, aliasOk, fieldOk))
            <==> (aliasOk ==> !HeldByOther(store, k, alias))
                 && (fieldOk && !aliasOk ==> Lookup(store, AliasKey(alias)) == Some(k))
  {
    hide PeerKey, AliasKey, IsPubkey, PubkeyToDnsLabel;
    KeyLabelExists(k);
    KeyFamiliesApart();
    var after := AliasWritten(store, k, alias, aliasOk, fieldOk);
    if aliasOk && HeldByOther(store, k, alias) {
      var l := store[AliasKey(alias)];
      assert after[PeerKey(l, Alias)] == alias && Lookup(after, AliasKey(alias)) == Some(k);
    } else if fieldOk && !aliasOk && Lookup(store, AliasKey(alias)) != Some(k) {
      assert after[PeerKey(k, Alias)] == alias && Lookup(after, AliasKey(alias)) == Lookup(store, AliasKey(alias));
    } else {
      forall l | PeerKey(l, Alias) in after ensures Lookup(after, AliasKey(after[PeerKey(l, Alias)])) == Some(l) {
        if PeerKey(l, Alias) in store { PointBack(store, l); }
      }
    }
  }

  /** A registration of another peer's alias takes the entry over and breaks that peer's pointer. */
  lemma TakingOverBreaks(store: Store, k: string, l: string, alias: string)
    requires IsPubkey(l) && k != l && alias != ""
    requires PeerKey(k, Alias) in store && store[PeerKey(k, Alias)] == alias
    ensures !AliasesPointBack(AliasWritten(store, l, alias, true, true))
  {
    hide PeerKey, AliasKey, IsPubkey, PubkeyToDnsLabel;
    KeyFamiliesApart();
    KeyLabelExists(l);
    var after := AliasWritten(store, l, alias, true, true);
    assert after[PeerKey(k, Alias)] == alias && Lookup(after, AliasKey(alias)) == Some(l);
  }

  lemma KeyLabelExists(k: string)
    requires IsPubkey(k)
    ensures PubkeyToDnsLabel(k).Some?
  {
  }
}
