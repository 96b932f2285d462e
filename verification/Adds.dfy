/** Adding a peer: a failed add leaves no trace, a finished one resolves after a poll. */
module Adds {
  import opened Options
  import opened Text
  import opened Labels
  import opened Addresses
  import opened PeerKeys
  import opened Aliases
  import opened Cache
  import opened Etcd
  import opened EtcdSync
  import opened Loader
  import opened Startup
  import opened WgMonitor
  import opened Ddns
  import opened EtcdClient
  import opened PeerCommands
  import opened Paths
  import opened System
  import opened Removal
  import opened Registry
  import opened Uniqueness
  import opened Resolver
  import opened Resolution

  // ---- A failed add

  /** A poll finds a peer of the device exactly when it is cached already or etcd has a key of it. */
  lemma PollFindsIff(c: Config, s: State, endpoints: map<string, string>, failed: set<string>, t: State, k: string)
    requires PluginStep(c, s, Poll(endpoints, failed), t) && k in s.device
    ensures k in t.cache <==> k in s.cache || (k !in failed && HasFields(s.store, k))
  {
    hide Polled, HasFields;
    PolledLookup(s.cache, s.store, Sightings(s.device, endpoints), failed, k);
  }

  /** Some poll in between could read etcd about the key. */
  ghost predicate SomePollReads(events: seq<Event>, n: nat, k: string) {
    exists i :: 1 <= i < n && i < |events| && events[i].Poll? && k !in events[i].failed
  }

  lemma {:induction false} PollsLeaveAlone(c: Config, states: seq<State>, events: seq<Event>, n: nat, k: string)
    requires Run(c, states, events) && 1 <= n <= |events|
    requires forall i :: 1 <= i < n ==> events[i].Poll?
    requires states[1].cmd.Adding? && k in states[1].device
    ensures states[n].device == states[1].device && states[n].store == states[1].store && states[n].cmd == states[1].cmd
    ensures k in states[n].cache
            <==> k in states[1].cache || (HasFields(states[1].store, k) && SomePollReads(events, n, k))
  {
    hide Polled, HasFields, SomePollReads;
    PollsBefore(events, n, k);
    if n > 1 {
      PollsLeaveAlone(c, states, events, n - 1, k);
      var s, ev, t := states[n - 1], events[n - 1], states[n];
      assert Step(c, s, ev, t) && ev.Poll?;
      assert PluginStep(c, s, ev, t);
      PollFindsIff(c, s, ev.endpoints, ev.failed, t, k);
    }
  }

  lemma PollsBefore(events: seq<Event>, n: nat, k: string)
    requires 1 <= n <= |events| && forall i :: 1 <= i < n ==> events[i].Poll?
    ensures SomePollReads(events, n, k) <==> n > 1 && (SomePollReads(events, n - 1, k) || k !in events[n - 1].failed)
  {
    if n > 1 && SomePollReads(events, n, k) {
      var i :| 1 <= i < n && i < |events| && events[i].Poll? && k !in events[i].failed;
      if i < n - 1 { assert SomePollReads(events, n - 1, k); }
    }
    if n > 1 && SomePollReads(events, n - 1, k) {
      var i :| 1 <= i < n - 1 && i < |events| && events[i].Poll? && k !in events[i].failed;
      assert SomePollReads(events, n, k);
    }
    if n > 1 && k !in events[n - 1].failed { assert events[n - 1].Poll?; }
  }

  /**
    An add whose transaction fails and whose rollback succeeds, with any polls in between: etcd is as
    before, the device is as before exactly when the key was not on it, and the cache holds the key
    exactly when it did before or some poll could read a key of the peer that etcd held all along.
   */
  lemma FailedAddLeavesNoTrace(c: Config, states: seq<State>, events: seq<Event>, n: nat)
    requires Run(c, states, events) && 1 <= n && |events| == n + 1
    requires events[0].AddDevice? && events[n] == AddRollback(true) && forall i :: 1 <= i < n ==> events[i].Poll?
    ensures var k := events[0].k;
            && states[n + 1].store == states[0].store && states[n + 1].cmd == Idle
            && (states[n + 1].device == states[0].device <==> k !in states[0].device)
            && (k in states[n + 1].cache
                <==> k in states[0].cache || (HasFields(states[0].store, k) && SomePollReads(events, n, k)))
  {
    hide HasFields, AddArguments, Polled, PluginStep, SomePollReads;
    var k := events[0].k;
    OnlyItsOwnStep(c, states[0], events[0], states[1]);
    PollsLeaveAlone(c, states, events, n, k);
    OnlyItsOwnStep(c, states[n], events[n], states[n + 1]);
    var d := states[0].device;
    assert states[n + 1].device == d[k := events[0].ip] - {k};
    if k !in d { assert d[k := events[0].ip] - {k} == d; }
  }

  /** For a key that etcd holds, a failed add and one poll do leave a trace: the key is cached. */
  lemma FailedAddOfStoredKey(c: Config, states: seq<State>, events: seq<Event>)
    requires Run(c, states, events) && |events| == 3
    requires events[0].AddDevice? && events[1].Poll? && events[2] == AddRollback(true)
    requires HasFields(states[0].store, events[0].k) && events[0].k !in states[0].cache
    requires events[0].k !in events[1].failed
    ensures events[0].k in states[3].cache
  {
    hide HasFields;
    FailedAddLeavesNoTrace(c, states, events, 2);
  }

  // ---- A finished add

  /** The key of the running add is on the device and nowhere else. */
  ghost predicate FreshAdd(s: State, k: string, ip: string, alias: string) {
    s.cmd == Adding(k, ip, alias) && Lookup(s.device, k) == Some(ip) && k !in s.cache && NoStoredKey(s.store, k)
  }

  lemma PluginKeepsFresh(c: Config, s: State, ev: Event, t: State, k: string, ip: string, alias: string)
    requires PluginStep(c, s, ev, t) && FreshAdd(s, k, ip, alias) && IsPubkey(k) && k != c.self
    ensures FreshAdd(t, k, ip, alias)
  {
    hide Polled, SyncResult, AliasWritten, RestartResult, ValidLan, NoStoredKey, IsPubkey, HasFields;
    match ev
    case Poll(endpoints, failed) =>
      PollFindsIff(c, s, endpoints, failed, t, k);
      NoFields(s.store, k);
    case Sync(failed) => SyncSkipsAbsent(s.cache, s.store, failed, t.store, k);
    case DdnsUpdate(_, l, _, a, aliasOk, fieldOk) => AliasWriteOfOther(s.store, l, a, aliasOk, fieldOk, k);
    case Restart(loadOk, failed) => RestartKeepsFresh(c, s, loadOk, failed, t, k);
  }

  lemma RestartKeepsFresh(c: Config, s: State, loadOk: bool, failed: set<string>, t: State, k: string)
    requires RestartResult(c.self, c.selfIP, s.store, s.device, loadOk, failed, t.cache, t.device)
    requires IsPubkey(k) && k != c.self && k in s.device && NoStoredKey(s.store, k)
    ensures k !in t.cache && Lookup(t.device, k) == Lookup(s.device, k)
  {
    hide PeerKey, IsPubkey, LoaderReads, LoadedFields, LoadedEntries, ParseIPv4;
    var loaded: CacheView :|
      (if loadOk then LoadResult(s.store, loaded) else loaded == map[])
      && t.cache == loaded[c.self := SelfEntry(c.self, c.selfIP)]
      && t.device == RestoredDevice(loaded, s.device, failed);
    assert k !in loaded;
  }

  lemma {:induction false} RunKeepsFresh(c: Config, states: seq<State>, events: seq<Event>, i: nat, j: nat, k: string,
                                         ip: string, alias: string)
    requires Run(c, states, events) && i <= j < |states| && IsPubkey(k) && k != c.self
    requires FreshAdd(states[i], k, ip, alias)
    requires forall n :: i <= n < j ==> PluginStep(c, states[n], events[n], states[n + 1])
    ensures FreshAdd(states[j], k, ip, alias)
  {
    hide Step, PluginStep, FreshAdd, IsPubkey;
    if i < j {
      RunKeepsFresh(c, states, events, i, j - 1, k, ip, alias);
      PluginKeepsFresh(c, states[j - 1], events[j - 1], states[j], k, ip, alias);
    }
  }

  /** The transaction, and then a poll that can read etcd: the cache has the peer under its new address. */
  lemma CommitThenPoll(c: Config, s: State, t: State, ev: Event, u: State)
    requires Sane(s) && s.cmd.Adding? && FreshAdd(s, s.cmd.k, s.cmd.ip, s.cmd.alias)
    requires AddStep(s, AddCommit, t) && PluginStep(c, t, ev, u) && ev.Poll? && s.cmd.k !in ev.failed
    ensures s.cmd.k in u.cache && u.cache[s.cmd.k].wgIP == s.cmd.ip
    ensures u.store == t.store && Lookup(u.store, AliasKey(s.cmd.alias)) == Some(s.cmd.k)
  {
    hide PeerKey, AliasKey, CtlAliasKey, AddedPeer, Polled, IsPubkey, Intact, Accepted, ParseIPv4, HoldsPeers,
      CacheSane, DeviceSane, NoStoredKey;
    var k, ip, alias := s.cmd.k, s.cmd.ip, s.cmd.alias;
    AddedPeerKeys(s.store, k, ip, alias);
    KeyFamiliesApart();
    PeerKeyIsNoAliasKey(k, WgIp, alias);
    assert PeerKey(k, Alias) != PeerKey(k, WgIp);
    assert Lookup(t.store, PeerKey(k, WgIp)) == Some(ip);
    PolledLookup(t.cache, t.store, Sightings(t.device, ev.endpoints), ev.failed, k);
  }

  lemma SaneAnswers(s: State)
    requires Sane(s)
    ensures OnlyKeysAnswer(s.cache)
  {
  }

  /** The keys that valonctl writes for a text are those of the device's name for it only if the two are the same. */
  lemma AddedTextIsNameIff(store: Store, k: string, ip: string, alias: string)
    requires IsDeviceKey(k) && Accepted(alias) && NoStoredKey(store, DeviceName(k))
    ensures HasFields(AddedPeer(store, k, ip, alias), DeviceName(k)) <==> k == DeviceName(k) && Intact(k)
    ensures k == DeviceName(k) && Intact(k) ==>
      Lookup(AddedPeer(store, k, ip, alias), PeerKey(DeviceName(k), WgIp)) == Some(ip)
  {
    hide PeerKey, AliasKey, CtlPeerKey, CtlAliasKey, Intact, IsPubkey, IsDeviceKey, DeviceName, Accepted, NonEmpty,
      Split, Join;
    var name := DeviceName(k);
    CanonicalDeviceName(k);
    DeviceKeyText(k);
    TextHasParts(k);
    PubkeyShape(name);
    var u := Join(NonEmpty(Split(k, '/')), '/');
    KeptIsKeyIff(k, name);
    CtlKeyOfText(k, WgIp);
    CtlKeyOfText(k, Alias);
    AcceptedAlias(alias);
    CtlAliasKeyAgreesIff(alias);
    forall f
      ensures PeerKey(name, f) == PeerKey(u, WgIp) ==> u == name
      ensures PeerKey(name, f) == PeerKey(u, Alias) ==> u == name
      ensures PeerKey(name, f) != AliasKey(alias)
    {
      if PeerKey(name, f) == PeerKey(u, WgIp) { PeerKeyInjective(name, f, u, WgIp); }
      if PeerKey(name, f) == PeerKey(u, Alias) { PeerKeyInjective(name, f, u, Alias); }
      PeerKeyIsNoAliasKey(name, f, alias);
    }
    if PeerKey(name, WgIp) == PeerKey(name, Alias) { PeerKeyInjective(name, WgIp, name, Alias); }
  }

  lemma TextHasParts(k: string)
    requires '=' in k
    ensures NonEmpty(Split(k, '/')) != []
  {
    hide Split;
    SplitKeepsChars(k, '/', '=');
    var p :| p in Split(k, '/') && '=' in p;
    NonEmptyIdentity(Split(k, '/'));
    assert p in NonEmpty(Split(k, '/'));
  }

  /**
    valonctl takes any base 64 text of 32 bytes for a key, configures the device under the canonical spelling
    and stores the peer under the text as given. After one poll that can read etcd, the new peer resolves
    exactly when the text is canonical and has no leading or doubled slash.
   */
  lemma AddedKeyResolvesIff(cache: CacheView, store: Store, device: Device, k: string, ip: string, alias: string,
                            endpoints: map<string, string>, failed: set<string>, zone: string)
    requires IsDeviceKey(k) && Accepted(alias) && ParseIPv4(ip).Some?
    requires DeviceName(k) !in cache && NoStoredKey(store, DeviceName(k)) && DeviceName(k) !in failed
    ensures IsPubkey(DeviceName(k))
    ensures var name, after := DeviceName(k), AddedPeer(store, k, ip, alias);
            var polled := Polled(cache, after, Sightings(device[name := ip], endpoints), failed);
            var qname := FQDN(LabelOf(name), zone);
            AReply(polled, after, zone, qname)
            == if k == name && Intact(k) then Success([A(qname, ParseIPv4(ip).value)], []) else NxDomain
  {
    hide PeerKey, IsDeviceKey, DeviceName, IsPubkey, Intact, Accepted, AddedPeer, HasFields, NoStoredKey, AReply, FQDN,
      LabelOf, ParseIPv4, Polled, StoredEntry;
    var name, after := DeviceName(k), AddedPeer(store, k, ip, alias);
    var seen := Sightings(device[name := ip], endpoints);
    CanonicalDeviceName(k);
    AddedTextIsNameIff(store, k, ip, alias);
    PolledLookup(cache, after, seen, failed, name);
    AddressNotEmpty(ip);
    KeyQuery(Polled(cache, after, seen, failed), after, zone, name);
  }

  /** What the table says under the lower-case form of an alias. */
  function TableAnswer(cache: CacheView, store: Store, zone: string, alias: string): Reply {
    var target := LookupAlias(store, ToLower(alias));
    if target == "" then NxDomain else CnameReply(cache, zone, FQDN(ToLower(alias), zone), target)
  }

  function PeerAnswer(zone: string, alias: string, k: string, v: address): Reply
    requires IsPubkey(k)
  {
    Success([CNAME(FQDN(alias, zone), FQDN(LabelOf(k), zone)), A(FQDN(LabelOf(k), zone), v)], [])
  }

  /** The two queries about a cached, registered peer. */
  lemma PeerResolves(s: State, zone: string, k: string, ip: string, alias: string)
    requires Sane(s) && AddArguments(k, ip, alias) && k in s.cache && s.cache[k].wgIP == ip
    requires Lookup(s.store, AliasKey(alias)) == Some(k)
    ensures var v, target := ParseIPv4(ip).value, FQDN(LabelOf(k), zone);
            && Dotted(v) == ip
            && AReply(s.cache, s.store, zone, target) == Success([A(target, v)], [])
            && AReply(s.cache, s.store, zone, FQDN(ToLower(alias), zone))
               == (if ReadsAsLabel(alias) then NxDomain else TableAnswer(s.cache, s.store, zone, alias))
            && (ToLower(alias) == alias ==> TableAnswer(s.cache, s.store, zone, alias) == PeerAnswer(zone, alias, k, v))
  {
    hide IsPubkey, Intact, Accepted, ParseIPv4, AReply, FQDN, LabelOf, PubkeyToDnsLabel, ReadsAsLabel, AliasKey,
      Dotted, ToLower, Sane, LookupAlias, CnameReply;
    SaneAnswers(s);
    DottedParse(ip);
    KeyQuery(s.cache, s.store, zone, k);
    AliasQuery(s.cache, s.store, zone, alias);
    if ToLower(alias) == alias {
      LookupOfKey(s.store, alias, k);
      CnameOfKey(s.cache, zone, FQDN(alias, zone), k);
    }
  }

  lemma OtherAliasUntouched(store: Store, k: string, ip: string, alias: string, a: string)
    requires AddArguments(k, ip, alias) && a != alias
    ensures Lookup(AddedPeer(store, k, ip, alias), AliasKey(a)) == Lookup(store, AliasKey(a))
  {
    hide PeerKey, AliasKey, AddedPeer, IsPubkey, Intact, Accepted;
    AddedPeerKeys(store, k, ip, alias);
    KeyFamiliesApart();
  }

  /**
    After a successful add of a fresh key and one poll, the key's label resolves to the assigned address.
    Its alias leads there too if it is in lower case and does not read as a label; with capitals, it leads
    to whatever was registered under the lower-case form before the add.
   */
  lemma AddBecomesResolvable(c: Config, states: seq<State>, events: seq<Event>, i: nat, j: nat, zone: string)
    requires Run(c, states, events) && IsPubkey(c.self) && i < j && j + 1 < |events| && Sane(states[i])
    requires events[i].AddDevice? && events[j].AddCommit? && events[j + 1].Poll?
    requires var k := events[i].k;
             k != c.self && k !in states[i].cache && NoStoredKey(states[i].store, k) && k !in events[j + 1].failed
    requires forall n :: i < n < j ==> PluginStep(c, states[n], events[n], states[n + 1])
    ensures ParseIPv4(events[i].ip).Some? && IsPubkey(events[i].k)
    ensures var k, alias, u := events[i].k, events[i].alias, states[j + 2];
            var v, target := ParseIPv4(events[i].ip).value, FQDN(LabelOf(k), zone);
            && Dotted(v) == events[i].ip
            && AReply(u.cache, u.store, zone, target) == Success([A(target, v)], [])
            && AReply(u.cache, u.store, zone, FQDN(ToLower(alias), zone))
               == if ReadsAsLabel(alias) then NxDomain
                  else if ToLower(alias) == alias then PeerAnswer(zone, alias, k, v)
                  else TableAnswer(u.cache, states[j].store, zone, alias)
  {
    hide Sane, PluginStep, RemoveStep, IsPubkey, Intact, Accepted, ParseIPv4, AReply, FQDN, LabelOf, PubkeyToDnsLabel,
      ReadsAsLabel, AliasKey, Dotted, ToLower, NoStoredKey, AddedPeer, PeerAnswer, CnameReply;
    var k, ip, alias := events[i].k, events[i].ip, events[i].alias;
    OnlyItsOwnStep(c, states[i], events[i], states[i + 1]);
    RunKeepsFresh(c, states, events, i + 1, j, k, ip, alias);
    SaneAlong(c, states, events, i, j + 2);
    SaneAlong(c, states, events, i, j);
    OnlyItsOwnStep(c, states[j], events[j], states[j + 1]);
    OnlyItsOwnStep(c, states[j + 1], events[j + 1], states[j + 2]);
    CommitThenPoll(c, states[j], states[j + 1], events[j + 1], states[j + 2]);
    PeerResolves(states[j + 2], zone, k, ip, alias);
    if ToLower(alias) != alias { OtherAliasUntouched(states[j].store, k, ip, alias, ToLower(alias)); }
  }

  /**
    Two adds that differ only in the case of their aliases both succeed, and then the query for the first
    alias leads to the second peer.
   */
  lemma CapitalsMisresolve(cache: CacheView, store: Store, zone: string, k: string, ip: string, l: string, jp: string)
    requires IsPubkey(k) && Intact(k) && IsPubkey(l) && Intact(l) && k != l && OnlyKeysAnswer(cache)
    requires ParseIPv4(ip).Some? && ParseIPv4(jp).Some? && AliasKey("bob-x") !in store
    ensures var first := AddedPeer(store, k, ip, "Bob-x");
            var both := AddedPeer(first, l, jp, "bob-x");
            && Accepted("Bob-x") && Accepted("bob-x") && CtlAliasKey("bob-x") !in first
            && Lookup(both, AliasKey("Bob-x")) == Some(k)
            && AReply(cache, both, zone, FQDN(ToLower("Bob-x"), zone)) == AnswerFor(cache, zone, "Bob-x", l)
            && LabelOf(l) != LabelOf(k)
  {
    hide IsPubkey, Intact, Accepted, ParseIPv4, AReply, FQDN, LabelOf, PubkeyToDnsLabel, ReadsAsLabel, AliasKey,
      ToLower, AddedPeer, CtlAliasKey, AnswerFor, PeerKey, OnlyKeysAnswer;
    BobAccepted();
    assert "Bob-x"[0] != "bob-x"[0];
    var first := AddedPeer(store, k, ip, "Bob-x");
    var both := AddedPeer(first, l, jp, "bob-x");
    AddedPeerKeys(store, k, ip, "Bob-x");
    AddedPeerKeys(first, l, jp, "bob-x");
    OtherAliasUntouched(store, k, ip, "Bob-x", "bob-x");
    OtherAliasUntouched(first, l, jp, "bob-x", "Bob-x");
    NamesItself(both, "bob-x", l);
    RegisteredAliasResolvesIff(cache, both, zone, "Bob-x", l);
    if LabelOf(l) == LabelOf(k) { LabelsDistinct(l, k); }
  }

  lemma NamesItself(store: Store, alias: string, k: string)
    requires IsPubkey(k) && Lookup(store, AliasKey(alias)) == Some(k)
    ensures NamesKey(store, alias, k)
  {
    hide IsPubkey;
    TrimKey(k);
  }

  lemma OnlyItsOwnStep(c: Config, s: State, ev: Event, t: State)
    requires Step(c, s, ev, t)
    ensures ev.AddDevice? || ev.AddCommit? || ev.AddRollback? ==> AddStep(s, ev, t)
    ensures ev.Poll? ==> PluginStep(c, s, ev, t)
  {
  }
}
