/** What queries resolve to: keys, aliases, endpoints and the service list. */
module Resolution {
  import opened Options
  import opened Text
  import opened Rfc4648
  import opened Labels
  import opened Addresses
  import opened PeerKeys
  import opened Aliases
  import opened Cache
  import opened Etcd
  import opened Resolver

  lemma WithoutZoneOfName(name: string, zone: string)
    ensures WithoutZone(FQDN(name, zone), zone) == name
  {
    SuffixConcat(name + ".", zone);
    SuffixConcat(name, ".");
  }

  /** A name without a dot asks for an overlay address. */
  lemma PlainQuestion(name: string)
    requires '.' !in name
    ensures QuestionOf(name) == Question(Overlay, name)
  {
    if HasPrefix(name, "lan.") { OccurrenceChars(name, "lan.", 0, 3); }
    if HasPrefix(name, "nated.") { OccurrenceChars(name, "nated.", 0, 5); }
  }

  lemma LabelHasNoDot(k: string)
    requires IsPubkey(k)
    ensures '.' !in LabelOf(k)
  {
    KeyLabel(k);
  }

  // ---- Queries for a key

  /** The query for a key's label answers with the key's own cached address, or not at all. */
  lemma KeyQuery(cache: CacheView, store: Store, zone: string, k: string)
    requires IsPubkey(k)
    ensures var qname := FQDN(LabelOf(k), zone);
            AReply(cache, store, zone, qname)
            == if k in cache && ParseIPv4(cache[k].wgIP).Some?
               then Success([A(qname, ParseIPv4(cache[k].wgIP).value)], [])
               else NxDomain
  {
    hide IsPubkey, DnsLabelToPubkey, ParseIPv4, WithoutZone, QuestionOf, FQDN, LookupAlias, CnameReply;
    var qname := FQDN(LabelOf(k), zone);
    WithoutZoneOfName(LabelOf(k), zone);
    LabelHasNoDot(k);
    PlainQuestion(LabelOf(k));
    KeyLabel(k);
    EmptyIsNoAddress();
  }

  // ---- Queries for an alias

  /** A name in the cache that is no key has no address: the loader's wrong cuts are of that kind. */
  ghost predicate OnlyKeysAnswer(cache: CacheView) {
    forall k :: k in cache ==> IsPubkey(k) || cache[k].wgIP == ""
  }

  /** Text made of label characters only is taken for a key, however short. */
  predicate ReadsAsLabel(alias: string) {
    AllChars32(ToUpper(alias))
  }

  lemma AliasDecodesIff(alias: string)
    requires Accepted(alias)
    ensures DnsLabelToPubkey(ToLower(alias)).Some? <==> ReadsAsLabel(alias)
  {
    AcceptedAlias(alias);
    var s := ToUpper(ToLower(alias));
    assert s == ToUpper(alias);
    assert forall i :: 0 <= i < |s| ==> s[i] == Upper(alias[i]) && s[i] != '\r' && s[i] != '\n';
    assert '\r' !in s && '\n' !in s;
    StripNothing(s);
  }

  lemma AliasQuestion(alias: string)
    requires Accepted(alias)
    ensures QuestionOf(ToLower(alias)) == Question(Overlay, ToLower(alias)) && |ToLower(alias)| <= 32
  {
    AcceptedAlias(alias);
    assert forall i :: 0 <= i < |alias| ==> ToLower(alias)[i] == Lower(alias[i]) != '.';
    PlainQuestion(ToLower(alias));
  }

  /**
    The query for an accepted alias: nothing when it reads as a label, and otherwise what the alias
    table says. It never answers with a record of a peer that the table does not name.
   */
  lemma AliasQuery(cache: CacheView, store: Store, zone: string, alias: string)
    requires Accepted(alias) && OnlyKeysAnswer(cache)
    ensures var qname := FQDN(ToLower(alias), zone);
            var target := LookupAlias(store, ToLower(alias));
            AReply(cache, store, zone, qname)
            == if ReadsAsLabel(alias) || target == "" then NxDomain else CnameReply(cache, zone, qname, target)
  {
    hide IsPubkey, DnsLabelToPubkey, WithoutZone, QuestionOf, FQDN, LookupAlias, CnameReply, Accepted, ReadsAsLabel,
      ToLower;
    WithoutZoneOfName(ToLower(alias), zone);
    AliasQuestion(alias);
    AliasDecodesIff(alias);
    ShortLabelIsNoKey(ToLower(alias));
  }

  lemma TrimKey(k: string)
    requires IsPubkey(k)
    ensures TrimSpace(k) == k
  {
    PubkeyShape(k);
  }

  lemma LookupOfKey(store: Store, alias: string, k: string)
    requires Lookup(store, AliasKey(alias)) == Some(k) && IsPubkey(k)
    ensures LookupAlias(store, alias) == LabelOf(k) != ""
  {
    hide IsPubkey;
    TrimKey(k);
    KeyLabel(k);
  }

  lemma CnameOfKey(cache: CacheView, zone: string, qname: string, k: string)
    requires IsPubkey(k)
    ensures var target := FQDN(LabelOf(k), zone);
            CnameReply(cache, zone, qname, LabelOf(k))
            == Success([CNAME(qname, target)] + (if k in cache then AddressRecord(target, cache[k].wgIP) else []), [])
  {
    hide IsPubkey, DnsLabelToPubkey;
    KeyLabel(k);
    EmptyIsNoAddress();
  }

  /** The answer that leads a name to a key. */
  function AnswerNamed(cache: CacheView, zone: string, name: string, k: string): Reply
    requires IsPubkey(k)
  {
    var target := FQDN(LabelOf(k), zone);
    var address := if k in cache then AddressRecord(target, cache[k].wgIP) else [];
    Success([CNAME(FQDN(name, zone), target)] + address, [])
  }

  /** The answer that leads an alias to a key. */
  function AnswerFor(cache: CacheView, zone: string, alias: string, k: string): Reply
    requires IsPubkey(k)
  {
    AnswerNamed(cache, zone, ToLower(alias), k)
  }

  /**
    An alias whose lower-case form is registered resolves to that entry's key, with the key's own address,
    exactly when it has a character that no label has; "alice", all of a-z2-7, never resolves.
   */
  lemma AliasResolvesIff(cache: CacheView, store: Store, zone: string, alias: string, k: string)
    requires Accepted(alias) && OnlyKeysAnswer(cache) && IsPubkey(k)
    requires Lookup(store, AliasKey(ToLower(alias))) == Some(k)
    ensures AReply(cache, store, zone, FQDN(ToLower(alias), zone))
            == if ReadsAsLabel(alias) then NxDomain else AnswerFor(cache, zone, alias, k)
  {
    hide IsPubkey, LookupAlias, CnameReply, Accepted, ReadsAsLabel, ToLower, AReply, FQDN;
    AliasQuery(cache, store, zone, alias);
    LookupOfKey(store, ToLower(alias), k);
    CnameOfKey(cache, zone, FQDN(ToLower(alias), zone), k);
  }

  /** The alias entry holds this key, in whatever spelling. */
  predicate NamesKey(store: Store, alias: string, k: string) {
    var value := Lookup(store, AliasKey(alias));
    value.Some? && Decode64(TrimSpace(value.value)) == Decode64(k)
  }

  lemma LookupFindsIff(store: Store, alias: string, k: string)
    requires IsPubkey(k)
    ensures LookupAlias(store, alias) == LabelOf(k) <==> NamesKey(store, alias, k)
  {
    hide Decode64, TrimSpace, Encode32, Encode64, ToLower, DnsLabelToPubkey;
    var bs := Decode64(k).value;
    LabelRoundTrip(bs);
    KeyLabel(k);
    assert LabelOf(k) == ToLower(Encode32(bs));
    var value := Lookup(store, AliasKey(alias));
    if value.Some? && Decode64(TrimSpace(value.value)).Some? {
      var cs := Decode64(TrimSpace(value.value)).value;
      LabelRoundTrip(cs);
      if ToLower(Encode32(cs)) == ToLower(Encode32(bs)) { Encode64Injective(cs, bs); }
    }
  }

  lemma AnswerNamesTarget(cache: CacheView, zone: string, qname: string, target: string, k: string)
    requires IsPubkey(k) && CnameReply(cache, zone, qname, target).Success?
    ensures CnameReply(cache, zone, qname, target).answer != []
    ensures CnameReply(cache, zone, qname, target).answer[0] == CNAME(qname, FQDN(LabelOf(k), zone)) ==>
            target == LabelOf(k)
  {
    hide IsPubkey, DnsLabelToPubkey, WithoutZone, AddressRecord;
    WithoutZoneOfName(target, zone);
    WithoutZoneOfName(LabelOf(k), zone);
  }

  /**
    Over every name that has no endpoint prefix and does not read as a label, whoever wrote its entry: the query
    leads to a key exactly when the entry under the name holds that key, and answers nothing when the entry holds
    no label's text.
   */
  lemma NameResolvesIff(cache: CacheView, store: Store, zone: string, name: string, k: string)
    requires DnsLabelToPubkey(name).None? && !HasPrefix(name, "lan.") && !HasPrefix(name, "nated.") && IsPubkey(k)
    ensures AReply(cache, store, zone, FQDN(name, zone)) == AnswerNamed(cache, zone, name, k)
            <==> NamesKey(store, name, k)
    ensures LookupAlias(store, name) == "" ==> AReply(cache, store, zone, FQDN(name, zone)) == NxDomain
  {
    hide IsPubkey, LookupAlias, CnameReply, FQDN, NamesKey, AddressRecord, LabelOf, HasPrefix, DnsLabelToPubkey,
      WithoutZone;
    LookupFindsIff(store, name, k);
    WithoutZoneOfName(name, zone);
    var qname, target := FQDN(name, zone), LookupAlias(store, name);
    CnameOfKey(cache, zone, qname, k);
    LabelNotEmpty(k);
    if CnameReply(cache, zone, qname, target).Success? {
      AnswerNamesTarget(cache, zone, qname, target, k);
    }
  }

  /**
    The query for an accepted alias leads to a key exactly when the alias has a character that no label
    has, and the entry under its lower-case form holds that key. So an alias that was registered with
    capitals, under a key of its own, leads to whoever registered the lower-case form, or nowhere.
   */
  lemma RegisteredAliasResolvesIff(cache: CacheView, store: Store, zone: string, alias: string, k: string)
    requires Accepted(alias) && OnlyKeysAnswer(cache) && IsPubkey(k)
    ensures AReply(cache, store, zone, FQDN(ToLower(alias), zone)) == AnswerFor(cache, zone, alias, k)
            <==> !ReadsAsLabel(alias) && NamesKey(store, ToLower(alias), k)
  {
    hide IsPubkey, LookupAlias, CnameReply, Accepted, ReadsAsLabel, ToLower, AReply, FQDN, NamesKey, AddressRecord,
      LabelOf, DnsLabelToPubkey;
    if ReadsAsLabel(alias) {
      AliasQuery(cache, store, zone, alias);
    } else {
      AliasDecodesIff(alias);
      AliasQuestion(alias);
      NameResolvesIff(cache, store, zone, ToLower(alias), k);
    }
  }

  lemma LabelNotEmpty(k: string)
    requires IsPubkey(k)
    ensures LabelOf(k) != ""
  {
    KeyLabel(k);
  }

  /** Both outcomes occur for accepted aliases. */
  lemma AliceReadsAsLabel()
    ensures Accepted("alice") && ReadsAsLabel("alice")
    ensures Accepted("alice-macbook") && !ReadsAsLabel("alice-macbook")
  {
    hide Accepted, HasReservedPrefix;
    var a, b := "alice", "alice-macbook";
    assert ToUpper(a) == "ALICE";
    assert ToUpper(b)[5] == '-';
    ReservedNot(a);
    ReservedNot(b);
    CleanAcceptedIff(a);
    CleanAcceptedIff(b);
  }

  /** An alias is accepted in every spelling. */
  lemma BobAccepted()
    ensures Accepted("Bob-x") && Accepted("bob-x") && ToLower("Bob-x") == "bob-x" && !ReadsAsLabel("Bob-x")
  {
    hide HasReservedPrefix;
    var b := "bob-x";
    assert ToLower("Bob-x") == b && ToLower(b) == b;
    assert ToUpper("Bob-x")[3] == '-';
    ReservedNot(b);
    CleanAcceptedIff(b);
    assert ValidateAlias("Bob-x") == ValidateAlias(b);
  }

  lemma ReservedNot(s: string)
    requires |s| > 0 && (s[0] == 'a' || s[0] == 'b')
    ensures !HasReservedPrefix(s)
  {
    if HasPrefix(s, "lan") { OccurrenceChars(s, "lan", 0, 0); }
    if HasPrefix(s, "nated") { OccurrenceChars(s, "nated", 0, 0); }
    if HasPrefix(s, "_wireguard") { OccurrenceChars(s, "_wireguard", 0, 0); }
    if HasPrefix(s, "_udp") { OccurrenceChars(s, "_udp", 0, 0); }
  }

  /**
    There are no endpoint names under an alias: the address queries for lan.alias and nated.alias answer
    nothing, as long as a label-like alias names no entry that is not a key.
   */
  lemma NoEndpointsUnderAlias(cache: CacheView, store: Store, zone: string, alias: string, kind: string)
    requires Accepted(alias) && IsKind(kind)
    requires ReadsAsLabel(alias) ==> forall k :: k in cache ==> IsPubkey(k)
    ensures AReply(cache, store, zone, FQDN(kind + "." + ToLower(alias), zone)) == NxDomain
  {
    hide IsPubkey, DnsLabelToPubkey, WithoutZone, QuestionOf, FQDN, LookupAlias, Accepted, ReadsAsLabel, ToLower;
    WithoutZoneOfName(kind + "." + ToLower(alias), zone);
    KindQuestion(kind, ToLower(alias));
    AcceptedAlias(alias);
    AliasDecodesIff(alias);
    ShortLabelIsNoKey(ToLower(alias));
  }

  predicate IsKind(kind: string) {
    kind == "lan" || kind == "nated"
  }

  lemma KindQuestion(kind: string, name: string)
    requires IsKind(kind)
    ensures QuestionOf(kind + "." + name) == Question(if kind == "lan" then LanEndpoint else NatEndpoint, name)
  {
    var s := kind + "." + name;
    assert s == (kind + ".") + name;
    PrefixConcat(kind + ".", name);
    if kind == "nated" && HasPrefix(s, "lan.") { OccurrenceChars(s, "lan.", 0, 0); }
  }

  // ---- Service discovery

  /** Every entry is filed under its own WireGuard key. */
  ghost predicate FiledByKey(cache: CacheView) {
    forall k :: k in cache ==> IsPubkey(k) && cache[k].pubKey == k
  }

  lemma AnswerOfKey(e: Entry, zone: string, qname: string)
    requires IsPubkey(e.pubKey)
    ensures DiscoveryAnswer(e, zone, qname) == [SRV(qname, 0, 0, 0, FQDN(LabelOf(e.pubKey), zone))]
  {
  }

  lemma {:induction false} AnswerAt(cache: CacheView, order: seq<string>, zone: string, qname: string, i: nat)
    requires FiledByKey(cache) && InCache(cache, order) && i < |order|
    ensures IsPubkey(order[i]) && |DiscoveryAnswers(cache, order, zone, qname)| == |order|
    ensures DiscoveryAnswers(cache, order, zone, qname)[i] == SRV(qname, 0, 0, 0, FQDN(LabelOf(order[i]), zone))
  {
    hide IsPubkey, FQDN, DiscoveryAnswer, LabelOf, PubkeyToDnsLabel;
    var n := |order| - 1;
    AnswerOfKey(cache[order[n]], zone, qname);
    if n > 0 {
      var j := if i < n then i else 0;
      AnswerAt(cache, order[..n], zone, qname, j);
      assert order[..n][j] == order[j];
    }
  }

  lemma AnswersInOrder(cache: CacheView, order: seq<string>, zone: string, qname: string)
    requires FiledByKey(cache) && InCache(cache, order)
    ensures |DiscoveryAnswers(cache, order, zone, qname)| == |order|
    ensures forall i :: 0 <= i < |order| ==>
      IsPubkey(order[i]) && DiscoveryAnswers(cache, order, zone, qname)[i]
        == SRV(qname, 0, 0, 0, FQDN(LabelOf(order[i]), zone))
  {
    hide IsPubkey, FQDN;
    if order != [] {
      AnswerAt(cache, order, zone, qname, 0);
      hide DiscoveryAnswers, InCache, FiledByKey;
      forall i | 0 <= i < |order|
        ensures IsPubkey(order[i])
        ensures DiscoveryAnswers(cache, order, zone, qname)[i] == SRV(qname, 0, 0, 0, FQDN(LabelOf(order[i]), zone))
      {
        AnswerAt(cache, order, zone, qname, i);
      }
    }
  }

  lemma TargetsDistinct(k: string, l: string, zone: string)
    requires IsPubkey(k) && IsPubkey(l) && FQDN(LabelOf(k), zone) == FQDN(LabelOf(l), zone)
    ensures k == l
  {
    hide IsPubkey;
    WithoutZoneOfName(LabelOf(k), zone);
    WithoutZoneOfName(LabelOf(l), zone);
    LabelsDistinct(k, l);
  }

  lemma ExtraOfKey(e: Entry, zone: string, k: string, v: address)
    requires IsPubkey(e.pubKey) && IsPubkey(k)
    ensures A(FQDN(LabelOf(k), zone), v) in DiscoveryExtra(e, zone) <==> k == e.pubKey && ParseIPv4(e.wgIP) == Some(v)
  {
    hide IsPubkey, FQDN, ParseIPv4;
    EmptyIsNoAddress();
    assert PeerTarget(e, zone) == Some(FQDN(LabelOf(e.pubKey), zone));
    if FQDN(LabelOf(k), zone) == FQDN(LabelOf(e.pubKey), zone) { TargetsDistinct(k, e.pubKey, zone); }
  }

  lemma {:induction false} ExtrasExact(cache: CacheView, order: seq<string>, zone: string, k: string, v: address)
    requires FiledByKey(cache) && InCache(cache, order) && k in cache
    ensures A(FQDN(LabelOf(k), zone), v) in DiscoveryExtras(cache, order, zone)
            <==> k in order && ParseIPv4(cache[k].wgIP) == Some(v)
  {
    hide IsPubkey, FQDN, DiscoveryExtra, ParseIPv4, LabelOf, PubkeyToDnsLabel;
    if order != [] {
      var n := |order| - 1;
      ExtrasExact(cache, order[..n], zone, k, v);
      ExtraOfKey(cache[order[n]], zone, k, v);
      assert order == order[..n] + [order[n]];
    }
  }

  /**
    The service list has exactly one record per cached peer, with pairwise distinct targets, and a query
    for a target returns an address exactly when the additional section gives it that address.
   */
  lemma DiscoveryComplete(cache: CacheView, store: Store, order: seq<string>, zone: string, qname: string)
    requires FiledByKey(cache) && Walks(cache, order) && order != []
    ensures DiscoveryReply(cache, order, zone, qname).Success?
    ensures var answers := DiscoveryReply(cache, order, zone, qname).answer;
            && |answers| == |order|
            && (forall i :: 0 <= i < |order| ==>
                IsPubkey(order[i]) && answers[i] == SRV(qname, 0, 0, 0, FQDN(LabelOf(order[i]), zone)))
            && (forall i, j :: 0 <= i < j < |answers| ==> answers[i] != answers[j])
    ensures forall k, v: address :: k in cache ==>
              (A(FQDN(LabelOf(k), zone), v) in DiscoveryReply(cache, order, zone, qname).extra
               <==> AReply(cache, store, zone, FQDN(LabelOf(k), zone)) == Success([A(FQDN(LabelOf(k), zone), v)], []))
  {
    hide IsPubkey, FQDN, ParseIPv4, AReply, DiscoveryAnswers, DiscoveryExtras;
    AnswersInOrder(cache, order, zone, qname);
    var answers := DiscoveryAnswers(cache, order, zone, qname);
    forall i, j | 0 <= i < j < |answers| ensures answers[i] != answers[j] {
      if answers[i] == answers[j] { TargetsDistinct(order[i], order[j], zone); }
    }
    forall k, v: address | k in cache
      ensures A(FQDN(LabelOf(k), zone), v) in DiscoveryExtras(cache, order, zone)
              <==> AReply(cache, store, zone, FQDN(LabelOf(k), zone)) == Success([A(FQDN(LabelOf(k), zone), v)], [])
    {
      ExtrasExact(cache, order, zone, k, v);
      KeyQuery(cache, store, zone, k);
    }
  }
}
