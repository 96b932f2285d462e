/** The DNS side of the plugin (coredns-plugin/valon/handler.go), on messages instead of wire format. */
module Resolver {
  import opened Options
  import opened Text
  import opened Labels
  import opened Addresses
  import opened PeerKeys
  import opened Cache
  import opened Etcd

  datatype RR =
    | A(name: string, address: address)
    | SRV(name: string, priority: nat, weight: nat, port: nat, target: string)
    | CNAME(name: string, target: string)

  datatype Reply = NxDomain | Success(answer: seq<RR>, extra: seq<RR>)

  /** A query name without the zone and without the dot before it. */
  function WithoutZone(qname: string, zone: string): string {
    TrimSuffix(TrimSuffix(qname, zone), ".")
  }

  function FQDN(name: string, zone: string): string {
    name + "." + zone
  }

  // ---- lookupAlias and returnCNAME

  /** unicode.IsSpace: the white space of Unicode, not of ASCII alone. */
  predicate IsSpace(c: char) {
    '\t' <= c <= '\r' || c == ' ' || c == '\U{85}' || c == '\U{A0}' || c == '\U{1680}'
    || '\U{2000}' <= c <= '\U{200A}' || c == '\U{2028}' || c == '\U{2029}' || c == '\U{202F}' || c == '\U{205F}'
    || c == '\U{3000}'
  }

  /** strings.TrimSpace */
  function TrimSpace(s: string): string {
    if s != "" && IsSpace(s[0]) then TrimSpace(s[1..])
    else if s != "" && IsSpace(s[|s| - 1]) then TrimSpace(s[..|s| - 1])
    else s
  }

  predicate AllSpaces(s: string) {
    forall i :: 0 <= i < |s| ==> IsSpace(s[i])
  }

  predicate Surrounds(s: string, t: string, front: string, back: string) {
    s == front + t + back && AllSpaces(front) && AllSpaces(back)
  }

  lemma SurroundsMore(c: char, s: string, t: string, front: string, back: string)
    requires Surrounds(s, t, front, back) && IsSpace(c)
    ensures Surrounds([c] + s, t, [c] + front, back) && Surrounds(s + [c], t, front, back + [c])
  {
    hide IsSpace;
    assert [c] + (front + t + back) == ([c] + front) + t + back;
    assert (front + t + back) + [c] == front + t + (back + [c]);
  }

  /** What is cut off is white space, and what stays has none at its edges. */
  lemma {:induction false} TrimSpaceCuts(s: string)
    ensures exists front, back :: Surrounds(s, TrimSpace(s), front, back)
    ensures var t := TrimSpace(s);
            t != "" ==> !IsSpace(t[0]) && !IsSpace(t[|t| - 1])
  {
    hide IsSpace, Surrounds;
    if s != "" && IsSpace(s[0]) {
      TrimSpaceCuts(s[1..]);
      var front, back :| Surrounds(s[1..], TrimSpace(s[1..]), front, back);
      assert s == [s[0]] + s[1..];
      SurroundsMore(s[0], s[1..], TrimSpace(s), front, back);
    } else if s != "" && IsSpace(s[|s| - 1]) {
      var n := |s| - 1;
      TrimSpaceCuts(s[..n]);
      var front, back :| Surrounds(s[..n], TrimSpace(s[..n]), front, back);
      assert s == s[..n] + [s[n]];
      SurroundsMore(s[n], s[..n], TrimSpace(s), front, back);
    } else {
      AllKept(s);
      assert TrimSpace(s) == s;
    }
  }

  lemma AllKept(s: string)
    ensures Surrounds(s, s, "", "")
  {
    assert s == "" + s + "";
  }

  /** The label an alias stands for; empty when there is none. */
  function LookupAlias(store: Store, alias: string): string {
    match Lookup(store, AliasKey(alias))
    case None => ""
    case Some(value) =>
      match PubkeyToDnsLabel(TrimSpace(value))
      case None => ""
      case Some(found) => found
  }

  /** The address record of a name, if the text is an address. */
  function AddressRecord(name: string, text: string): seq<RR> {
    match ParseIPv4(text)
    case None => []
    case Some(v) => [A(name, v)]
  }

  function CnameReply(cache: CacheView, zone: string, qname: string, target: string): Reply {
    var cname := CNAME(qname, FQDN(target, zone));
    match DnsLabelToPubkey(target)
    case None => Success([cname], [])
    case Some(k) =>
      if k !in cache || cache[k].wgIP == "" then Success([cname], [])
      else Success([cname] + AddressRecord(FQDN(target, zone), cache[k].wgIP), [])
  }

  // ---- handleA

  datatype Kind = Overlay | LanEndpoint | NatEndpoint

  datatype Question = Question(kind: Kind, name: string)

  function QuestionOf(name: string): Question {
    if HasPrefix(name, "lan.") then Question(LanEndpoint, TrimPrefix(name, "lan."))
    else if HasPrefix(name, "nated.") then Question(NatEndpoint, TrimPrefix(name, "nated."))
    else Question(Overlay, name)
  }

  /** The address text of an entry for one kind of query. */
  function AddressText(e: Entry, kind: Kind): Option<string> {
    var value := match kind case Overlay => e.wgIP case LanEndpoint => e.lanEndpoint case NatEndpoint => e.natEndpoint;
    if value == "" then None
    else if kind == Overlay then Some(value)
    else match SplitHostPort(value)
      case None => None
      case Some(hp) => Some(hp.host)
  }

  function AReply(cache: CacheView, store: Store, zone: string, qname: string): Reply {
    var q := QuestionOf(WithoutZone(qname, zone));
    var kind, name := q.kind, q.name;
    match DnsLabelToPubkey(name)
    case None =>
      var target := LookupAlias(store, name);
      if kind == Overlay && target != "" then CnameReply(cache, zone, qname, target) else NxDomain
    case Some(k) =>
      if k !in cache || AddressText(cache[k], kind).None? then NxDomain
      else
        var found := AddressRecord(qname, AddressText(cache[k], kind).value);
        if found == [] then NxDomain else Success(found, [])
  }

  // ---- handleSRV

  /** The SRV record of one endpoint, with the address of its target; nothing when it does not parse. */
  function EndpointAnswer(qname: string, priority: nat, target: string, endpoint: string): seq<RR> {
    match SplitHostPort(endpoint)
    case None => []
    case Some(hp) => [SRV(qname, priority, 0, PortNumber(hp.port), target)]
  }

  function EndpointExtra(target: string, endpoint: string): seq<RR> {
    match SplitHostPort(endpoint)
    case None => []
    case Some(hp) => AddressRecord(target, hp.host)
  }

  const SERVICE: string := "_valon._tcp"
  const PEER_SERVICE: string := "_wireguard._udp."

  function PeerSrvReply(e: Entry, zone: string, qname: string, name: string): Reply {
    var lanName, natName := FQDN("lan." + name, zone), FQDN("nated." + name, zone);
    var answer := EndpointAnswer(qname, 0, lanName, e.lanEndpoint) + EndpointAnswer(qname, 10, natName, e.natEndpoint);
    if answer == [] then NxDomain
    else Success(answer, EndpointExtra(lanName, e.lanEndpoint) + EndpointExtra(natName, e.natEndpoint))
  }

  /** The reply to an SRV query about one peer. */
  function SrvReply(cache: CacheView, zone: string, qname: string): Reply {
    var name := WithoutZone(qname, zone);
    if !HasPrefix(name, PEER_SERVICE) then NxDomain
    else
      var dnsName := TrimPrefix(name, PEER_SERVICE);
      match DnsLabelToPubkey(dnsName)
      case None => NxDomain
      case Some(k) => if k in cache then PeerSrvReply(cache[k], zone, qname, dnsName) else NxDomain
  }

  // ---- handleServiceDiscovery

  function PeerTarget(e: Entry, zone: string): Option<string> {
    match PubkeyToDnsLabel(e.pubKey)
    case None => None
    case Some(name) => Some(FQDN(name, zone))
  }

  function DiscoveryAnswer(e: Entry, zone: string, qname: string): seq<RR> {
    match PeerTarget(e, zone)
    case None => []
    case Some(target) => [SRV(qname, 0, 0, 0, target)]
  }

  function DiscoveryExtra(e: Entry, zone: string): seq<RR> {
    match PeerTarget(e, zone)
    case None => []
    case Some(target) => if e.wgIP == "" then [] else AddressRecord(target, e.wgIP)
  }

  ghost predicate InCache(cache: CacheView, order: seq<string>) {
    forall i :: 0 <= i < |order| ==> order[i] in cache
  }

  /** The order in which the map was walked: every key once. */
  ghost predicate Walks(cache: CacheView, order: seq<string>) {
    && InCache(cache, order)
    && (forall i, j :: 0 <= i < j < |order| ==> order[i] != order[j])
    && forall k :: k in cache ==> k in order
  }

  ghost function DiscoveryAnswers(cache: CacheView, order: seq<string>, zone: string, qname: string): seq<RR>
    requires InCache(cache, order)
  {
    if order == [] then []
    else
      var n := |order| - 1;
      DiscoveryAnswers(cache, order[..n], zone, qname) + DiscoveryAnswer(cache[order[n]], zone, qname)
  }

  ghost function DiscoveryExtras(cache: CacheView, order: seq<string>, zone: string): seq<RR>
    requires InCache(cache, order)
  {
    if order == [] then []
    else DiscoveryExtras(cache, order[..|order| - 1], zone) + DiscoveryExtra(cache[order[|order| - 1]], zone)
  }

  ghost function DiscoveryReply(cache: CacheView, order: seq<string>, zone: string, qname: string): Reply
    requires InCache(cache, order)
  {
    if order == [] then NxDomain
    else Success(DiscoveryAnswers(cache, order, zone, qname), DiscoveryExtras(cache, order, zone))
  }

  lemma WalkStarts(cache: CacheView, zone: string, qname: string)
    ensures DiscoveryAnswers(cache, [], zone, qname) == [] && DiscoveryExtras(cache, [], zone) == []
  {
  }

  lemma WalkContinues(cache: CacheView, order: seq<string>, k: string, zone: string, qname: string)
    requires InCache(cache, order) && k in cache
    ensures DiscoveryAnswers(cache, order + [k], zone, qname)
            == DiscoveryAnswers(cache, order, zone, qname) + DiscoveryAnswer(cache[k], zone, qname)
    ensures DiscoveryExtras(cache, order + [k], zone)
            == DiscoveryExtras(cache, order, zone) + DiscoveryExtra(cache[k], zone)
  {
    hide DiscoveryAnswer, DiscoveryExtra;
    assert (order + [k])[..|order|] == order;
  }

  lemma PrefixRest(s: string, prefix: string)
    requires HasPrefix(s, prefix)
    ensures s == prefix + TrimPrefix(s, prefix)
  {
    assert s[..|prefix|] == s[0..|prefix|];
  }

  class Handler {
    const cache: PeerCache
    const etcd: EtcdServer
    const zone: string

    constructor (cache: PeerCache, etcd: EtcdServer, zone: string)
      ensures this.cache == cache && this.etcd == etcd && this.zone == zone
    {
      this.cache, this.etcd, this.zone := cache, etcd, zone;
    }

    method ReturnCNAME(qname: string, target: string) returns (reply: Reply)
      ensures reply == CnameReply(cache.View(), zone, qname, target)
    {
      var answer := [CNAME(qname, FQDN(target, zone))];
      var k := DnsLabelToPubkey(target);
      if k.None? {
        return Success(answer, []);
      }
      var info := cache.Get(k.value);
      if info == null || info.wgIP == "" {
        return Success(answer, []);
      }
      var ip := ParseIPv4(info.wgIP);
      if ip.Some? {
        answer := answer + [A(FQDN(target, zone), ip.value)];
      }
      return Success(answer, []);
    }

    method HandleA(qname: string) returns (reply: Reply)
      ensures reply == AReply(cache.View(), etcd.kvs, zone, qname)
    {
      hide DnsLabelToPubkey, SplitHostPort, ParseIPv4, WithoutZone, QuestionOf, LookupAlias, CnameReply;
      var q := QuestionOf(WithoutZone(qname, zone));
      var kind, name := q.kind, q.name;
      var k := DnsLabelToPubkey(name);
      if k.None? {
        if kind == Overlay {
          var target := LookupAlias(etcd.kvs, name);
          if target != "" {
            reply := ReturnCNAME(qname, target);
            return;
          }
        }
        return NxDomain;
      }
      var info := cache.Get(k.value);
      if info == null {
        return NxDomain;
      }
      var text := AddressText(info.View(), kind);
      if text.None? {
        return NxDomain;
      }
      var ip := ParseIPv4(text.value);
      if ip.None? {
        return NxDomain;
      }
      return Success([A(qname, ip.value)], []);
    }

    /** Appends the records of one endpoint. */
    method AddEndpoint(answer: seq<RR>, extra: seq<RR>, qname: string, priority: nat, target: string, endpoint: string)
      returns (answers: seq<RR>, extras: seq<RR>)
      ensures answers == answer + EndpointAnswer(qname, priority, target, endpoint)
      ensures extras == extra + EndpointExtra(target, endpoint)
    {
      answers, extras := answer, extra;
      var hp := if endpoint != "" then SplitHostPort(endpoint) else None;
      if hp.Some? {
        answers := answers + [SRV(qname, priority, 0, PortNumber(hp.value.port), target)];
        var ip := ParseIPv4(hp.value.host);
        if ip.Some? {
          extras := extras + [A(target, ip.value)];
        }
      }
    }

    /** An SRV query about a peer, or about all of them. */
    method HandleSRV(qname: string) returns (reply: Reply)
      ensures WithoutZone(qname, zone) != "_valon._tcp" ==> reply == SrvReply(cache.View(), zone, qname)
      ensures WithoutZone(qname, zone) != "_valon._tcp" && reply.Success? ==>
        exists k, name ::
          WithoutZone(qname, zone) == "_wireguard._udp." + name && DnsLabelToPubkey(name) == Some(k)
          && k in cache.View()
      ensures WithoutZone(qname, zone) == "_valon._tcp" ==>
        exists order :: Walks(cache.View(), order) && reply == DiscoveryReply(cache.View(), order, zone, qname)
    {
      hide DnsLabelToPubkey, EndpointAnswer, EndpointExtra, WithoutZone, HasPrefix;
      var name := WithoutZone(qname, zone);
      if name == SERVICE {
        reply := HandleServiceDiscovery(qname);
        return;
      }
      if !HasPrefix(name, PEER_SERVICE) {
        return NxDomain;
      }
      var dnsName := TrimPrefix(name, PEER_SERVICE);
      var k := DnsLabelToPubkey(dnsName);
      if k.None? {
        return NxDomain;
      }
      var info := cache.Get(k.value);
      if info == null {
        return NxDomain;
      }
      PrefixRest(name, PEER_SERVICE);
      var answer, extra := [], [];
      answer, extra := AddEndpoint(answer, extra, qname, 0, FQDN("lan." + dnsName, zone), info.lanEndpoint);
      answer, extra := AddEndpoint(answer, extra, qname, 10, FQDN("nated." + dnsName, zone), info.natEndpoint);
      reply := if answer == [] then NxDomain else Success(answer, extra);
    }

    method HandleServiceDiscovery(qname: string) returns (reply: Reply)
      ensures exists order :: Walks(cache.View(), order) && reply == DiscoveryReply(cache.View(), order, zone, qname)
      ensures reply.NxDomain? <==> cache.View() == map[]
    {
      hide DiscoveryAnswer, DiscoveryExtra, DiscoveryAnswers, DiscoveryExtras;
      WalkStarts(cache.View(), zone, qname);
      var peers := cache.GetAll();
      ghost var view, order := cache.View(), [];
      var answer, extra := [], [];
      var left := peers.Keys;
      while left != {}
        invariant left <= view.Keys == peers.Keys && peers == cache.peers
        invariant InCache(view, order) && (forall k :: k in view ==> (k in left <==> k !in order))
        invariant forall i, j :: 0 <= i < j < |order| ==> order[i] != order[j]
        invariant answer == DiscoveryAnswers(view, order, zone, qname)
        invariant extra == DiscoveryExtras(view, order, zone)
        decreases left
      {
        var k :| k in left;
        var e := peers[k].View();
        answer, extra := answer + DiscoveryAnswer(e, zone, qname), extra + DiscoveryExtra(e, zone);
        left := left - {k};
        WalkContinues(view, order, k, zone, qname);
        order := order + [k];
      }
      reply := if peers == map[] then NxDomain else Success(answer, extra);
      assert order != [] ==> order[0] in peers;
      if order == [] { assert forall k :: k in peers ==> k in order; }
      assert view == cache.View();
      assert Walks(cache.View(), order) && reply == DiscoveryReply(cache.View(), order, zone, qname);
    }
  }
}
