/**
  The client's way back from DNS answers to endpoints (client-scripts/bin/valon-sync): dig, grep, awk and
  sed on text lines.
 */
module ValonSync {
  import opened Options
  import opened Text
  import opened Labels
  import opened Addresses
  import opened Paths
  import opened Cache
  import opened Etcd
  import opened Resolver
  import opened Resolution

  /** The plugin as a client sees it. */
  datatype Server = Server(cache: CacheView, store: Store, zone: string)

  // ---- The shell's tools

  /** dig asks for an absolute name, and the server sees it in lower case. */
  function Asked(name: string): string {
    ToLower(if HasSuffix(name, ".") then name else name + ".")
  }

  /** One line of dig +short. */
  function ShortLine(rr: RR): string {
    match rr
    case A(_, v) => Dotted(v)
    case CNAME(_, target) => target
    case SRV(_, priority, weight, port, target) =>
      FormatNat(priority) + " " + FormatNat(weight) + " " + FormatNat(port) + " " + target
  }

  function Lines(answer: seq<RR>): (lines: seq<string>)
    ensures |lines| == |answer|
  {
    seq(|answer|, i requires 0 <= i < |answer| => ShortLine(answer[i]))
  }

  function ShortLines(reply: Reply): seq<string> {
    match reply
    case NxDomain => []
    case Success(answer, _) => Lines(answer)
  }

  function DigSrv(server: Server, name: string): seq<string> {
    ShortLines(SrvReply(server.cache, server.zone, Asked(name)))
  }

  function DigA(server: Server, name: string): seq<string> {
    ShortLines(AReply(server.cache, server.store, server.zone, Asked(name)))
  }

  /** grep pattern | head -n1 */
  function FirstMatch(lines: seq<string>, pattern: string): string {
    if lines == [] then "" else if Contains(lines[0], pattern) then lines[0] else FirstMatch(lines[1..], pattern)
  }

  function Head(lines: seq<string>): string {
    if lines == [] then "" else lines[0]
  }

  /** awk's field `n`, counted from 1. */
  function Word(line: string, n: nat): string
    requires n >= 1
  {
    var words := NonEmpty(Split(line, ' '));
    if n <= |words| then words[n - 1] else ""
  }

  /** pubkey_to_label */
  function ScriptLabel(pubkey: string): string {
    match PubkeyToDnsLabel(pubkey)
    case None => ""
    case Some(name) => name
  }

  // ---- What the server must offer

  ghost predicate Offered(endpoint: string) {
    endpoint == "" || CanonicalEndpoint(endpoint)
  }

  /** A lower-case zone in which neither grep pattern can be found. */
  predicate ProperZone(z: string) {
    z != "" && z[|z| - 1] != '.' && ' ' !in z && ToLower(z) == z && !Contains(z + ".", "lan.")
      && !Contains(z + ".", "nated.")
  }

  // ---- grep finds no pattern but the intended one

  /**
    A pattern "q." is absent from "head.name.zone" when the dots there follow other letters than q's last
    and the zone is free of the pattern.
   */
  lemma PatternAbsent(head: string, name: string, zone: string, q: string)
    requires |q| >= 1 && |head| >= 1 && |name| >= 1
    requires '.' !in head && '.' !in name && '.' !in q
    requires head[|head| - 1] != q[|q| - 1] && name[|name| - 1] != q[|q| - 1]
    requires !Contains(zone, q + ".")
    ensures !Contains(head + "." + name + "." + zone, q + ".")
  {
    var s, pattern := head + "." + name + "." + zone, q + ".";
    assert forall d :: 0 <= d < |head| + |name| + 2 ==>
      s[d] == if d < |head| then head[d] else if |head| < d <= |head| + |name| then name[d - |head| - 1] else '.';
    var i := Index(s, pattern);
    if i != -1 {
      OccurrenceChars(s, pattern, i, i + |q|);
      OccurrenceChars(s, pattern, i, i + |q| - 1);
      DotInZone(head + "." + name + ".", zone, q, i);
    }
  }

  lemma DotInZone(front: string, zone: string, q: string, i: int)
    requires |front| >= 1 && front[|front| - 1] == '.' && '.' !in q && OccursAt(front + zone, q + ".", i)
    requires !Contains(zone, q + ".")
    ensures i + |q| < |front|
  {
    var s, pattern := front + zone, q + ".";
    var z := |front|;
    if i >= z {
      OccurrenceBehind(front, zone, pattern, i);
    } else if i + |q| >= z {
      OccurrenceChars(s, pattern, i, z - 1);
    }
  }

  lemma OccurrenceBehind(front: string, rest: string, pattern: string, i: int)
    requires OccursAt(front + rest, pattern, i) && i >= |front|
    ensures OccursAt(rest, pattern, i - |front|)
  {
    var z := |front|;
    assert rest[i - z..i - z + |pattern|] == (front + rest)[i..i + |pattern|];
  }

  function LineHead(priority: nat, port: nat, kind: string): string {
    FormatNat(priority) + " " + FormatNat(0) + " " + FormatNat(port) + " " + kind
  }

  lemma LineHeadHasNoDot(priority: nat, port: nat, kind: string)
    requires '.' !in kind
    ensures '.' !in LineHead(priority, port, kind)
  {
    FormatHasNoDot(priority);
    FormatHasNoDot(0);
    FormatHasNoDot(port);
  }

  /** The line of an SRV answer, cut at its dots. */
  lemma LineParts(qname: string, priority: nat, port: nat, kind: string, name: string, zone: string)
    ensures ShortLine(SRV(qname, priority, 0, port, FQDN(kind + "." + name, zone)))
            == LineHead(priority, port, kind) + "." + name + "." + zone
  {
  }

  lemma LineMatches(qname: string, priority: nat, port: nat, kind: string, name: string, zone: string)
    ensures Contains(ShortLine(SRV(qname, priority, 0, port, FQDN(kind + "." + name, zone))), kind + ".")
  {
    var front := FormatNat(priority) + " " + FormatNat(0) + " " + FormatNat(port) + " ";
    var s := ShortLine(SRV(qname, priority, 0, port, FQDN(kind + "." + name, zone)));
    assert s == front + (kind + ".") + (name + "." + zone);
    OccursAtConcat(front, kind + ".", name + "." + zone);
  }

  lemma LineDoesNotMatch(qname: string, priority: nat, port: nat, kind: string, name: string, zone: string, q: string)
    requires |kind| >= 1 && |name| >= 1 && |q| >= 1 && '.' !in kind && '.' !in name && '.' !in q
    requires kind[|kind| - 1] != q[|q| - 1] && name[|name| - 1] != q[|q| - 1] && !Contains(zone, q + ".")
    ensures !Contains(ShortLine(SRV(qname, priority, 0, port, FQDN(kind + "." + name, zone))), q + ".")
  {
    hide ShortLine, Contains, FormatNat;
    LineParts(qname, priority, port, kind, name, zone);
    LineHeadHasNoDot(priority, port, kind);
    PatternAbsent(LineHead(priority, port, kind), name, zone, q);
  }

  // ---- awk reads the fields back

  lemma LineWords(qname: string, priority: nat, port: nat, target: string)
    requires target != "" && ' ' !in target
    ensures var line := ShortLine(SRV(qname, priority, 0, port, target));
            Word(line, 3) == FormatNat(port) && Word(line, 4) == target
  {
    hide Split, Join, NonEmpty, FormatNat;
    var line := ShortLine(SRV(qname, priority, 0, port, target));
    var parts := [FormatNat(priority), FormatNat(0), FormatNat(port), target];
    FormatHasNoDot(priority);
    FormatHasNoDot(0);
    FormatHasNoDot(port);
    ParseFormat(priority);
    ParseFormat(0);
    ParseFormat(port);
    JoinFour(parts[0], parts[1], parts[2], parts[3], ' ');
    SplitJoin(parts, ' ');
    NonEmptyIdentity(parts);
  }

  // ---- One endpoint, there and back

  /** What the script makes of one line. */
  function EndpointOf(server: Server, line: string): string {
    if line == "" then ""
    else
      var ip := Head(DigA(server, TrimSuffix(Word(line, 4), ".")));
      if ip == "" then "" else ip + ":" + Word(line, 3)
  }

  lemma AskedForName(name: string, dnsZone: string)
    requires ProperZone(dnsZone) && ToLower(name) == name
    ensures Asked(name + "." + dnsZone) == FQDN(name, dnsZone + ".")
  {
    var s := name + "." + dnsZone;
    if HasSuffix(s, ".") { OccurrenceChars(s, ".", |s| - 1, |s| - 1); }
    var t := s + ".";
    assert t == FQDN(name, dnsZone + ".");
    forall i | 0 <= i < |t| ensures Lower(t[i]) == t[i] {
      if i < |name| { assert ToLower(name)[i] == name[i]; }
      if |name| < i < |s| { assert ToLower(dnsZone)[i - |name| - 1] == dnsZone[i - |name| - 1]; }
    }
    assert ToLower(t) == t;
  }

  /** The A query behind an SRV target returns the host of the stored endpoint. */
  lemma TargetQuery(server: Server, dnsZone: string, k: string, kind: string, v: address, port: nat)
    requires IsPubkey(k) && k in server.cache && IsKind(kind) && port <= 65535
    requires ProperZone(dnsZone) && server.zone == dnsZone + "."
    requires var e := server.cache[k];
             (if kind == "lan" then e.lanEndpoint else e.natEndpoint) == EndpointText(v, port)
    ensures DigA(server, kind + "." + LabelOf(k) + "." + dnsZone) == [Dotted(v)]
  {
    hide IsPubkey, DnsLabelToPubkey, PubkeyToDnsLabel, WithoutZone, FQDN, LookupAlias, CnameReply, ProperZone, Asked,
      EndpointText, Dotted, LabelOf, QuestionOf, SplitHostPort, ParseIPv4, FormatNat, ToLower;
    var name := kind + "." + LabelOf(k);
    KeyLabel(k);
    LowerName(k, kind);
    AskedForName(name, dnsZone);
    assert name + "." + dnsZone == kind + "." + LabelOf(k) + "." + dnsZone;
    WithoutZoneOfName(name, server.zone);
    KindQuestion(kind, LabelOf(k));
    SplitEndpoint(v, port);
    ParseDotted(v);
    EndpointNotEmpty(v, port);
    assert AReply(server.cache, server.store, server.zone, FQDN(name, server.zone))
      == Success([A(FQDN(name, server.zone), v)], []);
  }

  lemma EndpointNotEmpty(v: address, port: nat)
    ensures EndpointText(v, port) != "" && Dotted(v) != ""
  {
  }

  lemma LowerConcat(a: string, b: string)
    ensures ToLower(a + b) == ToLower(a) + ToLower(b)
  {
  }

  lemma LabelIsLower(k: string)
    requires IsPubkey(k)
    ensures ToLower(LabelOf(k)) == LabelOf(k)
  {
    hide IsPubkey, LabelOf, PubkeyToDnsLabel;
    KeyLabel(k);
    assert forall i :: 0 <= i < 52 ==> Lower(LabelOf(k)[i]) == LabelOf(k)[i];
  }

  lemma LowerName(k: string, kind: string)
    requires IsPubkey(k) && IsKind(kind)
    ensures ToLower(kind + "." + LabelOf(k)) == kind + "." + LabelOf(k)
  {
    hide IsPubkey, LabelOf, PubkeyToDnsLabel;
    LabelIsLower(k);
    assert ToLower(kind + ".") == kind + ".";
    hide ToLower;
    LowerConcat(kind + ".", LabelOf(k));
  }

  /** The target of an SRV answer, and the name sed makes of it. */
  lemma TargetText(k: string, kind: string, dnsZone: string)
    requires IsPubkey(k) && IsKind(kind) && ProperZone(dnsZone)
    ensures var target := FQDN(kind + "." + LabelOf(k), dnsZone + ".");
            target != "" && ' ' !in target && TrimSuffix(target, ".") == kind + "." + LabelOf(k) + "." + dnsZone
  {
    hide IsPubkey, LabelOf, PubkeyToDnsLabel, Contains, ToLower;
    KeyLabel(k);
    var s := kind + "." + LabelOf(k) + "." + dnsZone;
    SuffixConcat(s, ".");
    assert FQDN(kind + "." + LabelOf(k), dnsZone + ".") == s + ".";
    assert ' ' !in LabelOf(k);
  }

  /** The line about one endpoint leads the script back to the stored text. */
  lemma LineLeadsBack(server: Server, dnsZone: string, qname: string, priority: nat, k: string, kind: string,
                      v: address, port: nat)
    requires IsPubkey(k) && k in server.cache && IsKind(kind) && port <= 65535
    requires ProperZone(dnsZone) && server.zone == dnsZone + "."
    requires var e := server.cache[k];
             (if kind == "lan" then e.lanEndpoint else e.natEndpoint) == EndpointText(v, port)
    ensures var line := ShortLine(SRV(qname, priority, 0, port, FQDN(kind + "." + LabelOf(k), server.zone)));
            line != "" && EndpointOf(server, line) == EndpointText(v, port)
  {
    hide IsPubkey, DigA, ShortLine, Word, LabelOf, PubkeyToDnsLabel, Dotted, FormatNat, Contains;
    var target := FQDN(kind + "." + LabelOf(k), server.zone);
    TargetText(k, kind, dnsZone);
    hide FQDN;
    LineWords(qname, priority, port, target);
    LineMatches(qname, priority, port, kind, LabelOf(k), server.zone);
    TargetQuery(server, dnsZone, k, kind, v, port);
    EndpointNotEmpty(v, port);
    NonEmptyLine(qname, priority, port, target);
  }

  lemma NonEmptyLine(qname: string, priority: nat, port: nat, target: string)
    ensures ShortLine(SRV(qname, priority, 0, port, target)) != ""
  {
  }

  // ---- get_peer_endpoints

  /** A cached peer with canonical endpoints, under a zone that the script can ask about. */
  ghost predicate Reachable(server: Server, dnsZone: string, k: string) {
    IsPubkey(k) && k in server.cache && Offered(server.cache[k].lanEndpoint) && Offered(server.cache[k].natEndpoint)
    && ProperZone(dnsZone) && server.zone == dnsZone + "."
  }

  function PeerQuestion(k: string): string
    requires IsPubkey(k)
  {
    PEER_SERVICE + LabelOf(k)
  }

  function EndpointLines(server: Server, k: string, priority: nat, kind: string, endpoint: string): seq<string>
    requires IsPubkey(k)
  {
    var qname, target := FQDN(PeerQuestion(k), server.zone), FQDN(kind + "." + LabelOf(k), server.zone);
    Lines(EndpointAnswer(qname, priority, target, endpoint))
  }

  lemma ServiceIsLower()
    ensures ToLower(PEER_SERVICE) == PEER_SERVICE
  {
    assert forall i :: 0 <= i < |PEER_SERVICE| ==> Lower(PEER_SERVICE[i]) == PEER_SERVICE[i];
  }

  lemma QuestionReaches(k: string, dnsZone: string)
    requires IsPubkey(k) && ProperZone(dnsZone)
    ensures Asked(PEER_SERVICE + LabelOf(k) + "." + dnsZone) == FQDN(PeerQuestion(k), dnsZone + ".")
    ensures HasPrefix(PeerQuestion(k), PEER_SERVICE) && TrimPrefix(PeerQuestion(k), PEER_SERVICE) == LabelOf(k)
  {
    hide IsPubkey, LabelOf, PubkeyToDnsLabel, ProperZone, Asked;
    KeyLabel(k);
    PrefixConcat(PEER_SERVICE, LabelOf(k));
    LabelIsLower(k);
    ServiceIsLower();
    hide ToLower;
    LowerConcat(PEER_SERVICE, LabelOf(k));
    AskedForName(PeerQuestion(k), dnsZone);
  }

  lemma PeerReply(server: Server, dnsZone: string, k: string)
    requires IsPubkey(k) && k in server.cache && ProperZone(dnsZone) && server.zone == dnsZone + "."
    ensures SrvReply(server.cache, server.zone, Asked(PEER_SERVICE + LabelOf(k) + "." + dnsZone))
            == PeerSrvReply(server.cache[k], server.zone, FQDN(PeerQuestion(k), server.zone), LabelOf(k))
  {
    hide IsPubkey, LabelOf, ProperZone, Asked, WithoutZone, FQDN, DnsLabelToPubkey, PubkeyToDnsLabel, HasPrefix,
      PeerQuestion, PeerSrvReply, TrimPrefix;
    QuestionReaches(k, dnsZone);
    WithoutZoneOfName(PeerQuestion(k), server.zone);
    KeyLabel(k);
  }

  lemma LinesConcat(a: seq<RR>, b: seq<RR>)
    ensures Lines(a + b) == Lines(a) + Lines(b)
  {
    hide ShortLine;
  }

  /** What dig prints for a peer: the LAN line, if any, and the NAT line, if any. */
  lemma PeerLines(server: Server, dnsZone: string, k: string)
    requires IsPubkey(k) && k in server.cache && ProperZone(dnsZone) && server.zone == dnsZone + "."
    ensures DigSrv(server, PEER_SERVICE + LabelOf(k) + "." + dnsZone)
            == EndpointLines(server, k, 0, "lan", server.cache[k].lanEndpoint)
               + EndpointLines(server, k, 10, "nated", server.cache[k].natEndpoint)
  {
    hide IsPubkey, LabelOf, PubkeyToDnsLabel, ProperZone, Asked, FQDN, EndpointAnswer, EndpointExtra, Lines, SrvReply,
      PeerQuestion;
    PeerReply(server, dnsZone, k);
    var e, qname := server.cache[k], FQDN(PeerQuestion(k), server.zone);
    assert "lan." + LabelOf(k) == "lan" + "." + LabelOf(k) && "nated." + LabelOf(k) == "nated" + "." + LabelOf(k);
    LinesConcat(EndpointAnswer(qname, 0, FQDN("lan." + LabelOf(k), server.zone), e.lanEndpoint),
                EndpointAnswer(qname, 10, FQDN("nated." + LabelOf(k), server.zone), e.natEndpoint));
  }

  lemma OneLine(qname: string, priority: nat, target: string, v: address, port: nat)
    requires port <= 65535
    ensures Lines(EndpointAnswer(qname, priority, target, EndpointText(v, port)))
            == [ShortLine(SRV(qname, priority, 0, port, target))]
  {
    hide ShortLine, EndpointText, FormatNat, Dotted, SplitHostPort;
    SplitEndpoint(v, port);
    PortOfFormat(port);
  }

  lemma NoLine(qname: string, priority: nat, target: string)
    ensures Lines(EndpointAnswer(qname, priority, target, "")) == []
  {
  }

  lemma LinesOfEndpoint(server: Server, dnsZone: string, k: string, priority: nat, kind: string)
    requires Reachable(server, dnsZone, k) && IsKind(kind)
    ensures var endpoint := if kind == "lan" then server.cache[k].lanEndpoint else server.cache[k].natEndpoint;
            var lines := EndpointLines(server, k, priority, kind, endpoint);
            if endpoint == "" then lines == []
            else
              && |lines| == 1 && lines[0] != "" && EndpointOf(server, lines[0]) == endpoint
              && Contains(lines[0], kind + ".") && !Contains(lines[0], (if kind == "lan" then "nated" else "lan") + ".")
  {
    hide IsPubkey, LabelOf, PubkeyToDnsLabel, FQDN, ShortLine, EndpointOf, Contains, EndpointText, Lines,
      EndpointAnswer, PeerQuestion;
    var endpoint := if kind == "lan" then server.cache[k].lanEndpoint else server.cache[k].natEndpoint;
    var qname := FQDN(PeerQuestion(k), server.zone);
    var target := FQDN(kind + "." + LabelOf(k), server.zone);
    if endpoint == "" {
      NoLine(qname, priority, target);
    } else {
      var v: address, port: nat :| port <= 65535 && endpoint == EndpointText(v, port);
      OneLine(qname, priority, target, v, port);
      LineLeadsBack(server, dnsZone, qname, priority, k, kind, v, port);
      LineMatches(qname, priority, port, kind, LabelOf(k), server.zone);
      OtherPatternAbsent(dnsZone, k, qname, priority, port, kind);
    }
  }

  lemma ZoneSpares(dnsZone: string, q: string)
    requires IsKind(q) && ProperZone(dnsZone)
    ensures !Contains(dnsZone + ".", q + ".")
  {
    hide Contains, ToLower;
    assert "nated" + "." == "nated." && "lan" + "." == "lan.";
  }

  lemma LabelEnds(k: string)
    requires IsPubkey(k)
    ensures '.' !in LabelOf(k) && |LabelOf(k)| == 52 && LabelOf(k)[51] != 'n' && LabelOf(k)[51] != 'd'
  {
    hide IsPubkey, LabelOf, PubkeyToDnsLabel;
    KeyLabel(k);
    LabelHasNoDot(k);
  }

  lemma OtherPatternAbsent(dnsZone: string, k: string, qname: string, priority: nat, port: nat, kind: string)
    requires IsPubkey(k) && IsKind(kind) && ProperZone(dnsZone)
    ensures !Contains(ShortLine(SRV(qname, priority, 0, port, FQDN(kind + "." + LabelOf(k), dnsZone + "."))),
                      (if kind == "lan" then "nated" else "lan") + ".")
  {
    hide IsPubkey, LabelOf, PubkeyToDnsLabel, FQDN, ShortLine, Contains, ToLower, ProperZone;
    var q := if kind == "lan" then "nated" else "lan";
    LabelEnds(k);
    ZoneSpares(dnsZone, q);
    assert '.' !in kind && '.' !in q && kind[|kind| - 1] != q[|q| - 1];
    LineDoesNotMatch(qname, priority, port, kind, LabelOf(k), dnsZone + ".", q);
  }

  lemma FirstOfTwo(a: seq<string>, b: seq<string>, pattern: string)
    requires |a| <= 1 && |b| <= 1
    ensures FirstMatch(a + b, pattern)
            == if a != [] && Contains(a[0], pattern) then a[0] else if b != [] && Contains(b[0], pattern) then b[0]
              else ""
  {
    hide Contains;
    if a != [] {
      assert (a + b)[1..] == b;
    } else {
      assert a + b == b;
    }
    if b != [] { assert b[1..] == []; }
  }

  /**
    For every cached peer with canonical or missing endpoints, the script recovers exactly the pair that
    the plugin holds.
   */
  method GetPeerEndpoints(server: Server, dnsZone: string, pubkey: string) returns (lanEndpoint: string,
                          natEndpoint: string)
    ensures Reachable(server, dnsZone, pubkey) ==>
      lanEndpoint == server.cache[pubkey].lanEndpoint && natEndpoint == server.cache[pubkey].natEndpoint
  {
    hide LabelOf, DigSrv, DigA, EndpointLines, Word, Contains, Offered, ProperZone, IsPubkey, PubkeyToDnsLabel;
    var name := ScriptLabel(pubkey);
    var lanSrv := FirstMatch(DigSrv(server, PEER_SERVICE + name + "." + dnsZone), "lan.");
    var natSrv := FirstMatch(DigSrv(server, PEER_SERVICE + name + "." + dnsZone), "nated.");
    lanEndpoint, natEndpoint := "", "";
    if lanSrv != "" {
      var port, target := Word(lanSrv, 3), TrimSuffix(Word(lanSrv, 4), ".");
      var ip := Head(DigA(server, target));
      if ip != "" {
        lanEndpoint := ip + ":" + port;
      }
    }
    if natSrv != "" {
      var port, target := Word(natSrv, 3), TrimSuffix(Word(natSrv, 4), ".");
      var ip := Head(DigA(server, target));
      if ip != "" {
        natEndpoint := ip + ":" + port;
      }
    }
    if Reachable(server, dnsZone, pubkey) {
      MatchesLeadBack(server, dnsZone, pubkey);
    }
  }

  lemma MatchesLeadBack(server: Server, dnsZone: string, k: string)
    requires Reachable(server, dnsZone, k)
    ensures ScriptLabel(k) == LabelOf(k)
    ensures var lines := DigSrv(server, PEER_SERVICE + LabelOf(k) + "." + dnsZone);
            && EndpointOf(server, FirstMatch(lines, "lan.")) == server.cache[k].lanEndpoint
            && EndpointOf(server, FirstMatch(lines, "nated.")) == server.cache[k].natEndpoint
  {
    hide IsPubkey, LabelOf, DigSrv, DigA, EndpointLines, Word, Contains, Offered, ProperZone, FirstMatch;
    PeerLines(server, dnsZone, k);
    LinesOfEndpoint(server, dnsZone, k, 0, "lan");
    LinesOfEndpoint(server, dnsZone, k, 10, "nated");
    var a := EndpointLines(server, k, 0, "lan", server.cache[k].lanEndpoint);
    var b := EndpointLines(server, k, 10, "nated", server.cache[k].natEndpoint);
    assert "nated" + "." == "nated." && "lan" + "." == "lan.";
    FirstOfTwo(a, b, "lan.");
    FirstOfTwo(a, b, "nated.");
  }
}
