/**
  The flat etcd keys of a peer: two printers (the plugin's fmt.Sprintf and valonctl's path.Join)
  and two parsers (the plugin's loadFromEtcd and valonctl's ListPeers), which search for the first
  known field name because a base 64 key may contain slashes.
 */
module PeerKeys {
  import opened Options
  import opened Text
  import opened Labels
  import opened Paths

  /** The fields that are written today, and three that only old registries hold. */
  datatype Field = WgIp | Alias | Lan | Nated | OldIp | OldEndpoint | LastSeen

  const PEERS: string := "/valon/peers/"
  const ALIASES: string := "/valon/aliases/"

  function FieldPath(f: Field): string {
    match f
    case WgIp => "wg_ip"
    case Alias => "alias"
    case Lan => "endpoints/lan"
    case Nated => "endpoints/nated"
    case OldIp => "ip"
    case OldEndpoint => "endpoint"
    case LastSeen => "last_seen"
  }

  // ---- Printers

  /** The plugin's keys: plain formatting. */
  function PeerKey(k: string, f: Field): string {
    PEERS + k + "/" + FieldPath(f)
  }

  function AliasKey(alias: string): string {
    ALIASES + alias
  }

  /** valonctl's keys: path.Join cleans the path. */
  function CtlPeerPrefix(k: string): string {
    RootedElement();
    PathJoin(["/valon", "peers", k])
  }

  function CtlPeerKey(k: string, f: Field): string {
    CtlPeerPrefixRooted(k);
    PathJoin([CtlPeerPrefix(k), FieldPath(f)])
  }

  function CtlAliasKey(alias: string): string {
    RootedElement();
    PathJoin(["/valon", "aliases", alias])
  }

  lemma RootedElement()
    ensures HasPrefix("/valon", "/")
  {
  }

  lemma CtlPeerPrefixRooted(k: string)
    ensures HasPrefix(CtlPeerPrefix(k), "/")
  {
    RootedElement();
    assert CtlPeerPrefix(k)[0..1] == "/";
  }

  // ---- Printing is injective

  /** Two characters of a printed key tell its field: the last one and the third last one. */
  function Mark(f: Field): (char, char) {
    match f
    case WgIp => ('_', 'p')
    case Alias => ('i', 's')
    case Lan => ('l', 'n')
    case Nated => ('t', 'd')
    case OldIp => ('/', 'p')
    case OldEndpoint => ('i', 't')
    case LastSeen => ('e', 'n')
  }

  lemma TailChars(f: Field)
    ensures var t := "/" + FieldPath(f); |t| > 2 && (t[|t| - 3], t[|t| - 1]) == Mark(f)
  {
  }

  lemma LastChars(k: string, f: Field)
    ensures var s := PeerKey(k, f); |s| > 2 && (s[|s| - 3], s[|s| - 1]) == Mark(f)
  {
    hide FieldPath;
    TailChars(f);
    var s, tail := PeerKey(k, f), "/" + FieldPath(f);
    assert s == PEERS + k + tail;
    assert s[|s| - 1] == tail[|tail| - 1] && s[|s| - 3] == tail[|tail| - 3];
  }

  /** No two (key, field) pairs share an etcd key, whatever text the key is. */
  lemma PeerKeyInjective(k: string, f: Field, l: string, g: Field)
    requires PeerKey(k, f) == PeerKey(l, g)
    ensures k == l && f == g
  {
    LastChars(k, f);
    LastChars(l, g);
    PeerKeyText(k, f);
    PeerKeyText(l, f);
  }

  /** Cutting a printed key's ends off gives the key back. */
  lemma PeerKeyText(k: string, f: Field)
    ensures k == TrimSuffix(TrimPrefix(PeerKey(k, f), PEERS), "/" + FieldPath(f))
  {
    var tail := "/" + FieldPath(f);
    assert PeerKey(k, f) == PEERS + (k + tail);
    PrefixConcat(PEERS, k + tail);
    SuffixConcat(k, tail);
  }

  lemma AliasKeyInjective(a: string, b: string)
    requires AliasKey(a) == AliasKey(b)
    ensures a == b
  {
    PrefixConcat(ALIASES, a);
    PrefixConcat(ALIASES, b);
  }

  lemma PeerKeyIsNoAliasKey(k: string, f: Field, a: string)
    ensures PeerKey(k, f) != AliasKey(a)
  {
    assert PeerKey(k, f)[7] == 'p' && AliasKey(a)[7] == 'a';
  }

  // ---- The two printers agree on intact keys only

  /** No slash at the front and no two in a row: path.Join leaves such a key alone. */
  predicate Intact(k: string) {
    k != "" && k[0] != '/' && forall i :: 0 < i < |k| ==> k[i - 1] != '/' || k[i] != '/'
  }

  lemma KeyComponents(k: string)
    requires KeyShape(k)
    ensures AllNonEmpty(Split(k, '/')) <==> Intact(k)
    ensures NoDots(Split(k, '/')) && Split(k, '/') != []
    ensures Join(Split(k, '/'), '/') == k && forall p :: p in Split(k, '/') ==> '/' !in p
    ensures exists p :: p in Split(k, '/') && '=' in p
  {
    hide Join, Split;
    SplitAllNonEmpty(k);
    JoinSplit(k, '/');
    SplitPartsPlain(k, '/');
    assert k[43] in k;
    SplitKeepsChars(k, '/', '=');
    var parts := Split(k, '/');
    assert '.' !in k;
    forall i | 0 <= i < |parts|
      ensures parts[i] != "." && parts[i] != ".."
    {
      if parts[i] == "." || parts[i] == ".." {
        DotSurvives(parts, i);
      }
    }
  }

  lemma DotSurvives(parts: seq<string>, i: nat)
    requires i < |parts| && (parts[i] == "." || parts[i] == "..")
    ensures '.' in Join(parts, '/')
  {
    assert parts[i][0] == '.' && parts[i] in parts;
    JoinKeepsChars(parts, '/', '.');
  }

  lemma JoinedKey(k: string)
    requires KeyShape(k)
    ensures "/" + Join(["valon", "peers"] + Split(k, '/'), '/') == PEERS + k
  {
    hide Join, Split;
    KeyComponents(k);
    JoinConcat(["valon", "peers"], Split(k, '/'), '/');
    JoinTwo("valon", "peers", '/');
  }

  lemma CtlPrefixComponents(k: string)
    requires KeyShape(k)
    ensures CtlPeerPrefix(k) == "/" + Join(["valon", "peers"] + NonEmpty(Split(k, '/')), '/')
  {
    hide Join, Split, CtlPeerPrefix;
    NonEmptyPartsExist(k);
    CtlPrefixOfText(k);
  }

  /** path.Join keeps every other key but shortens this one, so its prefix ends before or inside the key. */
  lemma PrinterPrefixesAgreeIff(k: string)
    requires KeyShape(k)
    ensures CtlPeerPrefix(k) == PEERS + k <==> Intact(k)
  {
    hide Join, Split, CtlPeerPrefix, Intact;
    CtlPrefixComponents(k);
    KeyComponents(k);
    JoinedKey(k);
    var parts := Split(k, '/');
    NonEmptyIdentity(parts);
    if CtlPeerPrefix(k) == PEERS + k {
      var a, b := ["valon", "peers"] + NonEmpty(parts), ["valon", "peers"] + parts;
      assert ("/" + Join(a, '/'))[1..] == Join(a, '/') && ("/" + Join(b, '/'))[1..] == Join(b, '/');
      SplitJoin(a, '/');
      SplitJoin(b, '/');
      assert a[2..] == NonEmpty(parts) && b[2..] == parts;
    }
  }

  lemma NonEmptyPartsExist(k: string)
    requires KeyShape(k)
    ensures NonEmpty(Split(k, '/')) != [] && '=' in Join(NonEmpty(Split(k, '/')), '/')
    ensures |Join(NonEmpty(Split(k, '/')), '/')| <= 44
  {
    KeyComponents(k);
    NonEmptyIdentity(Split(k, '/'));
    JoinNonEmptyShorter(Split(k, '/'), '/');
    var p :| p in Split(k, '/') && '=' in p;
    assert p in NonEmpty(Split(k, '/'));
    JoinKeepsChars(NonEmpty(Split(k, '/')), '/', '=');
  }

  lemma ReachingPrefixIsWhole(k: string, f: Field)
    requires KeyShape(k) && HasPrefix(PeerKey(k, f), CtlPeerPrefix(k))
    ensures CtlPeerPrefix(k) == PEERS + k
  {
    hide Join, Split, CtlPeerPrefix, NonEmpty;
    CtlPrefixComponents(k);
    NonEmptyPartsExist(k);
    var prefix, s := CtlPeerPrefix(k), PeerKey(k, f);
    var tail := Join(NonEmpty(Split(k, '/')), '/');
    JoinConcat(["valon", "peers"], NonEmpty(Split(k, '/')), '/');
    JoinTwo("valon", "peers", '/');
    assert prefix == PEERS + tail;
    var i :| 0 <= i < |tail| && tail[i] == '=';
    assert prefix[13 + i] == '=';
    OccurrenceChars(s, prefix, 0, 13 + i);
    OnlyEquals(k, f, 13 + i);
    assert s[0..57] == PEERS + k;
  }

  /**
    A prefix delete by valonctl reaches the keys the plugin writes for the same peer exactly when the
    key is intact.
   */
  lemma PrefixReachesPluginKeysIff(k: string, f: Field)
    requires KeyShape(k)
    ensures HasPrefix(PeerKey(k, f), CtlPeerPrefix(k)) <==> Intact(k)
  {
    hide CtlPeerPrefix, Intact;
    PrinterPrefixesAgreeIff(k);
    if HasPrefix(PeerKey(k, f), CtlPeerPrefix(k)) {
      ReachingPrefixIsWhole(k, f);
    }
    if Intact(k) {
      PrefixConcat(PEERS + k, "/" + FieldPath(f));
      assert PeerKey(k, f) == (PEERS + k) + ("/" + FieldPath(f));
    }
  }

  lemma OnlyEquals(k: string, f: Field, i: nat)
    requires KeyShape(k) && i < |PeerKey(k, f)| && PeerKey(k, f)[i] == '='
    ensures i == 56
  {
    var s := PeerKey(k, f);
    assert forall j :: 0 <= j < 13 ==> s[j] == PEERS[j] != '=';
    assert forall j :: 13 <= j < 57 ==> s[j] == k[j - 13];
    assert forall j :: 57 <= j < |s| ==> s[j] == ("/" + FieldPath(f))[j - 57] != '=';
  }

  function FieldParts(f: Field): seq<string> {
    match f
    case WgIp => ["wg_ip"]
    case Alias => ["alias"]
    case Lan => ["endpoints", "lan"]
    case Nated => ["endpoints", "nated"]
    case _ => [FieldPath(f)]
  }

  lemma FieldComponents(f: Field)
    ensures Split(FieldPath(f), '/') == FieldParts(f) && Join(FieldParts(f), '/') == FieldPath(f)
    ensures Names(FieldParts(f)) && FieldParts(f) != []
  {
    hide Split;
    if f == Lan {
      JoinTwo("endpoints", "lan", '/');
      assert "endpoints" + ['/'] + "lan" == "endpoints/lan";
    }
    if f == Nated {
      JoinTwo("endpoints", "nated", '/');
      assert "endpoints" + ['/'] + "nated" == "endpoints/nated";
    }
    SplitJoin(FieldParts(f), '/');
  }

  lemma CtlPeerKeyAgrees(k: string, f: Field)
    requires KeyShape(k) && Intact(k)
    ensures CtlPeerKey(k, f) == PeerKey(k, f)
  {
    hide Join, Split, Intact, CtlPeerKey, PeerKey;
    KeyComponents(k);
    NonEmptyIdentity(Split(k, '/'));
    CtlKeyOfText(k, f);
  }

  /** path.Join of any text without dots: the text without its superfluous slashes. */
  lemma CtlKeyOfText(k: string, f: Field)
    requires '.' !in k && NonEmpty(Split(k, '/')) != []
    ensures CtlPeerKey(k, f) == PeerKey(Join(NonEmpty(Split(k, '/')), '/'), f)
  {
    hide Join, Split, CleanRooted, NonEmpty, PeerKey, Names, CtlPeerPrefix, FieldPath, FieldParts;
    var head, kept := ["valon", "peers"], NonEmpty(Split(k, '/'));
    CtlPrefixOfText(k);
    FieldComponents(f);
    SplitPartsPlain(k, '/');
    NoDotParts(k);
    KeptAreNames(Split(k, '/'));
    HeadNames();
    NamesConcat(head, kept);
    NamesConcat(head + kept, FieldParts(f));
    CleanProperPath(head + kept + FieldParts(f));
    JoinConcat(head + kept, FieldParts(f), '/');
    CtlPeerPrefixRooted(k);
    JoinTwo(CtlPeerPrefix(k), FieldPath(f), '/');
    var path := Join(head + kept, '/');
    assert "/" + (path + ['/'] + FieldPath(f)) == ("/" + path) + ['/'] + FieldPath(f);
    PrintedText(kept, f);
  }

  lemma HeadNames()
    ensures Names(["valon", "peers"])
  {
  }

  lemma KeptAreNames(parts: seq<string>)
    requires NoDots(parts) && forall p :: p in parts ==> '/' !in p
    ensures Names(NonEmpty(parts))
  {
    hide Resolve;
    ResolveShape(parts, []);
    ResolveWithoutDots(parts, []);
    assert [] + NonEmpty(parts) == NonEmpty(parts);
  }

  lemma PrintedText(kept: seq<string>, f: Field)
    requires kept != []
    ensures ("/" + Join(["valon", "peers"] + kept, '/')) + ['/'] + FieldPath(f) == PeerKey(Join(kept, '/'), f)
  {
    hide Join, FieldPath;
    JoinConcat(["valon", "peers"], kept, '/');
    JoinTwo("valon", "peers", '/');
    assert "/" + ("valon" + ['/'] + "peers" + ['/'] + Join(kept, '/')) == PEERS + Join(kept, '/');
  }

  lemma CtlPrefixOfText(k: string)
    requires '.' !in k && NonEmpty(Split(k, '/')) != []
    ensures CtlPeerPrefix(k) == "/" + Join(["valon", "peers"] + NonEmpty(Split(k, '/')), '/')
  {
    hide Join, Split, CleanRooted;
    var head := ["valon", "peers"];
    JoinThree("/valon", "peers", k, '/');
    JoinSplit(k, '/');
    SplitPartsPlain(k, '/');
    NoDotParts(k);
    JoinConcat(head, Split(k, '/'), '/');
    JoinTwo("valon", "peers", '/');
    var parts := head + Split(k, '/');
    assert NoDots(parts) by { assert NoDots(head); }
    assert "/" + Join(parts, '/') == Join(["/valon", "peers", k], '/');
    CleanDropsEmpty(parts);
    NonEmptyConcat(head, Split(k, '/'));
    NonEmptyIdentity(head);
  }

  lemma NoDotParts(k: string)
    requires '.' !in k
    ensures NoDots(Split(k, '/'))
  {
    hide Join, Split;
    JoinSplit(k, '/');
    var parts := Split(k, '/');
    forall i | 0 <= i < |parts| ensures parts[i] != "." && parts[i] != ".." {
      if parts[i] == "." || parts[i] == ".." { DotSurvives(parts, i); }
    }
  }

  /** Without its superfluous slashes a text is a given key only if it is that key, and the key has none. */
  lemma KeptIsKeyIff(k: string, name: string)
    requires KeyShape(name) && ('\r' in k || '\n' in k || |k| == 44)
    ensures Join(NonEmpty(Split(k, '/')), '/') == name <==> k == name && Intact(name)
  {
    hide Join, Split, Intact, NonEmpty;
    KeyComponents(name);
    NonEmptyIdentity(Split(name, '/'));
    var parts := Split(k, '/');
    JoinSplit(k, '/');
    if Join(NonEmpty(parts), '/') == name {
      if c :| (c == '\r' || c == '\n') && c in k {
        NewlineKept(k, c);
        assert false;
      }
      if |parts| > 1 {
        JoinSameLength(parts, '/');
        NonEmptyIdentity(parts);
      } else {
        SinglePart(parts);
      }
    }
  }

  lemma SinglePart(parts: seq<string>)
    requires |parts| == 1
    ensures Join(NonEmpty(parts), '/') == Join(parts, '/')
  {
  }

  lemma NewlineKept(k: string, c: char)
    requires c in k && (c == '\r' || c == '\n')
    ensures c in Join(NonEmpty(Split(k, '/')), '/')
  {
    hide Join, Split;
    SplitKeepsChars(k, '/', c);
    var p :| p in Split(k, '/') && c in p;
    NonEmptyIdentity(Split(k, '/'));
    JoinKeepsChars(NonEmpty(Split(k, '/')), '/', c);
  }

  /** Text whose components are names: path.Join takes it as it is. */
  predicate ProperPath(s: string) {
    AllNonEmpty(Split(s, '/')) && NoDots(Split(s, '/'))
  }

  lemma CtlAliasComponents(alias: string)
    ensures CtlAliasKey(alias) == "/" + Join(Resolve(["valon", "aliases"] + Split(alias, '/'), []), '/')
  {
    hide Join, Split;
    JoinThree("/valon", "aliases", alias, '/');
    RootedElement();
    JoinThree("valon", "aliases", alias, '/');
    var s := Join(["/valon", "aliases", alias], '/');
    assert s == "" + ['/'] + Join(["valon", "aliases", alias], '/');
    SplitAppend("", Join(["valon", "aliases", alias], '/'), '/');
    SplitAppend("valon", "aliases" + ['/'] + alias, '/');
    SplitAppend("aliases", alias, '/');
    var parts := ["valon", "aliases"] + Split(alias, '/');
    assert Split(s, '/') == [""] + parts && ([""] + parts)[1..] == parts;
  }

  lemma AliasComponents(alias: string)
    ensures AliasKey(alias) == "/" + Join(["valon", "aliases"] + Split(alias, '/'), '/')
  {
    hide Join, Split;
    JoinSplit(alias, '/');
    JoinTwo("valon", "aliases", '/');
    JoinConcat(["valon", "aliases"], Split(alias, '/'), '/');
  }

  /**
    Over every text, valonctl's alias key is the plugin's exactly when each component of the alias is a
    name: neither empty nor one or two dots.
   */
  lemma CtlAliasKeyAgreesIff(alias: string)
    ensures CtlAliasKey(alias) == AliasKey(alias) <==> ProperPath(alias)
  {
    hide Join, Split, CtlAliasKey, AliasKey;
    var head := ["valon", "aliases"];
    var parts := head + Split(alias, '/');
    CtlAliasComponents(alias);
    AliasComponents(alias);
    SplitPartsPlain(alias, '/');
    ResolveShape(parts, []);
    assert AllNonEmpty(head) && NoDots(head);
    assert ProperPath(alias) <==> AllNonEmpty(parts) && NoDots(parts) by {
      assert parts[2..] == Split(alias, '/');
    }
    if ProperPath(alias) {
      ResolveWithoutDots(parts, []);
      NonEmptyIdentity(parts);
      assert [] + parts == parts;
    }
    if CtlAliasKey(alias) == AliasKey(alias) {
      var kept := Resolve(parts, []);
      assert ("/" + Join(kept, '/'))[1..] == Join(kept, '/') && ("/" + Join(parts, '/'))[1..] == Join(parts, '/');
      if kept == [] {
        JoinTwo("valon", "aliases", '/');
        JoinConcat(head, Split(alias, '/'), '/');
        EmptyJoin();
        assert false;
      }
      SplitJoin(kept, '/');
      SplitJoin(parts, '/');
    }
  }

  lemma EmptyJoin()
    ensures Join([], '/') == ""
  {
  }

  /** A single component that is no dots. */
  lemma PlainIsProper(alias: string)
    requires alias != "" && '/' !in alias && alias != "." && alias != ".."
    ensures ProperPath(alias)
  {
    SplitPlain(alias, '/');
  }

  /** The alias x/../bob is another name for bob's entry, and ../peers/K/wg_ip for K's address. */
  lemma PathLikeAliases(k: string)
    requires KeyShape(k) && Intact(k)
    ensures CtlAliasKey("x/../bob") == AliasKey("bob")
    ensures CtlAliasKey("../peers/" + k + "/wg_ip") == PeerKey(k, WgIp)
  {
    hide Intact, CtlAliasKey, AliasKey, PeerKey;
    NamesBob();
    NamesAddress(k);
  }

  lemma NamesBob()
    ensures CtlAliasKey("x/../bob") == AliasKey("bob")
  {
    hide Join, Split, Resolve, CtlAliasKey;
    CtlAliasComponents("x/../bob");
    JoinThree("x", "..", "bob", '/');
    assert "x/../bob" == Join(["x", "..", "bob"], '/');
    SplitJoin(["x", "..", "bob"], '/');
    var head := ["valon", "aliases"];
    ResolveNames(head, ["x", "..", "bob"], []);
    ResolveNames(["x"], ["..", "bob"], head);
    assert ["x"] + ["..", "bob"] == ["x", "..", "bob"];
    ResolveUp(["bob"], head, "x");
    assert [".."] + ["bob"] == ["..", "bob"];
    ResolveNames(["bob"], [], head);
    assert ["bob"] + [] == ["bob"];
    ResolveNothing(head + ["bob"]);
    assert [] + head == head && head + ["bob"] == ["valon", "aliases", "bob"];
    JoinThree("valon", "aliases", "bob", '/');
  }

  lemma NamesAddress(k: string)
    requires KeyShape(k) && Intact(k)
    ensures CtlAliasKey("../peers/" + k + "/wg_ip") == PeerKey(k, WgIp)
  {
    hide Join, Split, Resolve, CtlAliasKey, Intact;
    var tail := Split(k, '/') + ["wg_ip"];
    KeyComponents(k);
    AddressAliasParts(k);
    CtlAliasComponents("../peers/" + k + "/wg_ip");
    ResolveNames(["valon"] + ["aliases"], ["..", "peers"] + tail, []);
    assert [] + (["valon"] + ["aliases"]) == ["valon"] + ["aliases"] == ["valon", "aliases"];
    assert [".."] + (["peers"] + tail) == ["..", "peers"] + tail;
    ResolveUp(["peers"] + tail, ["valon"], "aliases");
    assert AllNonEmpty(["peers"] + tail) && NoDots(["peers"] + tail);
    ResolveNames(["peers"] + tail, [], ["valon"]);
    assert (["peers"] + tail) + [] == ["peers"] + tail;
    ResolveNothing(["valon"] + (["peers"] + tail));
    assert ["valon"] + (["peers"] + tail) == (["valon", "peers"] + Split(k, '/')) + ["wg_ip"];
    JoinedKey(k);
    JoinConcat(["valon", "peers"] + Split(k, '/'), ["wg_ip"], '/');
    OnePart("wg_ip");
    assert "/" + (Join(["valon", "peers"] + Split(k, '/'), '/') + ['/'] + "wg_ip") == PEERS + k + "/" + "wg_ip";
  }

  lemma OnePart(s: string)
    ensures Join([s], '/') == s
  {
  }

  lemma AddressAliasParts(k: string)
    requires KeyShape(k)
    ensures Split("../peers/" + k + "/wg_ip", '/') == ["..", "peers"] + (Split(k, '/') + ["wg_ip"])
  {
    hide Join, Split;
    KeyComponents(k);
    var parts := ["..", "peers"] + (Split(k, '/') + ["wg_ip"]);
    JoinConcat(Split(k, '/'), ["wg_ip"], '/');
    JoinConcat(["..", "peers"], Split(k, '/') + ["wg_ip"], '/');
    JoinTwo("..", "peers", '/');
    OnePart("wg_ip");
    assert Join(parts, '/') == "../peers/" + k + "/wg_ip";
    SplitJoin(parts, '/');
  }

  // ---- Parsers

  datatype Parsed = Parsed(pubkey: string, fieldPath: string)

  function CutAt(relKey: string, idx: int): Parsed
    requires 0 <= idx < |relKey|
  {
    Parsed(relKey[..idx], relKey[idx + 1..])
  }

  /** loadFromEtcd's search in a key without its "/valon/peers/" prefix. */
  function LoaderParse(relKey: string): Option<Parsed> {
    var wg, alias, endpoints := Index(relKey, "/wg_ip"), Index(relKey, "/alias"), Index(relKey, "/endpoints/");
    if wg != -1 then Some(CutAt(relKey, wg))
    else if alias != -1 then Some(CutAt(relKey, alias))
    else if endpoints != -1 then Some(CutAt(relKey, endpoints))
    else None
  }

  /** The entry a parsed field path fills in; the loader keeps no aliases. */
  function LoaderField(fieldPath: string): Option<Field> {
    var parts := Split(fieldPath, '/');
    if parts[0] == "wg_ip" then Some(WgIp)
    else if parts[0] == "endpoints" && |parts| >= 2 && parts[1] == "lan" then Some(Lan)
    else if parts[0] == "endpoints" && |parts| >= 2 && parts[1] == "nated" then Some(Nated)
    else None
  }

  /** ListPeers' search: it also knows the legacy fields. */
  function ListParse(relKey: string): Option<Parsed> {
    var wg, ip, alias := Index(relKey, "/wg_ip"), Index(relKey, "/ip"), Index(relKey, "/alias");
    var endpoint, seen := Index(relKey, "/endpoint"), Index(relKey, "/last_seen");
    if wg != -1 then Some(CutAt(relKey, wg))
    else if ip != -1 && !Contains(relKey[ip..], "/wg_ip") then Some(CutAt(relKey, ip))
    else if alias != -1 then Some(CutAt(relKey, alias))
    else if endpoint != -1 then Some(CutAt(relKey, endpoint))
    else if seen != -1 then Some(CutAt(relKey, seen))
    else None
  }

  function RelativeKey(k: string, f: Field): string {
    k + "/" + FieldPath(f)
  }

  lemma TrimPeers(k: string, f: Field)
    ensures HasPrefix(PeerKey(k, f), PEERS) && TrimPrefix(PeerKey(k, f), PEERS) == RelativeKey(k, f)
  {
    PrefixConcat(PEERS, RelativeKey(k, f));
    assert PeerKey(k, f) == PEERS + RelativeKey(k, f);
  }

  /** A pattern without '=' occurs before position 44 only inside the key, and otherwise in the field path. */
  lemma OccurrenceSplits(k: string, rest: string, pattern: string, i: int)
    requires KeyShape(k) && |pattern| > 0 && forall j :: 0 <= j < |pattern| ==> pattern[j] != '='
    ensures OccursAt(k + rest, pattern, i)
            <==> (i < 44 && OccursAt(k, pattern, i)) || (44 <= i && OccursAt(rest, pattern, i - 44))
  {
    var s := k + rest;
    if OccursAt(s, pattern, i) && i < 44 {
      if i + |pattern| > 43 {
        OccurrenceChars(s, pattern, i, 43);
      }
      assert s[i..i + |pattern|] == k[i..i + |pattern|];
    }
    if i >= 44 && i + |pattern| <= |s| {
      assert s[i..i + |pattern|] == rest[i - 44..i - 44 + |pattern|];
    }
    if OccursAt(k, pattern, i) {
      assert s[i..i + |pattern|] == k[i..i + |pattern|];
    }
  }

  /** Where a pattern is first found behind a key. */
  lemma IndexBehindKey(k: string, rest: string, pattern: string)
    requires KeyShape(k) && |pattern| > 0 && forall j :: 0 <= j < |pattern| ==> pattern[j] != '='
    ensures var idx := Index(k + rest, pattern);
            if Contains(k, pattern) then 0 <= idx < 44
            else if Contains(rest, pattern) then idx == 44 + Index(rest, pattern)
            else idx == -1
  {
    var idx := Index(k + rest, pattern);
    forall i ensures OccursAt(k + rest, pattern, i) <==>
      (i < 44 && OccursAt(k, pattern, i)) || (44 <= i && OccursAt(rest, pattern, i - 44))
    {
      OccurrenceSplits(k, rest, pattern, i);
    }
    if Contains(k, pattern) {
      assert OccursAt(k + rest, pattern, Index(k, pattern));
    } else if Contains(rest, pattern) {
      assert OccursAt(k + rest, pattern, 44 + Index(rest, pattern));
      assert OccursAt(rest, pattern, idx - 44);
    }
  }

  /**
    In text whose only slash is its first character, a pattern that starts with a slash is found at the
    start or not at all.
   */
  lemma IndexOfSlashed(s: string, pattern: string)
    requires s != "" && s[0] == '/' && pattern != "" && pattern[0] == '/'
    requires forall i :: 0 < i < |s| ==> s[i] != '/'
    ensures Index(s, pattern) == if HasPrefix(s, pattern) then 0 else -1
  {
    var i := Index(s, pattern);
    if i != -1 {
      OccurrenceChars(s, pattern, i, i);
    }
  }

  lemma IndexAtStart(s: string, pattern: string)
    requires HasPrefix(s, pattern)
    ensures Index(s, pattern) == 0
  {
  }

  /** A pattern "/c..." is absent when no slash of the text is followed by c. */
  lemma AbsentPattern(s: string, pattern: string)
    requires |pattern| >= 2
    requires forall i :: 0 <= i && i + 1 < |s| ==> s[i] != pattern[0] || s[i + 1] != pattern[1]
    ensures !Contains(s, pattern)
  {
    var i := Index(s, pattern);
    if i != -1 {
      OccurrenceChars(s, pattern, i, i);
      OccurrenceChars(s, pattern, i, i + 1);
    }
  }

  lemma UnderscoreNotInKey(k: string)
    requires KeyShape(k)
    ensures !Contains(k, "/wg_ip") && !Contains(k, "/last_seen")
  {
    var i, j := Index(k, "/wg_ip"), Index(k, "/last_seen");
    if i != -1 {
      OccurrenceChars(k, "/wg_ip", i, i + 3);
    }
    if j != -1 {
      OccurrenceChars(k, "/last_seen", j, j + 5);
    }
  }

  /** The first place in a field's own text where a parser's pattern is found. */
  lemma FieldPatterns(f: Field)
    ensures var s := "/" + FieldPath(f);
            && Index(s, "/wg_ip") == (if f == WgIp then 0 else -1)
            && Index(s, "/ip") == (if f == OldIp then 0 else -1)
            && Index(s, "/alias") == (if f == Alias then 0 else -1)
            && Index(s, "/endpoints/") == (if f == Lan || f == Nated then 0 else -1)
            && Index(s, "/endpoint") == (if f == Lan || f == Nated || f == OldEndpoint then 0 else -1)
            && Index(s, "/last_seen") == (if f == LastSeen then 0 else -1)
  {
    hide Index, HasPrefix;
    var s := "/" + FieldPath(f);
    if f == Lan || f == Nated {
      EndpointPatterns(f);
    } else {
      assert forall i :: 0 < i < |s| ==> s[i] != '/';
      IndexOfSlashed(s, "/wg_ip");
      IndexOfSlashed(s, "/ip");
      IndexOfSlashed(s, "/alias");
      IndexOfSlashed(s, "/endpoints/");
      IndexOfSlashed(s, "/endpoint");
      IndexOfSlashed(s, "/last_seen");
      FieldPrefixes(f);
    }
  }

  lemma FieldPrefixes(f: Field)
    requires f != Lan && f != Nated
    ensures var s := "/" + FieldPath(f);
            && (HasPrefix(s, "/wg_ip") <==> f == WgIp) && (HasPrefix(s, "/ip") <==> f == OldIp)
            && (HasPrefix(s, "/alias") <==> f == Alias) && !HasPrefix(s, "/endpoints/")
            && (HasPrefix(s, "/endpoint") <==> f == OldEndpoint) && (HasPrefix(s, "/last_seen") <==> f == LastSeen)
  {
    hide OccursAt;
    var s := "/" + FieldPath(f);
    assert s[1] == FieldPath(f)[0];
    SecondChar(s, "/wg_ip");
    SecondChar(s, "/ip");
    SecondChar(s, "/alias");
    SecondChar(s, "/endpoint");
    SecondChar(s, "/endpoints/");
    SecondChar(s, "/last_seen");
    WholePrefix(s);
    assert f == WgIp ==> s == "/wg_ip";
    assert f == Alias ==> s == "/alias";
    assert f == OldIp ==> s == "/ip";
    assert f == OldEndpoint ==> s == "/endpoint";
    assert f == LastSeen ==> s == "/last_seen";
  }

  lemma SecondChar(s: string, prefix: string)
    requires |s| > 1 && |prefix| > 1
    ensures HasPrefix(s, prefix) ==> s[1] == prefix[1] && |prefix| <= |s|
  {
    if HasPrefix(s, prefix) { OccurrenceChars(s, prefix, 0, 1); }
  }

  lemma WholePrefix(s: string)
    ensures HasPrefix(s, s)
  {
    assert s[0..|s|] == s;
  }

  lemma EndpointPatterns(f: Field)
    requires f == Lan || f == Nated
    ensures var s := "/" + FieldPath(f);
            && !Contains(s, "/wg_ip") && !Contains(s, "/ip") && !Contains(s, "/alias") && !Contains(s, "/last_seen")
            && Index(s, "/endpoints/") == 0 && Index(s, "/endpoint") == 0
  {
    hide Index;
    var s := "/" + FieldPath(f);
    assert s[0..11] == "/endpoints/" && s[0..9] == "/endpoint";
    IndexAtStart(s, "/endpoints/");
    IndexAtStart(s, "/endpoint");
    assert s[1] == 'e' && (s[11] == 'l' || s[11] == 'n');
    assert forall i :: 0 <= i < |s| && i != 0 && i != 10 ==> s[i] != '/';
    AbsentPattern(s, "/wg_ip");
    AbsentPattern(s, "/ip");
    AbsentPattern(s, "/alias");
    NoLastSeen(s);
  }

  lemma NoLastSeen(s: string)
    requires '_' !in s
    ensures !Contains(s, "/last_seen")
  {
    var i := Index(s, "/last_seen");
    if i != -1 { OccurrenceChars(s, "/last_seen", i, i + 5); }
  }

  /** The keys on which the loader's first match is the field itself. */
  predicate LoaderReads(k: string, f: Field) {
    match f
    case WgIp => true
    case Alias => !Contains(k, "/alias")
    case Lan => !Contains(k, "/alias") && !Contains(k, "/endpoints/")
    case Nated => !Contains(k, "/alias") && !Contains(k, "/endpoints/")
    case _ => false
  }

  predicate ListReads(k: string, f: Field) {
    match f
    case WgIp => true
    case OldIp => !Contains(k, "/ip")
    case Alias => !Contains(k, "/ip") && !Contains(k, "/alias")
    case _ => !Contains(k, "/ip") && !Contains(k, "/alias") && !Contains(k, "/endpoint")
  }

  /** Where a pattern is found behind a key that may hold it too. */
  predicate FoundAt(k: string, f: Field, pattern: string, own: bool) {
    var idx := Index(RelativeKey(k, f), pattern);
    if Contains(k, pattern) then 0 <= idx < 44 else idx == if own then 44 else -1
  }

  lemma LoaderIndices(k: string, f: Field)
    requires KeyShape(k)
    ensures Index(RelativeKey(k, f), "/wg_ip") == if f == WgIp then 44 else -1
    ensures FoundAt(k, f, "/alias", f == Alias) && FoundAt(k, f, "/endpoints/", f == Lan || f == Nated)
  {
    hide Index, OccursAt;
    var rest := "/" + FieldPath(f);
    assert RelativeKey(k, f) == k + rest;
    FieldPatterns(f);
    UnderscoreNotInKey(k);
    IndexBehindKey(k, rest, "/wg_ip");
    IndexBehindKey(k, rest, "/alias");
    IndexBehindKey(k, rest, "/endpoints/");
  }

  /**
    The loader recovers (key, field) from a printed key exactly when the key hides no earlier match:
    always for wg_ip, since base 64 has no underscore, and never for a field that it does not know.
   */
  lemma LoaderParseExact(k: string, f: Field)
    requires KeyShape(k)
    ensures LoaderParse(RelativeKey(k, f)) == Some(Parsed(k, FieldPath(f))) <==> LoaderReads(k, f)
    ensures LoaderParse(RelativeKey(k, f)).Some? ==>
      |LoaderParse(RelativeKey(k, f)).value.pubkey| <= 44
      && (!LoaderReads(k, f) ==> |LoaderParse(RelativeKey(k, f)).value.pubkey| < 44)
  {
    hide Index, OccursAt, KeyShape, FieldPath, RelativeKey;
    LoaderIndices(k, f);
    CutRelativeKey(k, f);
  }

  lemma CutRelativeKey(k: string, f: Field)
    requires KeyShape(k)
    ensures var s := RelativeKey(k, f); |s| > 45 && s[..44] == k && s[45..] == FieldPath(f)
  {
  }

  lemma ListIndices(k: string, f: Field)
    requires KeyShape(k)
    ensures FoundAt(k, f, "/ip", f == OldIp)
    ensures FoundAt(k, f, "/endpoint", f == Lan || f == Nated || f == OldEndpoint)
    ensures Index(RelativeKey(k, f), "/last_seen") == if f == LastSeen then 44 else -1
  {
    hide Index, OccursAt;
    var rest := "/" + FieldPath(f);
    assert RelativeKey(k, f) == k + rest;
    FieldPatterns(f);
    UnderscoreNotInKey(k);
    IndexBehindKey(k, rest, "/ip");
    IndexBehindKey(k, rest, "/endpoint");
    IndexBehindKey(k, rest, "/last_seen");
  }

  lemma NoLaterMatch(s: string, pattern: string, i: nat)
    requires !Contains(s, pattern) && i <= |s|
    ensures !Contains(s[i..], pattern)
  {
    var p := Index(s[i..], pattern);
    if p != -1 {
      assert s[i..][p..p + |pattern|] == s[i + p..i + p + |pattern|];
      assert OccursAt(s, pattern, i + p);
    }
  }

  lemma ListParseExact(k: string, f: Field)
    requires KeyShape(k)
    ensures ListParse(RelativeKey(k, f)) == Some(Parsed(k, FieldPath(f))) <==> ListReads(k, f)
    ensures ListParse(RelativeKey(k, f)).Some?
    ensures !ListReads(k, f) ==> |ListParse(RelativeKey(k, f)).value.pubkey| < 44
  {
    hide Index, OccursAt, KeyShape, FieldPath, RelativeKey;
    LoaderIndices(k, f);
    ListIndices(k, f);
    CutRelativeKey(k, f);
    var s := RelativeKey(k, f);
    if f != WgIp && Index(s, "/ip") != -1 {
      NoLaterMatch(s, "/wg_ip", Index(s, "/ip"));
    }
  }

  /**
    Each condition on a key excludes some: a canonical key that path.Join shortens, and intact ones that
    hide an alias field from both parsers, or only an endpoint field.
   */
  lemma AwkwardKeysExist()
    ensures var k := KeyFrom("/alias"); IsPubkey(k) && !Intact(k)
    ensures var k := KeyFrom("A/alias"); IsPubkey(k) && Intact(k) && !LoaderReads(k, Alias) && !ListReads(k, Alias)
    ensures var k := KeyFrom("A/endpoints/A");
            IsPubkey(k) && Intact(k) && LoaderReads(k, Alias) && !LoaderReads(k, Lan) && !ListReads(k, Nated)
  {
    hide IsPubkey, Contains, Intact;
    KeyFromIsKey("/alias");
    KeyFromIsKey("A/alias");
    KeyFromIsKey("A/endpoints/A");
    ShortenedKey();
    AliasHidingKey();
    EndpointHidingKey();
  }

  lemma ShortenedKey()
    ensures !Intact(KeyFrom("/alias"))
  {
    assert KeyFrom("/alias")[0] == '/';
  }

  lemma AliasHidingKey()
    ensures Intact(KeyFrom("A/alias")) && Contains(KeyFrom("A/alias"), "/alias")
  {
    hide Contains;
    var k := KeyFrom("A/alias");
    assert k[1..7] == "/alias";
    FoundSomewhere(k, "/alias", 1);
    assert forall i :: 0 <= i < |k| && i != 1 ==> k[i] != '/';
  }

  lemma EndpointHidingKey()
    ensures var k := KeyFrom("A/endpoints/A");
            Intact(k) && Contains(k, "/endpoints/") && Contains(k, "/endpoint") && !Contains(k, "/alias")
  {
    hide Contains;
    var k := KeyFrom("A/endpoints/A");
    assert k[1..12] == "/endpoints/" && k[1..10] == "/endpoint";
    FoundSomewhere(k, "/endpoints/", 1);
    FoundSomewhere(k, "/endpoint", 1);
    assert forall i :: 0 <= i < |k| && i != 1 && i != 11 ==> k[i] != '/';
    assert k[2] == 'e' && k[12] == 'A';
    AbsentPattern(k, "/alias");
  }

  lemma FoundSomewhere(s: string, pattern: string, i: int)
    requires OccursAt(s, pattern, i)
    ensures Contains(s, pattern)
  {
  }

  lemma LoaderFieldOfPath(f: Field)
    ensures LoaderField(FieldPath(f)) == if f == WgIp || f == Lan || f == Nated then Some(f) else None
  {
    hide Split, Join;
    FieldComponents(f);
  }

  /** Another key's printed key never parses as this key: what the parser cuts off is shorter than a key. */
  lemma LoaderNeverInvents(k: string, f: Field, l: string)
    requires KeyShape(k) && KeyShape(l)
    requires LoaderParse(RelativeKey(k, f)).Some? && LoaderParse(RelativeKey(k, f)).value.pubkey == l
    ensures k == l && LoaderReads(k, f)
  {
    LoaderParseExact(k, f);
  }
}
