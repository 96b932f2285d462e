/** Decimal numbers, dotted quads and host:port texts, read and printed as Go's strconv and net packages do. */
module Addresses {
  import opened Options
  import opened Text

  // ---- Decimal numbers

  predicate IsDigit(c: char) {
    '0' <= c <= '9'
  }

  predicate AllDigits(s: string) {
    forall i :: 0 <= i < |s| ==> IsDigit(s[i])
  }

  function FormatNat(n: nat): string {
    if n < 10 then [('0' as int + n) as char]
    else FormatNat(n / 10) + [('0' as int + n % 10) as char]
  }

  function ParseDigits(s: string): nat
    requires AllDigits(s)
  {
    if s == "" then 0 else 10 * ParseDigits(s[..|s| - 1]) + (s[|s| - 1] as int - '0' as int)
  }

  /** Digits as FormatNat prints them: at least one, and no leading zero but in "0". */
  predicate CanonicalNumber(s: string) {
    |s| >= 1 && AllDigits(s) && (|s| > 1 ==> s[0] != '0')
  }

  lemma {:induction false} ParseFormat(n: nat)
    ensures CanonicalNumber(FormatNat(n)) && ParseDigits(FormatNat(n)) == n
    ensures n > 0 ==> FormatNat(n)[0] != '0'
  {
    if n < 10 {
      assert FormatNat(n)[..0] == "";
    } else {
      ParseFormat(n / 10);
      assert FormatNat(n)[..|FormatNat(n)| - 1] == FormatNat(n / 10);
    }
  }

  lemma {:induction false} FormatParse(s: string)
    requires CanonicalNumber(s)
    ensures FormatNat(ParseDigits(s)) == s
    ensures |s| > 1 ==> ParseDigits(s) >= 10
  {
    var init, d := s[..|s| - 1], s[|s| - 1];
    assert s == init + [d];
    if |s| == 1 {
      assert init == "";
    } else {
      FormatParse(init);
      if |init| == 1 {
        assert init[0] == s[0];
        assert ParseDigits(init) == init[0] as int - '0' as int by { assert init[..0] == ""; }
      }
    }
  }

  /**
    The port of an SRV record: strconv.Atoi with its error ignored, cut to 16 bits.
    A syntax error reads as 0; a number out of the 64-bit range reads as the nearest bound.
   */
  function PortNumber(s: string): (port: nat)
    ensures port < 65536
  {
    var digits := if HasPrefix(s, "+") || HasPrefix(s, "-") then s[1..] else s;
    if digits == "" || !AllDigits(digits) then 0
    else
      var v := ParseDigits(digits);
      if HasPrefix(s, "-") then
        (if v > 0x8000_0000_0000_0000 then 0 else (65536 - v % 65536) % 65536)
      else
        (if v > 0x7FFF_FFFF_FFFF_FFFF then 65535 else v % 65536)
  }

  // ---- IPv4 addresses as numbers below 2^32

  type address = v: nat | v < 0x1_0000_0000

  function Octet(v: address, i: nat): (b: nat)
    requires i < 4
    ensures b < 256
  {
    match i
    case 0 => v / 0x100_0000
    case 1 => v / 0x1_0000 % 256
    case 2 => v / 0x100 % 256
    case 3 => v % 256
  }

  /** net.IP.String for IPv4. */
  function Dotted(v: address): string {
    FormatNat(Octet(v, 0)) + "." + FormatNat(Octet(v, 1)) + "." + FormatNat(Octet(v, 2)) + "." + FormatNat(Octet(v, 3))
  }

  predicate IsOctetText(s: string) {
    CanonicalNumber(s) && ParseDigits(s) < 256
  }

  /**
    net.ParseIP for dotted quads: four decimal fields below 256 without leading zeros.
    Text with a colon, which could only be IPv6, is not an IPv4 address.
   */
  function ParseIPv4(s: string): Option<address> {
    var f := Split(s, '.');
    if |f| == 4 && IsOctetText(f[0]) && IsOctetText(f[1]) && IsOctetText(f[2]) && IsOctetText(f[3]) then
      Some(0x100_0000 * ParseDigits(f[0]) + 0x1_0000 * ParseDigits(f[1]) + 0x100 * ParseDigits(f[2])
        + ParseDigits(f[3]))
    else None
  }

  lemma FormatHasNoDot(n: nat)
    ensures forall c :: c in FormatNat(n) ==> IsDigit(c)
  {
    ParseFormat(n);
  }

  lemma DottedFields(v: address)
    ensures Split(Dotted(v), '.')
            == [FormatNat(Octet(v, 0)), FormatNat(Octet(v, 1)), FormatNat(Octet(v, 2)), FormatNat(Octet(v, 3))]
  {
    var a, b, c, d := FormatNat(Octet(v, 0)), FormatNat(Octet(v, 1)), FormatNat(Octet(v, 2)), FormatNat(Octet(v, 3));
    forall i | 0 <= i < 4 { FormatHasNoDot(Octet(v, i)); }
    assert '.' !in a && '.' !in b && '.' !in c && '.' !in d;
    var parts := [a, b, c, d];
    SplitJoin(parts, '.');
    JoinFour(a, b, c, d, '.');
  }

  lemma JoinFour(a: string, b: string, c: string, d: string, sep: char)
    ensures Join([a, b, c, d], sep) == a + [sep] + b + [sep] + c + [sep] + d
  {
    assert [a, b, c, d][1..] == [b, c, d];
    assert [b, c, d][1..] == [c, d];
    assert [c, d][1..] == [d];
    assert Join([c, d], sep) == c + [sep] + d;
    assert Join([b, c, d], sep) == b + [sep] + (c + [sep] + d);
    assert a + [sep] + (b + [sep] + (c + [sep] + d)) == a + [sep] + b + [sep] + c + [sep] + d;
  }

  lemma OctetsOf(v: address)
    ensures v == 0x100_0000 * Octet(v, 0) + 0x1_0000 * Octet(v, 1) + 0x100 * Octet(v, 2) + Octet(v, 3)
  {
  }

  lemma ParseDotted(v: address)
    ensures ParseIPv4(Dotted(v)) == Some(v)
  {
    DottedFields(v);
    forall i | 0 <= i < 4 { ParseFormat(Octet(v, i)); }
    OctetsOf(v);
  }

  /** The first octet comes first: 192.168.1.5. */
  lemma FirstOctetFirst()
    ensures Dotted(0xC0A8_0105) == "192.168.1.5" && ParseIPv4("192.168.1.5") == Some(0xC0A8_0105)
  {
    hide Dotted;
    DottedTexts();
    ParseDotted(0xC0A8_0105);
  }

  lemma DottedTexts()
    ensures Dotted(0xC0A8_0105) == "192.168.1.5"
  {
    hide FormatNat;
    OctetTexts();
    assert "192" + "." + "168" + "." + "1" + "." + "5" == "192.168.1.5";
  }

  lemma OctetTexts()
    ensures FormatNat(192) == "192" && FormatNat(168) == "168" && FormatNat(1) == "1" && FormatNat(5) == "5"
  {
  }

  lemma EmptyIsNoAddress()
    ensures ParseIPv4("") == None
  {
  }

  /** Printing dotted quads is injective. */
  lemma DottedInjective(v: address, w: address)
    requires Dotted(v) == Dotted(w)
    ensures v == w
  {
    ParseDotted(v);
    ParseDotted(w);
  }

  /** A dotted quad that parses is the one its address prints. */
  lemma DottedParse(s: string)
    requires ParseIPv4(s).Some?
    ensures Dotted(ParseIPv4(s).value) == s
  {
    var f := Split(s, '.');
    forall i | 0 <= i < 4 { FormatParse(f[i]); }
    var v := ParseIPv4(s).value;
    OctetsUnique(v, ParseDigits(f[0]), ParseDigits(f[1]), ParseDigits(f[2]), ParseDigits(f[3]));
    JoinSplit(s, '.');
    JoinFour(f[0], f[1], f[2], f[3], '.');
    assert f == [f[0], f[1], f[2], f[3]];
  }

  lemma OctetsUnique(v: address, a: nat, b: nat, c: nat, d: nat)
    requires a < 256 && b < 256 && c < 256 && d < 256
    requires v == 0x100_0000 * a + 0x1_0000 * b + 0x100 * c + d
    ensures Octet(v, 0) == a && Octet(v, 1) == b && Octet(v, 2) == c && Octet(v, 3) == d
  {
    assert v / 0x1_0000 == 256 * a + b;
    assert v / 0x100 == 256 * (256 * a + b) + c;
  }

  // ---- host:port

  datatype HostPort = HostPort(host: string, port: string)

  function LastIndexOf(s: string, c: char): (r: int)
    ensures r == -1 ==> c !in s
    ensures r != -1 ==> 0 <= r < |s| && s[r] == c && forall i :: r < i < |s| ==> s[i] != c
  {
    if s == "" then -1
    else if s[|s| - 1] == c then |s| - 1
    else LastIndexOf(s[..|s| - 1], c)
  }

  function IndexOfChar(s: string, c: char): (r: int)
    ensures r == -1 ==> c !in s
    ensures r != -1 ==> 0 <= r < |s| && s[r] == c && c !in s[..r]
  {
    if s == "" then -1
    else if s[0] == c then 0
    else
      var r := IndexOfChar(s[1..], c);
      if r == -1 then -1 else r + 1
  }

  /** net.SplitHostPort; None stands for each of its errors. */
  function SplitHostPort(s: string): Option<HostPort> {
    var i := LastIndexOf(s, ':');
    if i == -1 then None
    else if s[0] == '[' then
      var end := IndexOfChar(s, ']');
      if end == -1 || end + 1 != i || '[' in s[1..] || ']' in s[end + 1..] then None
      else Some(HostPort(s[1..end], s[i + 1..]))
    else if ':' in s[..i] || '[' in s || ']' in s then None
    else Some(HostPort(s[..i], s[i + 1..]))
  }

  predicate NoColonOrBracket(s: string) {
    ':' !in s && '[' !in s && ']' !in s
  }

  /** Exactly host:port without further colons and brackets, or [host]:port with colons in the host only. */
  lemma SplitHostPortIff(s: string, host: string, port: string)
    ensures SplitHostPort(s) == Some(HostPort(host, port))
            <==> NoColonOrBracket(port)
                 && (if s != "" && s[0] == '[' then s == "[" + host + "]:" + port && '[' !in host && ']' !in host
                     else s == host + ":" + port && NoColonOrBracket(host))
  {
    hide SplitHostPort, NoColonOrBracket;
    if SplitHostPort(s) == Some(HostPort(host, port)) {
      SplitNeedsColon(s);
      SplitGivesParts(s, host, port);
    }
    if NoColonOrBracket(port) {
      if s != "" && s[0] == '[' {
        if s == "[" + host + "]:" + port && '[' !in host && ']' !in host { SplitBracketed(host, port); }
      } else if s == host + ":" + port && NoColonOrBracket(host) {
        SplitUnbracketed(host, port);
      }
    }
  }

  lemma SplitNeedsColon(s: string)
    ensures SplitHostPort(s).Some? ==> s != ""
  {
  }

  lemma SplitUnbracketed(host: string, port: string)
    requires NoColonOrBracket(host) && NoColonOrBracket(port)
    ensures SplitHostPort(host + ":" + port) == Some(HostPort(host, port))
  {
    hide LastIndexOf, IndexOfChar;
    var s := host + ":" + port;
    LastColon(host, port);
    assert s[..|host|] == host && s[|host| + 1..] == port;
    assert '[' !in s && ']' !in s;
  }

  lemma SplitBracketed(host: string, port: string)
    requires '[' !in host && ']' !in host && NoColonOrBracket(port)
    ensures SplitHostPort("[" + host + "]:" + port) == Some(HostPort(host, port))
  {
    hide LastIndexOf, IndexOfChar;
    var s, n := "[" + host + "]:" + port, |host|;
    assert s == ("[" + host + "]") + ":" + port;
    LastColon("[" + host + "]", port);
    FirstBracket(host, ":" + port);
    assert s == "[" + host + "]" + (":" + port);
    assert s[1..n + 1] == host && s[n + 3..] == port && s[n + 2..] == ":" + port;
    assert s[1..] == host + "]:" + port;
  }

  lemma FirstBracket(host: string, rest: string)
    requires ']' !in host
    ensures IndexOfChar("[" + host + "]" + rest, ']') == |host| + 1
  {
    hide IndexOfChar;
    var s, r := "[" + host + "]" + rest, IndexOfChar("[" + host + "]" + rest, ']');
    assert s[|host| + 1] == ']';
    assert forall i :: 0 <= i < r ==> s[..r][i] == s[i];
    assert forall i :: 1 <= i <= |host| ==> s[i] == host[i - 1];
  }

  lemma LastColon(front: string, port: string)
    requires ':' !in port
    ensures LastIndexOf(front + ":" + port, ':') == |front|
  {
    hide LastIndexOf;
    var s := front + ":" + port;
    var r := LastIndexOf(s, ':');
    assert s[|front|] == ':';
    forall j | |front| < j < |s| ensures s[j] != ':' {
      assert s[j] == port[j - |front| - 1];
    }
  }

  lemma SplitGivesParts(s: string, host: string, port: string)
    requires SplitHostPort(s) == Some(HostPort(host, port))
    ensures NoColonOrBracket(port)
    ensures if s[0] == '[' then s == "[" + host + "]:" + port && '[' !in host && ']' !in host
            else s == host + ":" + port && NoColonOrBracket(host)
  {
    hide LastIndexOf, IndexOfChar;
    var i := LastIndexOf(s, ':');
    assert s == s[..i] + ":" + s[i + 1..];
    assert forall j :: 0 <= j < |port| ==> port[j] == s[i + 1 + j];
    if s[0] == '[' {
      assert s[..i] == "[" + s[1..i - 1] + "]";
      assert forall j :: 0 <= j < |host| ==> host[j] == s[1..][j] == s[..i - 1][j + 1];
      assert forall j :: 0 <= j < |port| ==> port[j] == s[1..][i + j] == s[i..][j + 1];
    }
  }

  lemma SplitPlainHostPort(host: string, port: string)
    requires forall i :: 0 <= i < |host| ==> IsDigit(host[i]) || host[i] == '.'
    requires forall i :: 0 <= i < |port| ==> IsDigit(port[i]) || port[i] == '.'
    ensures SplitHostPort(host + ":" + port) == Some(HostPort(host, port))
  {
    var s := host + ":" + port;
    var n := |host|;
    assert forall k :: 0 <= k < |s| && k != n ==>
      s[k] == (if k < n then host[k] else port[k - n - 1]) && s[k] != ':' && s[k] != '[' && s[k] != ']';
    assert s[n] == ':';
    assert LastIndexOf(s, ':') == n;
    assert s[..n] == host && s[n + 1..] == port;
  }

  lemma PortOfFormat(port: nat)
    requires port <= 65535
    ensures PortNumber(FormatNat(port)) == port
  {
    hide FormatNat, PortNumber;
    PortOfNumber(port);
  }

  /** The low 16 bits of an integer in two's complement. */
  function Low16(v: int): (bits: nat) {
    v % 65536
  }

  /** A number is cut to 16 bits, and one out of range is taken for the nearest bound first. */
  lemma PortOfNumber(n: nat)
    ensures PortNumber(FormatNat(n)) == Low16(if n < 0x8000_0000_0000_0000 then n as int else -1)
    ensures PortNumber("+" + FormatNat(n)) == Low16(if n < 0x8000_0000_0000_0000 then n as int else -1)
    ensures PortNumber("-" + FormatNat(n)) == Low16(if n <= 0x8000_0000_0000_0000 then -(n as int) else 0)
  {
    hide ParseDigits, FormatNat;
    ParseFormat(n);
    var p := FormatNat(n);
    if HasPrefix(p, "+") { OccurrenceChars(p, "+", 0, 0); }
    if HasPrefix(p, "-") { OccurrenceChars(p, "-", 0, 0); }
    PrefixConcat("+", p);
    PrefixConcat("-", p);
    assert ("+" + p)[1..] == p && ("-" + p)[1..] == p;
    if HasPrefix("+" + p, "-") { OccurrenceChars("+" + p, "-", 0, 0); }
    hide HasPrefix, AllDigits;
  }

  /** `a.b.c.d:port` text in the form Go prints it. */
  predicate CanonicalEndpoint(e: string) {
    exists v: address, p: nat :: p <= 65535 && e == EndpointText(v, p)
  }

  function EndpointText(v: address, port: nat): string {
    Dotted(v) + ":" + FormatNat(port)
  }

  lemma DottedChars(v: address)
    ensures forall i :: 0 <= i < |Dotted(v)| ==> IsDigit(Dotted(v)[i]) || Dotted(v)[i] == '.'
  {
    forall i | 0 <= i < 4 { FormatHasNoDot(Octet(v, i)); }
    assert forall c :: c in Dotted(v) ==> IsDigit(c) || c == '.';
  }

  lemma SplitEndpoint(v: address, port: nat)
    requires port <= 65535
    ensures SplitHostPort(EndpointText(v, port)) == Some(HostPort(Dotted(v), FormatNat(port)))
  {
    DottedChars(v);
    FormatHasNoDot(port);
    SplitPlainHostPort(Dotted(v), FormatNat(port));
  }
}
