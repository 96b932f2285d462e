/** Alias rules of valonctl (valonctl/pkg/validation/dns.go), on ASCII text. */
module Aliases {
  import opened Options
  import opened Text
  import opened PeerKeys
  import opened Paths

  const MAX_ALIAS_LENGTH: nat := 32
  const MAX_LABEL_LENGTH: nat := 63

  predicate IsAlnum(c: char) {
    'a' <= c <= 'z' || '0' <= c <= '9'
  }

  predicate IsAliasChar(c: char) {
    IsAlnum(c) || c == '-'
  }

  predicate AllAliasChars(s: string) {
    forall i :: 0 <= i < |s| ==> IsAliasChar(s[i])
  }

  /** The DNS label pattern: alphanumeric at both ends, hyphens allowed between. */
  predicate MatchesLabel(s: string) {
    |s| >= 1 && IsAlnum(s[0]) && IsAlnum(s[|s| - 1]) && AllAliasChars(s)
  }

  predicate HasReservedPrefix(s: string) {
    HasPrefix(s, "lan") || HasPrefix(s, "nated") || HasPrefix(s, "_wireguard") || HasPrefix(s, "_udp")
  }

  datatype AliasError = EmptyAlias | TooLong(length: nat) | BadFormat | EdgeHyphen | DoubleHyphen | ReservedPrefix

  /** An alias is checked in lower case but stored as given. */
  function ValidateAlias(alias: string): Result<(), AliasError> {
    var s := ToLower(alias);
    if alias == "" then Err(EmptyAlias)
    else if |s| > MAX_ALIAS_LENGTH then Err(TooLong(|s|))
    else if |s| > MAX_LABEL_LENGTH then Err(TooLong(|s|))
    else if !MatchesLabel(s) then Err(BadFormat)
    else if HasPrefix(s, "-") || HasSuffix(s, "-") then Err(EdgeHyphen)
    else if Contains(s, "--") then Err(DoubleHyphen)
    else if HasReservedPrefix(s) then Err(ReservedPrefix)
    else Ok(())
  }

  predicate Accepted(alias: string) {
    ValidateAlias(alias).Ok?
  }

  /** What later code may rely on: an accepted alias is short and cannot be mistaken for a key or a path. */
  lemma AcceptedAlias(alias: string)
    requires Accepted(alias)
    ensures 1 <= |alias| <= 32 && ProperPath(alias)
    ensures forall i :: 0 <= i < |alias| ==>
      alias[i] != '+' && alias[i] != '/' && alias[i] != '=' && alias[i] != '.' && !(alias[i] in " \t\r\n")
    ensures !HasReservedPrefix(ToLower(alias))
  {
    var s := ToLower(alias);
    forall i | 0 <= i < |alias|
      ensures alias[i] != '+' && alias[i] != '/' && alias[i] != '=' && alias[i] != '.' && !(alias[i] in " \t\r\n")
    {
      assert IsAliasChar(s[i]) && s[i] == Lower(alias[i]);
    }
    assert alias[0] != '.' && "."[0] == '.' && ".."[0] == '.';
    PlainIsProper(alias);
  }

  predicate IsLetterOrDigit(c: char) {
    'a' <= c <= 'z' || 'A' <= c <= 'Z' || '0' <= c <= '9'
  }

  /** Letters, digits and hyphens, and no hyphen at an edge. */
  predicate LabelLike(s: string) {
    s != "" && s[0] != '-' && s[|s| - 1] != '-' && forall i :: 0 <= i < |s| ==> IsLetterOrDigit(s[i]) || s[i] == '-'
  }

  /** Of the reserved prefixes only two can stand at the front of a label. */
  predicate IsReserved(alias: string) {
    HasPrefix(ToLower(alias), "lan") || HasPrefix(ToLower(alias), "nated")
  }

  lemma LabelLikeIff(alias: string)
    ensures MatchesLabel(ToLower(alias)) <==> LabelLike(alias)
    ensures LabelLike(alias) ==>
      !HasPrefix(ToLower(alias), "-") && !HasSuffix(ToLower(alias), "-")
      && (HasReservedPrefix(ToLower(alias)) <==> IsReserved(alias))
  {
    var s := ToLower(alias);
    assert forall i :: 0 <= i < |s| ==>
      (IsAlnum(s[i]) <==> IsLetterOrDigit(alias[i]))
      && (IsAliasChar(s[i]) <==> IsLetterOrDigit(alias[i]) || alias[i] == '-');
    if LabelLike(alias) {
      if HasPrefix(s, "-") { OccurrenceChars(s, "-", 0, 0); }
      if HasSuffix(s, "-") { OccurrenceChars(s, "-", |s| - 1, |s| - 1); }
      if HasPrefix(s, "_wireguard") { OccurrenceChars(s, "_wireguard", 0, 0); }
      if HasPrefix(s, "_udp") { OccurrenceChars(s, "_udp", 0, 0); }
    }
  }

  lemma DoubleHyphenIff(alias: string)
    ensures Contains(ToLower(alias), "--") <==> !NoDoubleHyphen(alias)
  {
    var s := ToLower(alias);
    assert forall i :: 0 <= i < |s| ==> (s[i] == '-' <==> alias[i] == '-');
    if NoDoubleHyphen(alias) {
      assert NoDoubleHyphen(s);
      NoDoubleOccurrence(s);
    } else {
      var i :| 0 < i < |s| && alias[i - 1] == '-' && alias[i] == '-';
      assert s[i - 1..i - 1 + 2] == "--";
      assert OccursAt(s, "--", i - 1);
    }
  }

  /** What is accepted, and which check refuses the rest; the check for hyphens at the edges refuses nothing. */
  lemma AcceptedIff(alias: string)
    ensures var r := ValidateAlias(alias);
            && (r.Ok? <==> |alias| <= 32 && LabelLike(alias) && NoDoubleHyphen(alias) && !IsReserved(alias))
            && (r == Err(EmptyAlias) <==> alias == "")
            && (forall n: nat :: r == Err(TooLong(n)) <==> n == |alias| && n > 32)
            && (r == Err(BadFormat) <==> 0 < |alias| <= 32 && !LabelLike(alias))
            && (r == Err(DoubleHyphen) <==> |alias| <= 32 && LabelLike(alias) && !NoDoubleHyphen(alias))
            && (r == Err(ReservedPrefix) <==>
                |alias| <= 32 && LabelLike(alias) && NoDoubleHyphen(alias) && IsReserved(alias))
            && r != Err(EdgeHyphen)
  {
    hide MatchesLabel, LabelLike, NoDoubleHyphen, HasReservedPrefix, IsReserved, HasPrefix, HasSuffix, Contains;
    LabelLikeIff(alias);
    DoubleHyphenIff(alias);
    EmptyIsNoLabel();
  }

  lemma EmptyIsNoLabel()
    ensures !LabelLike("")
  {
  }

  // ---- SanitizeAlias, step by step

  function ReplaceInvalid(s: string): (r: string)
    ensures |r| == |s|
  {
    seq(|s|, i requires 0 <= i < |s| => if IsAliasChar(s[i]) then s[i] else '-')
  }

  function CollapseHyphens(s: string): string {
    if s == "" then ""
    else if s[0] == '-' && |s| > 1 && s[1] == '-' then CollapseHyphens(s[1..])
    else [s[0]] + CollapseHyphens(s[1..])
  }

  function TrimLeft(s: string): string {
    if s != "" && s[0] == '-' then TrimLeft(s[1..]) else s
  }

  function TrimRight(s: string): string {
    if s != "" && s[|s| - 1] == '-' then TrimRight(s[..|s| - 1]) else s
  }

  function TrimHyphens(s: string): string {
    TrimRight(TrimLeft(s))
  }

  function Truncate(s: string): string {
    if |s| > MAX_ALIAS_LENGTH then s[..MAX_ALIAS_LENGTH] else s
  }

  function Sanitized(alias: string): string {
    Truncate(TrimHyphens(CollapseHyphens(ReplaceInvalid(ToLower(alias)))))
  }

  predicate NoDoubleHyphen(s: string) {
    forall i :: 0 < i < |s| ==> s[i - 1] != '-' || s[i] != '-'
  }

  /** What one pass guarantees; only a trailing hyphen may be left, cut off in the middle. */
  predicate Clean(s: string) {
    |s| <= MAX_ALIAS_LENGTH && AllAliasChars(s) && NoDoubleHyphen(s) && (s != "" ==> s[0] != '-')
  }

  lemma NoDoubleTail(s: string)
    requires s != ""
    ensures NoDoubleHyphen(s) <==> NoDoubleHyphen(s[1..]) && !(|s| > 1 && s[0] == '-' && s[1] == '-')
  {
    var t := s[1..];
    if NoDoubleHyphen(s) {
      forall i | 0 < i < |t| ensures t[i - 1] != '-' || t[i] != '-' { assert s[i + 1 - 1] != '-' || s[i + 1] != '-'; }
    }
    if NoDoubleHyphen(t) && !(|s| > 1 && s[0] == '-' && s[1] == '-') {
      forall i | 0 < i < |s| ensures s[i - 1] != '-' || s[i] != '-' {
        if i > 1 { assert t[i - 2] != '-' || t[i - 1] != '-'; }
      }
    }
  }

  lemma {:induction false} CollapseShape(s: string)
    requires AllAliasChars(s)
    ensures var r := CollapseHyphens(s);
            && AllAliasChars(r) && NoDoubleHyphen(r) && |r| <= |s| && (r == "" <==> s == "")
            && (s != "" ==> r[0] == s[0])
            && (|r| == |s| <==> NoDoubleHyphen(s)) && (NoDoubleHyphen(s) ==> r == s)
  {
    hide NoDoubleHyphen;
    NoDoubleShort(s);
    if s != "" {
      var t := s[1..];
      CollapseShape(t);
      NoDoubleTail(s);
      var u := CollapseHyphens(t);
      if !(s[0] == '-' && |s| > 1 && s[1] == '-') {
        NoDoubleTail([s[0]] + u);
        assert ([s[0]] + u)[1..] == u;
        assert s == [s[0]] + t;
      }
    }
  }

  lemma NoDoubleShort(s: string)
    ensures s == "" ==> NoDoubleHyphen(s)
  {
  }

  lemma {:induction false} TrimLeftShape(s: string)
    requires AllAliasChars(s) && NoDoubleHyphen(s)
    ensures var r := TrimLeft(s);
            && AllAliasChars(r) && NoDoubleHyphen(r) && (r != "" ==> r[0] != '-') && |r| <= |s|
            && (s != "" && s[0] == '-' ==> |r| < |s|) && (s == "" || s[0] != '-' ==> r == s)
  {
    if s != "" && s[0] == '-' {
      var t := s[1..];
      assert forall i :: 0 <= i < |t| ==> t[i] == s[i + 1];
      assert forall i :: 0 < i < |t| ==> t[i - 1] == s[i];
      TrimLeftShape(t);
    }
  }

  lemma {:induction false} TrimRightShape(s: string)
    requires AllAliasChars(s) && NoDoubleHyphen(s) && (s != "" ==> s[0] != '-')
    ensures var r := TrimRight(s);
            && AllAliasChars(r) && NoDoubleHyphen(r) && |r| <= |s| && (r != "" ==> r[0] != '-' && r[|r| - 1] != '-')
            && (s != "" && s[|s| - 1] == '-' ==> r == s[..|s| - 1]) && (s == "" || s[|s| - 1] != '-' ==> r == s)
  {
    if s != "" && s[|s| - 1] == '-' {
      var t := s[..|s| - 1];
      if t != "" { assert t[|t| - 1] == s[|s| - 2]; }
      TrimRightShape(t);
    }
  }

  lemma ReplacedShape(alias: string)
    ensures AllAliasChars(ReplaceInvalid(ToLower(alias))) && |ReplaceInvalid(ToLower(alias))| == |alias|
    ensures AllAliasChars(alias) ==> ToLower(alias) == alias && ReplaceInvalid(alias) == alias
  {
    if AllAliasChars(alias) { assert forall i :: 0 <= i < |alias| ==> Lower(alias[i]) == alias[i]; }
  }

  /** Over every input, one pass bounds the length, the alphabet and the hyphens. */
  lemma SanitizedIsClean(alias: string)
    ensures Clean(Sanitized(alias)) && |Sanitized(alias)| <= |alias|
  {
    hide CollapseHyphens, TrimLeft, TrimRight, ReplaceInvalid, ToLower;
    var s := ReplaceInvalid(ToLower(alias));
    ReplacedShape(alias);
    CollapseShape(s);
    var c := CollapseHyphens(s);
    TrimLeftShape(c);
    TrimRightShape(TrimLeft(c));
  }

  predicate EndsWithHyphen(s: string) {
    s != "" && s[|s| - 1] == '-'
  }

  lemma SanitizeClean(s: string)
    requires Clean(s)
    ensures Sanitized(s) == if EndsWithHyphen(s) then s[..|s| - 1] else s
    ensures !EndsWithHyphen(Sanitized(s))
  {
    ReplacedShape(s);
    CollapseShape(s);
    TrimLeftShape(s);
    TrimRightShape(s);
  }

  /** A second pass changes a sanitized alias exactly when the first left a hyphen at the end. */
  lemma SecondPassIff(alias: string)
    ensures Sanitized(Sanitized(alias)) == Sanitized(alias) <==> !EndsWithHyphen(Sanitized(alias))
  {
    SanitizedIsClean(alias);
    SanitizeClean(Sanitized(alias));
  }

  /** Two passes settle: a third changes nothing. */
  lemma SettlesAfterTwoPasses(alias: string)
    ensures Sanitized(Sanitized(Sanitized(alias))) == Sanitized(Sanitized(alias))
  {
    SanitizedIsClean(alias);
    SanitizedIsClean(Sanitized(alias));
    SanitizeClean(Sanitized(alias));
    SanitizeClean(Sanitized(Sanitized(alias)));
  }

  /** One pass is not always enough: 31 letters, an underscore and a letter. */
  lemma OnePassNotEnough()
    ensures var alias := seq(31, _ => 'a') + "_b";
            Sanitized(Sanitized(alias)) != Sanitized(alias)
  {
    var alias := seq(31, _ => 'a') + "_b";
    var s := ReplaceInvalid(ToLower(alias));
    assert s == seq(31, _ => 'a') + "-b";
    ReplacedShape(alias);
    CollapseShape(s);
    TrimLeftShape(s);
    TrimRightShape(s);
    assert Sanitized(alias) == s[..32];
    SecondPassIff(alias);
  }

  lemma CleanAcceptedIff(t: string)
    requires Clean(t) && t != "" && !EndsWithHyphen(t)
    ensures Accepted(t) <==> !HasReservedPrefix(t)
  {
    hide HasReservedPrefix;
    ReplacedShape(t);
    if HasPrefix(t, "-") { OccurrenceChars(t, "-", 0, 0); }
    if HasSuffix(t, "-") { OccurrenceChars(t, "-", |t| - 1, |t| - 1); }
    NoDoubleOccurrence(t);
  }

  /** After two passes only emptiness and the reserved prefixes stand between an alias and acceptance. */
  lemma SanitizedTwiceAcceptedIff(alias: string)
    ensures var t := Sanitized(Sanitized(alias));
            Accepted(t) <==> t != "" && !HasReservedPrefix(t)
  {
    hide HasReservedPrefix, Sanitized;
    SanitizedIsClean(alias);
    SanitizedIsClean(Sanitized(alias));
    SanitizeClean(Sanitized(alias));
    if Sanitized(Sanitized(alias)) != "" { CleanAcceptedIff(Sanitized(Sanitized(alias))); }
  }

  lemma NoDoubleOccurrence(s: string)
    requires NoDoubleHyphen(s)
    ensures !Contains(s, "--")
  {
    var i := Index(s, "--");
    if i != -1 {
      OccurrenceChars(s, "--", i, i);
      OccurrenceChars(s, "--", i, i + 1);
    }
  }

  // ---- What the pass computes

  /** The maximal runs of letters and digits, with empty pieces where separators meet or stand at an edge. */
  function Pieces(s: string): (parts: seq<string>)
    ensures |parts| >= 1
  {
    if s == "" then [""]
    else
      var rest := Pieces(s[1..]);
      if IsAlnum(s[0]) then [[s[0]] + rest[0]] + rest[1..] else [""] + rest
  }

  /** The words of an alias, joined by single hyphens. */
  function JoinedWords(s: string): string {
    Join(NonEmpty(Pieces(s)), '-')
  }

  lemma {:induction false} ReplacedPieces(s: string)
    ensures Pieces(ReplaceInvalid(s)) == Pieces(s)
  {
    if s != "" {
      ReplacedPieces(s[1..]);
      assert ReplaceInvalid(s)[1..] == ReplaceInvalid(s[1..]);
    }
  }

  lemma WordAhead(word: string, words: seq<string>)
    ensures Join([word] + words, '-') == if words == [] then word else word + "-" + Join(words, '-')
  {
    assert ([word] + words)[1..] == words;
  }

  lemma CharAhead(c: char, word: string, words: seq<string>)
    ensures Join([[c] + word] + words, '-') == [c] + Join([word] + words, '-')
  {
    hide Join;
    WordAhead([c] + word, words);
    WordAhead(word, words);
    if words != [] {
      assert [c] + word + "-" + Join(words, '-') == [c] + (word + "-" + Join(words, '-'));
    }
  }

  lemma JoinedIsEmptyIff(parts: seq<string>)
    ensures Join(NonEmpty(parts), '-') == "" <==> NonEmpty(parts) == []
  {
    var words := NonEmpty(parts);
    NonEmptyHead(parts);
    if words != [] {
      WordAhead(words[0], words[1..]);
      assert words == [words[0]] + words[1..];
    }
  }

  lemma {:induction false} NonEmptyHead(parts: seq<string>)
    ensures NonEmpty(parts) != [] ==> NonEmpty(parts)[0] != ""
  {
    if parts != [] && parts[0] == "" { NonEmptyHead(parts[1..]); }
  }

  /** How a character in front changes the joined words. */
  lemma WordsStep(s: string)
    requires s != ""
    ensures var t := s[1..];
            JoinedWords(s)
            == if !IsAlnum(s[0]) then JoinedWords(t)
               else [s[0]] + (if t != "" && !IsAlnum(t[0]) && JoinedWords(t) != "" then "-" else "") + JoinedWords(t)
  {
    hide Join;
    var rest := Pieces(s[1..]);
    assert rest == [rest[0]] + rest[1..];
    if IsAlnum(s[0]) {
      var words := NonEmpty(rest[1..]);
      assert NonEmpty(Pieces(s)) == [[s[0]] + rest[0]] + words;
      CharAhead(s[0], rest[0], words);
      WordAhead(rest[0], words);
      JoinedIsEmptyIff(rest[1..]);
      EmptyJoin();
    } else {
      assert ([""] + rest)[1..] == rest;
    }
  }

  lemma EmptyJoin()
    ensures Join([], '-') == ""
  {
  }

  /** Collapsing leaves the joined words, between a hyphen at each edge where the text had one. */
  predicate Framed(s: string, collapsed: string, words: string) {
    && (words != "" ==> words[0] != '-' && words[|words| - 1] != '-')
    && if words == "" then if s == "" then collapsed == "" else collapsed == "-" && s[0] == '-' && EndsWithHyphen(s)
       else collapsed == (if s != "" && s[0] == '-' then "-" else "") + words + (if EndsWithHyphen(s) then "-" else "")
  }

  lemma {:induction false} CollapsedIsFramed(s: string)
    requires AllAliasChars(s)
    ensures Framed(s, CollapseHyphens(s), JoinedWords(s))
  {
    hide JoinedWords;
    if s != "" {
      var t := s[1..];
      CollapsedIsFramed(t);
      WordsStep(s);
      assert IsAlnum(s[0]) <==> s[0] != '-';
      assert t != "" ==> t[0] == s[1] && (IsAlnum(t[0]) <==> t[0] != '-') && t[|t| - 1] == s[|s| - 1];
    } else {
      NoWords();
    }
  }

  lemma NoWords()
    ensures JoinedWords("") == ""
  {
  }

  lemma TrimFramed(s: string, collapsed: string, words: string)
    requires Framed(s, collapsed, words)
    ensures TrimHyphens(collapsed) == words
    ensures collapsed != words <==> s != "" && (s[0] == '-' || EndsWithHyphen(s))
  {
    var left := if collapsed != "" && collapsed[0] == '-' then collapsed[1..] else collapsed;
    assert left == if words == "" then "" else words + (if EndsWithHyphen(s) then "-" else "");
    assert TrimLeft(collapsed) == left;
    assert TrimRight(words) == words;
    if words != "" && EndsWithHyphen(s) { assert left[..|left| - 1] == words; }
    assert TrimRight(left) == words;
  }

  predicate HasCapital(s: string) {
    exists i :: 0 <= i < |s| && 'A' <= s[i] <= 'Z'
  }

  predicate HasInvalid(s: string) {
    exists i :: 0 <= i < |s| && !IsLetterOrDigit(s[i]) && s[i] != '-'
  }

  /** Two separators in a row. */
  predicate HasGap(s: string) {
    exists i :: 0 < i < |s| && !IsLetterOrDigit(s[i - 1]) && !IsLetterOrDigit(s[i])
  }

  predicate HasEdge(s: string) {
    s != "" && (!IsLetterOrDigit(s[0]) || !IsLetterOrDigit(s[|s| - 1]))
  }

  lemma ReplacedChars(s: string)
    ensures var r := ReplaceInvalid(ToLower(s));
            AllAliasChars(r) && forall i :: 0 <= i < |s| ==> (r[i] == '-' <==> !IsLetterOrDigit(s[i]))
    ensures ToLower(s) != s <==> HasCapital(s)
    ensures ReplaceInvalid(ToLower(s)) != ToLower(s) <==> HasInvalid(s)
  {
    var l := ToLower(s);
    if HasCapital(s) {
      var i :| 0 <= i < |s| && 'A' <= s[i] <= 'Z';
      assert l[i] != s[i];
    }
    if HasInvalid(s) {
      var i :| 0 <= i < |s| && !IsLetterOrDigit(s[i]) && s[i] != '-';
      assert ReplaceInvalid(l)[i] != l[i];
    }
  }

  lemma GapIff(s: string, r: string)
    requires |r| == |s| && forall i :: 0 <= i < |s| ==> (r[i] == '-' <==> !IsLetterOrDigit(s[i]))
    ensures NoDoubleHyphen(r) <==> !HasGap(s)
  {
    hide IsLetterOrDigit;
    assert forall i :: 0 < i < |s| ==>
      (r[i - 1] == '-' && r[i] == '-' <==> !IsLetterOrDigit(s[i - 1]) && !IsLetterOrDigit(s[i]));
  }

  /** Each step of the pass changes something exactly when the text gives it cause to. */
  lemma StepsOfSanitize(s: string)
    ensures var r := ReplaceInvalid(ToLower(s));
            && (CollapseHyphens(r) != r <==> HasGap(s))
            && (TrimHyphens(CollapseHyphens(r)) != CollapseHyphens(r) <==> HasEdge(s))
            && TrimHyphens(CollapseHyphens(r)) == JoinedWords(ToLower(s))
  {
    hide CollapseHyphens, TrimHyphens, JoinedWords, ReplaceInvalid, ToLower, IsLetterOrDigit, HasGap, NoDoubleHyphen;
    var r := ReplaceInvalid(ToLower(s));
    ReplacedChars(s);
    CollapseShape(r);
    GapIff(s, r);
    CollapsedIsFramed(r);
    TrimFramed(r, CollapseHyphens(r), JoinedWords(r));
    SameWords(ToLower(s));
  }

  lemma SameWords(s: string)
    ensures JoinedWords(ReplaceInvalid(s)) == JoinedWords(s)
  {
    ReplacedPieces(s);
  }

  /** The pass joins the words by single hyphens and cuts the result. */
  lemma SanitizedIsWords(alias: string)
    ensures var words := JoinedWords(ToLower(alias));
            Sanitized(alias) == if |words| > MAX_ALIAS_LENGTH then words[..MAX_ALIAS_LENGTH] else words
  {
    StepsOfSanitize(alias);
  }

  // ---- SanitizeAlias

  datatype Warning = Lowercased | ReplacedInvalid | RemovedConsecutive | RemovedEdges | Truncated

  function WarningIf(cause: bool, w: Warning): seq<Warning> {
    if cause then [w] else []
  }

  /** Each warning has its own cause in the given text; there is none exactly when nothing changed. */
  method SanitizeAlias(original: string) returns (alias: string, warnings: seq<Warning>)
    ensures alias == Sanitized(original)
    ensures warnings == [] <==> alias == original
    ensures warnings == WarningIf(HasCapital(original), Lowercased) + WarningIf(HasInvalid(original), ReplacedInvalid)
                        + WarningIf(HasGap(original), RemovedConsecutive) + WarningIf(HasEdge(original), RemovedEdges)
                        + WarningIf(|JoinedWords(ToLower(original))| > MAX_ALIAS_LENGTH, Truncated)
  {
    hide HasPrefix, CollapseHyphens, TrimLeft, TrimRight, HasCapital, HasInvalid, HasGap, HasEdge, JoinedWords,
      ReplaceInvalid, ToLower;
    ReplacedChars(original);
    StepsOfSanitize(original);
    warnings := [];
    alias := ToLower(original);
    if alias != original {
      warnings := warnings + [Lowercased];
    }
    var sanitized := ReplaceInvalid(alias);
    if sanitized != alias {
      warnings := warnings + [ReplacedInvalid];
      alias := sanitized;
    }
    sanitized := CollapseHyphens(alias);
    if sanitized != alias {
      warnings := warnings + [RemovedConsecutive];
      alias := sanitized;
    }
    sanitized := TrimHyphens(alias);
    if sanitized != alias {
      warnings := warnings + [RemovedEdges];
      alias := sanitized;
    }
    if |alias| > MAX_ALIAS_LENGTH {
      alias := alias[..MAX_ALIAS_LENGTH];
      warnings := warnings + [Truncated];
    }
    if alias == original {
      NoStepIfUnchanged(original);
    }
  }

  /** If the whole pass changes nothing, then no step of it does. */
  lemma NoStepIfUnchanged(s: string)
    requires Sanitized(s) == s
    ensures ToLower(s) == s && ReplaceInvalid(s) == s && CollapseHyphens(s) == s && TrimHyphens(s) == s
    ensures |s| <= MAX_ALIAS_LENGTH
  {
    SanitizedIsClean(s);
    SanitizeClean(s);
    ReplacedShape(s);
    CollapseShape(s);
    TrimLeftShape(s);
    TrimRightShape(s);
  }
}
