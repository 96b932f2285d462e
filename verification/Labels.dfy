/**
  WireGuard keys as DNS labels: base 64 text on one side, lower-case unpadded base 32 on the other.
  The plugin and valonctl each have their own pair of conversions.
 */
module Labels {
  import opened Options
  import opened Bits
  import opened Text
  import opened Rfc4648

  /** A WireGuard key as wireguard-tools print it: the base 64 text of 32 bytes. */
  predicate IsPubkey(k: string) {
    var bs := Decode64(k);
    bs.Some? && |bs.value| == 32 && Encode64(bs.value) == k
  }

  predicate KeyShape(k: string) {
    |k| == 44 && k[43] == '=' && forall i :: 0 <= i < 43 ==> IsChar64(k[i])
  }

  // ---- coredns-plugin/valon/encoding.go

  function DnsLabelToPubkey(dnsLabel: string): Option<string> {
    match Decode32(ToUpper(dnsLabel))
    case None => None
    case Some(bs) => Some(Encode64(bs))
  }

  function PubkeyToDnsLabel(pubkey: string): Option<string> {
    match Decode64(pubkey)
    case None => None
    case Some(bs) => Some(ToLower(Encode32(bs)))
  }

  // ---- valonctl/pkg/encoding/encoding.go

  datatype EncodingError = EmptyInput | InvalidBase32 | InvalidBase64 | InvalidLength(bytes: nat) | UnknownFormat

  function LabelToPubkey(dnsLabel: string): Result<string, EncodingError> {
    if dnsLabel == "" then Err(EmptyInput)
    else match Decode32(ToUpper(dnsLabel))
      case None => Err(InvalidBase32)
      case Some(bs) => Ok(Encode64(bs))
  }

  function PubkeyToLabel(pubkey: string): Result<string, EncodingError> {
    if pubkey == "" then Err(EmptyInput)
    else match Decode64(pubkey)
      case None => Err(InvalidBase64)
      case Some(bs) =>
        if |bs| != 32 then Err(InvalidLength(|bs|)) else Ok(ToLower(Encode32(bs)))
  }

  datatype Format = Base32 | Base64 | Unknown

  function DetectFormat(input: string): Format {
    if input == "" then Unknown
    else if '+' in input || '/' in input || '=' in input then Base64
    else if |input| == 52 then Base32
    else Unknown
  }

  function NormalizePubkey(input: string): Result<string, EncodingError> {
    if input == "" then Err(EmptyInput)
    else match DetectFormat(input)
      case Base64 =>
        (match Decode64(input)
         case None => Err(InvalidBase64)
         case Some(bs) => if |bs| != 32 then Err(InvalidLength(|bs|)) else Ok(input))
      case Base32 => LabelToPubkey(input)
      case Unknown => Err(UnknownFormat)
  }

  // ---- Shapes

  lemma UpperLower(s: string)
    requires AllChars32(s)
    ensures ToUpper(ToLower(s)) == s
  {
    assert forall i :: 0 <= i < |s| ==> Upper(Lower(s[i])) == s[i];
  }

  lemma Encode64IsPubkey(bs: seq<byte>)
    ensures IsPubkey(Encode64(bs)) <==> |bs| == 32
  {
    DecodeEncode64(bs);
  }

  lemma PubkeyShape(k: string)
    requires IsPubkey(k)
    ensures KeyShape(k)
  {
    hide Decode64, Body64;
    var bs := Decode64(k).value;
    Body64Shape(bs);
    assert |Body64(bs)| == 43 && Padding64(43) == "=";
  }

  lemma KeyParts(k: string)
    requires KeyShape(k)
    ensures AllChars64(k[..43]) && k == k[..43] + "=" && Padding64(43) == "="
    ensures Decode64(k) == Some(DecodeSymbols64(k[..43])) && |DecodeSymbols64(k[..43])| == 32
  {
    hide DecodeSymbols64, StripNewlines, HasSuffix;
    PaddedParts(k[..43]);
  }

  lemma LastSixBits(syms: seq<nat>)
    requires |syms| == 43 && syms[42] < 64
    ensures |Unpack(syms, 6)| == 258
    ensures Unpack(syms, 6) == Unpack(syms, 6)[..256] + Zeros(2) <==> syms[42] % 4 == 0
  {
    var v := syms[42];
    assert syms == syms[..42] + [v];
    UnpackConcat(syms[..42], [v], 6);
    UnpackLength(syms[..42], 6);
    UnpackLength(syms, 6);
    assert Unpack([v], 6) == Digits(v, 6) + [];
    assert Digits(v, 6) == Digits(v / 2, 5) + [v % 2 == 1] && Digits(v / 2, 5) == Digits(v / 4, 4) + [v / 2 % 2 == 1];
    var bits := Unpack(syms, 6);
    assert bits[256] == (v / 2 % 2 == 1) && bits[257] == (v % 2 == 1);
    assert bits == bits[..256] + [bits[256], bits[257]];
    assert Zeros(2) == [false, false];
    assert (bits[..256] + Zeros(2))[256] == false && (bits[..256] + Zeros(2))[257] == false;
  }

  lemma SameSymbols(a: string, b: string)
    requires AllChars64(a) && AllChars64(b) && Symbols64(a) == Symbols64(b)
    ensures a == b
  {
    forall i | 0 <= i < |a| ensures a[i] == b[i] {
      assert CharSymbol64(a[i]) == Symbols64(a)[i] == Symbols64(b)[i] == CharSymbol64(b[i]);
    }
  }

  /** The canonical keys are the texts of a key's shape whose last symbol leaves its two unused bits zero. */
  lemma CanonicalIff(k: string)
    ensures IsPubkey(k) <==> KeyShape(k) && CharSymbol64(k[42]) % 4 == 0
  {
    hide Unpack, Pack, BytesOf, Body64, CharSymbol64, Decode64;
    if IsPubkey(k) { PubkeyShape(k); }
    if KeyShape(k) {
      KeyParts(k);
      var body, bs := k[..43], DecodeSymbols64(k[..43]);
      var syms := Symbols64(body);
      LastSixBits(syms);
      var bits := Unpack(syms, 6);
      assert bs == BytesOf(bits[..256]);
      UnpackBytesOf(bits[..256]);
      Body64Shape(bs);
      var packed := Pack(bits[..256], 6);
      UnpackPack(bits[..256], 6);
      UnpackLength(packed, 6);
      assert Unpack(packed, 6) == bits[..256] + Zeros(2);
      PackBound(bits[..256], 6);
      if Encode64(bs) == k {
        assert Body64(bs) == Encode64(bs)[..43] == body;
      }
      if syms[42] % 4 == 0 {
        UnpackInjective(packed, syms, 6);
        SameSymbols(Body64(bs), body);
      }
    }
  }

  /** A key that begins with a given text. */
  function KeyFrom(s: string): string
    requires |s| <= 42
  {
    s + seq(43 - |s|, _ => 'A') + "="
  }

  lemma KeyFromIsKey(s: string)
    requires |s| <= 42 && AllChars64(s)
    ensures IsPubkey(KeyFrom(s)) && HasPrefix(KeyFrom(s), s)
  {
    hide IsPubkey;
    var k := KeyFrom(s);
    assert k[42] == 'A' && CharSymbol64('A') == 0;
    assert k == s + (seq(43 - |s|, _ => 'A') + "=");
    PrefixConcat(s, seq(43 - |s|, _ => 'A') + "=");
    CanonicalIff(k);
  }

  /** Text shorter than a key decodes to fewer bytes than a key has. */
  lemma ShortTextIsNoKey(k: string)
    requires |k| < 44
    ensures !IsPubkey(k) && (Decode64(k).Some? ==> |Decode64(k).value| < 32)
  {
    var t := StripNewlines(k);
    assert |t| % 4 == 0 ==> |t| <= 40;
  }

  /** Every byte string survives the trip through a label, in both programs' conversions. */
  lemma LabelRoundTrip(bs: seq<byte>)
    ensures PubkeyToDnsLabel(Encode64(bs)) == Some(ToLower(Encode32(bs)))
    ensures DnsLabelToPubkey(ToLower(Encode32(bs))) == Some(Encode64(bs))
    ensures DnsLabelToPubkey(Encode32(bs)) == Some(Encode64(bs))
  {
    Encode32Shape(bs);
    UpperLower(Encode32(bs));
    assert ToUpper(Encode32(bs)) == Encode32(bs);
    DecodeEncode32(bs);
    DecodeEncode64(bs);
  }

  /** The label of a key. */
  function LabelOf(k: string): (dnsLabel: string)
    requires IsPubkey(k)
    ensures PubkeyToDnsLabel(k) == Some(dnsLabel)
  {
    ToLower(Encode32(Decode64(k).value))
  }

  predicate IsLabelChar(c: char) {
    'a' <= c <= 'z' || '2' <= c <= '7'
  }

  /**
    The label of a key has 52 characters of the alphabet a-z2-7 and ends in `a` or `q`;
    both programs compute it, and both take it back to the key.
   */
  lemma KeyLabel(k: string)
    requires IsPubkey(k)
    ensures var dnsLabel := LabelOf(k);
            && |dnsLabel| == 52
            && (forall i :: 0 <= i < 52 ==> IsLabelChar(dnsLabel[i]))
            && (dnsLabel[51] == 'a' || dnsLabel[51] == 'q')
            && DnsLabelToPubkey(dnsLabel) == Some(k)
            && PubkeyToLabel(k) == Ok(dnsLabel)
            && LabelToPubkey(dnsLabel) == Ok(k)
  {
    var bs := Decode64(k).value;
    LabelRoundTrip(bs);
    Encode32Shape(bs);
    var s := Encode32(bs);
    LastSymbol(bs);
    assert ToLower(s)[51] == Lower(s[51]);
  }

  lemma LastSymbol(bs: seq<byte>)
    requires |bs| == 32
    ensures |Encode32(bs)| == 52 && (Encode32(bs)[51] == 'A' || Encode32(bs)[51] == 'Q')
  {
    Encode32Shape(bs);
    BytesOfUnpack(bs);
    var bits := Unpack(bs, 8);
    var syms := Pack(bits, 5);
    UnpackPack(bits, 5);
    UnpackLength(syms, 5);
    PackBound(bits, 5);
    LastGroup(syms);
    var padded := bits + Zeros(4);
    assert Unpack(syms, 5) == padded;
    assert forall i :: 1 <= i < 5 ==> padded[255..][i] == padded[255 + i] == false;
    FiveDigits(syms[51]);
  }

  lemma LastGroup(syms: seq<nat>)
    requires |syms| == 52
    requires forall i :: 0 <= i < 52 ==> syms[i] < Pow2(5)
    ensures |Unpack(syms, 5)| == 260 && Unpack(syms, 5)[255..] == Digits(syms[51], 5)
    ensures syms[51] < 32
  {
    assert Pow2(5) == 32 by { assert Pow2(3) == 8; }
    assert syms == syms[..51] + [syms[51]];
    UnpackConcat(syms[..51], [syms[51]], 5);
    UnpackLength(syms[..51], 5);
    UnpackLength(syms, 5);
    assert Unpack([syms[51]], 5) == Digits(syms[51], 5) + [];
  }

  /** The first of five digits is the bit of weight 16; the others spell the rest. */
  lemma FiveDigits(v: nat)
    requires v < 32
    ensures |Digits(v, 5)| == 5 && Digits(v, 5)[0] == (v / 16 == 1)
    ensures (forall i :: 1 <= i < 5 ==> !Digits(v, 5)[i]) ==> v == 0 || v == 16
  {
    var v1 := v / 2;
    var v2 := v1 / 2;
    var v3 := v2 / 2;
    var v4 := v3 / 2;
    assert Digits(v4, 1) == Digits(v4 / 2, 0) + [v4 % 2 == 1];
    assert Digits(v3, 2) == [v4 % 2 == 1, v3 % 2 == 1];
    assert Digits(v2, 3) == [v4 % 2 == 1, v3 % 2 == 1, v2 % 2 == 1];
    assert Digits(v1, 4) == [v4 % 2 == 1, v3 % 2 == 1, v2 % 2 == 1, v1 % 2 == 1];
    var d := [v4 % 2 == 1, v3 % 2 == 1, v2 % 2 == 1, v1 % 2 == 1, v % 2 == 1];
    assert Digits(v, 5) == d;
    assert v4 == v / 16 && v4 < 2;
    if forall i :: 1 <= i < 5 ==> !d[i] {
      assert !d[1] && !d[2] && !d[3] && !d[4];
    }
  }

  lemma LabelsDistinct(k: string, l: string)
    requires IsPubkey(k) && IsPubkey(l)
    ensures LabelOf(k) == LabelOf(l) ==> k == l
  {
    KeyLabel(k);
    KeyLabel(l);
  }

  // ---- Which labels name the same key

  predicate LabelText(s: string) {
    |s| == 52 && AllChars32(ToUpper(s))
  }

  /** Equal up to case and up to the four low bits of the last symbol, which carry no key bits. */
  predicate SameUpToUnusedBits(a: string, b: string)
    requires LabelText(a) && LabelText(b)
  {
    ToUpper(a)[..51] == ToUpper(b)[..51]
    && CharSymbol32(ToUpper(a)[51]) / 16 == CharSymbol32(ToUpper(b)[51]) / 16
  }

  lemma SignificantBits(s: string)
    requires |s| == 52 && AllChars32(s)
    ensures Decode32(s) == Some(DecodeSymbols32(s)) && |Unpack(Symbols32(s[..51]), 5)| == 255
    ensures DecodeSymbols32(s) == BytesOf(Unpack(Symbols32(s[..51]), 5) + [CharSymbol32(s[51]) / 16 == 1])
  {
    assert '\r' !in s && '\n' !in s;
    StripNothing(s);
    var syms := Symbols32(s);
    assert syms == Symbols32(s[..51]) + [syms[51]];
    UnpackConcat(Symbols32(s[..51]), [syms[51]], 5);
    UnpackLength(Symbols32(s[..51]), 5);
    UnpackLength(syms, 5);
    assert Unpack([syms[51]], 5) == Digits(syms[51], 5) + [];
    FiveDigits(syms[51]);
    assert Unpack(syms, 5)[..256] == Unpack(Symbols32(s[..51]), 5) + [syms[51] / 16 == 1];
  }

  lemma SameKeyIff(a: string, b: string)
    requires LabelText(a) && LabelText(b)
    ensures DnsLabelToPubkey(a) == DnsLabelToPubkey(b) <==> SameUpToUnusedBits(a, b)
    ensures DnsLabelToPubkey(a).Some? && IsPubkey(DnsLabelToPubkey(a).value)
  {
    hide IsPubkey, Decode32, DecodeSymbols32, Encode64, Unpack, BytesOf, ToUpper, CharSymbol32;
    var s, t := ToUpper(a), ToUpper(b);
    SignificantBits(s);
    SignificantBits(t);
    var ps, pt := Unpack(Symbols32(s[..51]), 5), Unpack(Symbols32(t[..51]), 5);
    var us, ut := [CharSymbol32(s[51]) / 16 == 1], [CharSymbol32(t[51]) / 16 == 1];
    UnpackBytesOf(ps + us);
    UnpackLength(DecodeSymbols32(s), 8);
    assert |DecodeSymbols32(s)| == 32;
    Encode64IsPubkey(DecodeSymbols32(s));
    if DnsLabelToPubkey(a) == DnsLabelToPubkey(b) {
      Encode64Injective(DecodeSymbols32(s), DecodeSymbols32(t));
      BytesOfInjective(ps + us, pt + ut);
      assert (ps + us)[..255] == ps && (pt + ut)[..255] == pt;
      assert (ps + us)[255] == us[0] && (pt + ut)[255] == ut[0];
      UnpackInjective(Symbols32(s[..51]), Symbols32(t[..51]), 5);
      assert forall i :: 0 <= i < 51 ==> s[i] == SymbolChar32(Symbols32(s[..51])[i]) == t[i];
      assert s[..51] == t[..51];
    }
  }

  // ---- Length bounds

  /** Text too short to be a label never decodes to a key. */
  lemma ShortLabelIsNoKey(dnsLabel: string)
    requires |dnsLabel| < 52
    ensures DnsLabelToPubkey(dnsLabel).Some? ==> !IsPubkey(DnsLabelToPubkey(dnsLabel).value)
  {
    if DnsLabelToPubkey(dnsLabel).Some? {
      Encode64IsPubkey(Decode32(ToUpper(dnsLabel)).value);
    }
  }

  // ---- NormalizePubkey

  lemma PubkeyIsBase64(k: string)
    requires IsPubkey(k)
    ensures DetectFormat(k) == Base64 && NormalizePubkey(k) == Ok(k)
  {
    PubkeyShape(k);
    assert k[43] in k;
  }

  /** Both written forms of a key normalise to its base 64 form. */
  lemma NormalizeBothForms(k: string)
    requires IsPubkey(k)
    ensures NormalizePubkey(k) == Ok(k)
    ensures NormalizePubkey(LabelOf(k)) == Ok(k)
    ensures NormalizePubkey(ToUpper(LabelOf(k))) == Ok(k)
  {
    PubkeyIsBase64(k);
    KeyLabel(k);
    var dnsLabel := LabelOf(k);
    var upper := ToUpper(dnsLabel);
    assert forall i :: 0 <= i < 52 ==> IsChar32(upper[i]);
    assert ToUpper(upper) == upper;
    assert '+' !in dnsLabel && '/' !in dnsLabel && '=' !in dnsLabel;
    assert '+' !in upper && '/' !in upper && '=' !in upper;
  }

  lemma FullLabelNormalizes(input: string)
    requires DetectFormat(input) == Base32 && NormalizePubkey(input).Ok?
    requires '\r' !in input && '\n' !in input
    ensures NormalizePubkey(NormalizePubkey(input).value) == NormalizePubkey(input)
  {
    var t := ToUpper(input);
    assert forall i :: 0 <= i < |t| ==> (t[i] == '\r' <==> input[i] == '\r') && (t[i] == '\n' <==> input[i] == '\n');
    StripNothing(t);
    assert DecodedLength32(52) == 32;
    Encode64IsPubkey(Decode32(t).value);
    PubkeyIsBase64(Encode64(Decode32(t).value));
  }

  lemma BrokenLabelDoesNot(input: string)
    requires DetectFormat(input) == Base32 && NormalizePubkey(input).Ok?
    requires '\r' in input || '\n' in input
    ensures NormalizePubkey(NormalizePubkey(input).value).Err?
  {
    hide Encode64, StripNewlines, PaddingCount, DecodeSymbols64;
    var t := ToUpper(input);
    NewlineSurvivesUpper(input);
    StripSomething(t);
    var bs := Decode32(t).value;
    assert |bs| < 32;
    DecodeEncode64(bs);
    Encode64Parts(bs);
  }

  /**
    Normalising twice changes nothing exactly when the input was base 64 or a label free of CR and LF:
    the decoder drops those characters, and a shorter label yields text that is no key.
   */
  lemma NormalizeIdempotentIff(input: string)
    requires NormalizePubkey(input).Ok?
    ensures var y := NormalizePubkey(input).value;
            NormalizePubkey(y) == Ok(y)
            <==> DetectFormat(input) == Base64 || ('\r' !in input && '\n' !in input)
  {
    if DetectFormat(input) == Base32 {
      if '\r' in input || '\n' in input {
        BrokenLabelDoesNot(input);
      } else {
        FullLabelNormalizes(input);
      }
    }
  }

  /** In whatever spelling, a key of 32 bytes has a label, which leads to its canonical spelling; no other text has. */
  lemma LabelOfText(text: string)
    ensures var r := PubkeyToLabel(text);
            match Decode64(text)
            case None => r == Err(InvalidBase64)
            case Some(bs) =>
              if |bs| == 32 then r.Ok? && LabelToPubkey(r.value) == Ok(Encode64(bs))
              else r == Err(if text == "" then EmptyInput else InvalidLength(|bs|))
  {
    hide Encode64, Encode32, Decode32, DnsLabelToPubkey;
    EmptyDecodesEmpty();
    if Decode64(text).Some? && |Decode64(text).value| == 32 {
      var bs := Decode64(text).value;
      LabelRoundTrip(bs);
      KeyLabel(Encode64(bs)) by { Encode64IsPubkey(bs); }
    }
  }

  lemma EmptyDecodesEmpty()
    ensures Decode64("") == Some([])
  {
    hide DecodeSymbols64;
    assert !HasSuffix("", "=") && !HasSuffix("", "==");
  }

  predicate IsMarked(input: string) {
    '+' in input || '/' in input || '=' in input
  }

  /** What each kind of text normalises to, and which error it gives otherwise. */
  lemma NormalizeExact(input: string)
    ensures var r := NormalizePubkey(input);
            && (r == Err(EmptyInput) <==> input == "")
            && (r == Err(UnknownFormat) <==> input != "" && !IsMarked(input) && |input| != 52)
            && (IsMarked(input) ==>
                  match Decode64(input)
                  case None => r == Err(InvalidBase64)
                  case Some(bs) => r == if |bs| == 32 then Ok(input) else Err(InvalidLength(|bs|)))
            && (!IsMarked(input) && |input| == 52 ==>
                  match Decode32(ToUpper(input))
                  case None => r == Err(InvalidBase32)
                  case Some(bs) => r.Ok? && Decode64(r.value) == Some(bs))
  {
    hide Decode32, Decode64, Encode64;
    if !IsMarked(input) && |input| == 52 && Decode32(ToUpper(input)).Some? {
      DecodeEncode64(Decode32(ToUpper(input)).value);
    }
  }

  lemma NewlineSurvivesUpper(s: string)
    requires '\r' in s || '\n' in s
    ensures '\r' in ToUpper(s) || '\n' in ToUpper(s)
  {
    var i :| 0 <= i < |s| && (s[i] == '\r' || s[i] == '\n');
    assert ToUpper(s)[i] == s[i];
  }

  /** A label with a line feed in it: it normalises, but its normal form does not. */
  lemma NormalizeNotIdempotent()
    ensures var input := seq(51, _ => 'a') + "\n";
            NormalizePubkey(input).Ok? && NormalizePubkey(NormalizePubkey(input).value).Err?
  {
    var input := seq(51, _ => 'a') + "\n";
    var body := seq(51, _ => 'A');
    assert input[51] == '\n';
    assert ToUpper(input) == body + "\n";
    StripAppended(body);
    StripNothing(body);
    assert AllChars32(body);
    assert '+' !in input && '/' !in input && '=' !in input;
    assert NormalizePubkey(input).Ok?;
    BrokenLabelDoesNot(input);
  }

  lemma {:induction false} StripAppended(s: string)
    ensures StripNewlines(s + "\n") == StripNewlines(s)
  {
    if s == "" {
      assert StripNewlines("\n"[1..]) == "";
    } else {
      assert (s + "\n")[1..] == s[1..] + "\n";
      StripAppended(s[1..]);
    }
  }
}
