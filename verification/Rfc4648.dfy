/**
  Base 64 with padding and base 32 without padding (sections 4 and 6 of RFC 4648), as Go's
  encoding/base64 StdEncoding and encoding/base32 StdEncoding.WithPadding(NoPadding) implement them.
  Both decoders drop CR and LF, and neither looks at the unused low bits of the last symbol.
 */
module Rfc4648 {
  import opened Options
  import opened Bits
  import opened Text

  // ---- Alphabets

  function SymbolChar64(x: nat): char
    requires x < 64
  {
    if x < 26 then ('A' as int + x) as char
    else if x < 52 then ('a' as int + x - 26) as char
    else if x < 62 then ('0' as int + x - 52) as char
    else if x == 62 then '+'
    else '/'
  }

  predicate IsChar64(c: char) {
    'A' <= c <= 'Z' || 'a' <= c <= 'z' || '0' <= c <= '9' || c == '+' || c == '/'
  }

  function CharSymbol64(c: char): (x: nat)
    requires IsChar64(c)
    ensures x < 64 && SymbolChar64(x) == c
  {
    if 'A' <= c <= 'Z' then c as int - 'A' as int
    else if 'a' <= c <= 'z' then c as int - 'a' as int + 26
    else if '0' <= c <= '9' then c as int - '0' as int + 52
    else if c == '+' then 62
    else 63
  }

  function SymbolChar32(x: nat): char
    requires x < 32
  {
    if x < 26 then ('A' as int + x) as char else ('2' as int + x - 26) as char
  }

  predicate IsChar32(c: char) {
    'A' <= c <= 'Z' || '2' <= c <= '7'
  }

  function CharSymbol32(c: char): (x: nat)
    requires IsChar32(c)
    ensures x < 32 && SymbolChar32(x) == c
  {
    if 'A' <= c <= 'Z' then c as int - 'A' as int else c as int - '2' as int + 26
  }

  predicate AllChars32(s: string) {
    forall i :: 0 <= i < |s| ==> IsChar32(s[i])
  }

  predicate AllChars64(s: string) {
    forall i :: 0 <= i < |s| ==> IsChar64(s[i])
  }

  function Symbols32(s: string): (syms: seq<nat>)
    requires AllChars32(s)
    ensures |syms| == |s| && forall i :: 0 <= i < |s| ==> syms[i] == CharSymbol32(s[i]) < Pow2(5)
  {
    assert Pow2(5) == 32;
    seq(|s|, i requires 0 <= i < |s| => CharSymbol32(s[i]))
  }

  function Symbols64(s: string): (syms: seq<nat>)
    requires AllChars64(s)
    ensures |syms| == |s| && forall i :: 0 <= i < |s| ==> syms[i] == CharSymbol64(s[i]) < Pow2(6)
  {
    assert Pow2(6) == 64;
    seq(|s|, i requires 0 <= i < |s| => CharSymbol64(s[i]))
  }

  // ---- Bytes as bits

  function BytesOf(bits: seq<bool>): seq<byte>
    requires |bits| % 8 == 0
  {
    PackBound(bits, 8);
    assert Pow2(8) == 256;
    Pack(bits, 8)
  }

  lemma BytesOfUnpack(bs: seq<byte>)
    ensures |Unpack(bs, 8)| == 8 * |bs| && BytesOf(Unpack(bs, 8)) == bs
  {
    UnpackLength(bs, 8);
    assert Pow2(8) == 256;
    PackUnpack(bs, 8);
  }

  lemma BytesOfInjective(a: seq<bool>, b: seq<bool>)
    requires |a| % 8 == 0 && |b| % 8 == 0 && |a| == |b|
    ensures BytesOf(a) == BytesOf(b) ==> a == b
  {
    UnpackBytesOf(a);
    UnpackBytesOf(b);
  }

  lemma UnpackBytesOf(bits: seq<bool>)
    requires |bits| % 8 == 0
    ensures Unpack(BytesOf(bits), 8) == bits
  {
    UnpackPack(bits, 8);
    UnpackLength(BytesOf(bits), 8);
    var back := Unpack(Pack(bits, 8), 8);
    assert |back| == |bits|;
    assert bits + Zeros(0) == bits;
  }

  lemma BytesOfLength(bits: seq<bool>, n: nat)
    requires 8 * n <= |bits|
    ensures |BytesOf(bits[..8 * n])| == n
  {
    UnpackBytesOf(bits[..8 * n]);
    UnpackLength(BytesOf(bits[..8 * n]), 8);
  }

  // ---- Encoders

  function Encode32(bs: seq<byte>): string {
    var syms := Pack(Unpack(bs, 8), 5);
    PackBound(Unpack(bs, 8), 5);
    assert Pow2(5) == 32;
    seq(|syms|, i requires 0 <= i < |syms| => SymbolChar32(syms[i]))
  }

  function Body64(bs: seq<byte>): string {
    var syms := Pack(Unpack(bs, 8), 6);
    PackBound(Unpack(bs, 8), 6);
    assert Pow2(6) == 64;
    seq(|syms|, i requires 0 <= i < |syms| => SymbolChar64(syms[i]))
  }

  function Padding64(symbols: nat): string {
    if symbols % 4 == 2 then "==" else if symbols % 4 == 3 then "=" else ""
  }

  function Encode64(bs: seq<byte>): string {
    Body64(bs) + Padding64(|Body64(bs)|)
  }

  // ---- Decoders

  function StripNewlines(s: string): (r: string)
    ensures |r| <= |s|
  {
    if s == "" then ""
    else if s[0] == '\r' || s[0] == '\n' then StripNewlines(s[1..])
    else [s[0]] + StripNewlines(s[1..])
  }

  /** A last group of 1, 3 or 6 symbols yields no bytes and no error; only the other lengths carry data. */
  function DecodedLength32(symbols: nat): nat {
    var tail := symbols % 8;
    5 * (symbols / 8)
    + (if tail == 2 then 1 else if tail == 4 then 2 else if tail == 5 then 3 else if tail == 7 then 4 else 0)
  }

  function DecodeSymbols32(s: string): (bs: seq<byte>)
    requires AllChars32(s)
    ensures |bs| == DecodedLength32(|s|)
  {
    var bits := Unpack(Symbols32(s), 5);
    UnpackLength(Symbols32(s), 5);
    BytesOfLength(bits, DecodedLength32(|s|));
    BytesOf(bits[..8 * DecodedLength32(|s|)])
  }

  function Decode32(s: string): Option<seq<byte>> {
    var t := StripNewlines(s);
    if AllChars32(t) then Some(DecodeSymbols32(t)) else None
  }

  function DecodeSymbols64(s: string): (bs: seq<byte>)
    requires AllChars64(s)
    ensures |bs| == 6 * |s| / 8
  {
    var bits := Unpack(Symbols64(s), 6);
    UnpackLength(Symbols64(s), 6);
    var n := 6 * |s| / 8;
    BytesOfLength(bits, n);
    BytesOf(bits[..8 * n])
  }

  /** How many of the last characters are padding: at most two. */
  function PaddingCount(t: string): nat {
    if HasSuffix(t, "==") then 2 else if HasSuffix(t, "=") then 1 else 0
  }

  function Decode64(s: string): Option<seq<byte>> {
    var t := StripNewlines(s);
    var body := t[..|t| - PaddingCount(t)];
    if |t| % 4 == 0 && AllChars64(body) then Some(DecodeSymbols64(body)) else None
  }

  // ---- Round trips

  lemma {:induction false} StripNothing(s: string)
    requires '\r' !in s && '\n' !in s
    ensures StripNewlines(s) == s
  {
    if s != "" {
      assert s == [s[0]] + s[1..];
      assert forall c :: c in s[1..] ==> c in s;
      StripNothing(s[1..]);
    }
  }

  lemma {:induction false} StripSomething(s: string)
    requires '\r' in s || '\n' in s
    ensures |StripNewlines(s)| < |s|
  {
    if s[0] != '\r' && s[0] != '\n' {
      assert s == [s[0]] + s[1..];
      StripSomething(s[1..]);
    }
  }

  lemma {:induction false} StripKeeps(s: string, c: char)
    requires c in s && c != '\r' && c != '\n'
    ensures c in StripNewlines(s)
  {
    assert s == [s[0]] + s[1..];
    if c != s[0] { StripKeeps(s[1..], c); }
  }

  lemma {:induction false} StripSubset(s: string, c: char)
    requires c in StripNewlines(s)
    ensures c in s
  {
    assert s == [s[0]] + s[1..];
    if c in StripNewlines(s[1..]) { StripSubset(s[1..], c); }
  }

  lemma Encode32Shape(bs: seq<byte>)
    ensures AllChars32(Encode32(bs)) && |Encode32(bs)| == (8 * |bs| + 4) / 5
    ensures Symbols32(Encode32(bs)) == Pack(Unpack(bs, 8), 5)
  {
    UnpackLength(bs, 8);
    PackLength(Unpack(bs, 8), 5);
    PackBound(Unpack(bs, 8), 5);
    assert Pow2(5) == 32;
  }

  lemma Body64Shape(bs: seq<byte>)
    ensures AllChars64(Body64(bs)) && |Body64(bs)| == (8 * |bs| + 5) / 6
    ensures Symbols64(Body64(bs)) == Pack(Unpack(bs, 8), 6)
  {
    UnpackLength(bs, 8);
    PackLength(Unpack(bs, 8), 6);
    PackBound(Unpack(bs, 8), 6);
    assert Pow2(6) == 64;
  }

  lemma SymbolCount32(n: nat)
    ensures DecodedLength32((8 * n + 4) / 5) == n
  {
    var q, r := n / 5, n % 5;
    assert n == 5 * q + r;
    var tail := if r == 0 then 0 else if r == 1 then 2 else if r == 2 then 4 else if r == 3 then 5 else 7;
    QuotientUnique(8 * n + 4, 5, 8 * q + tail, 8 * r + 4 - 5 * tail);
    QuotientUnique(8 * q + tail, 8, q, tail);
  }

  lemma SymbolCount64(n: nat)
    ensures 6 * ((8 * n + 5) / 6) / 8 == n
  {
    var q, r := n / 3, n % 3;
    SymbolLength64(n);
    assert n == 3 * q + r;
    if r == 0 {
      QuotientUnique(24 * q, 8, n, 0);
    } else if r == 1 {
      QuotientUnique(24 * q + 12, 8, n, 4);
    } else {
      QuotientUnique(24 * q + 18, 8, n, 2);
    }
  }

  lemma DecodeEncode32(bs: seq<byte>)
    ensures Decode32(Encode32(bs)) == Some(bs)
  {
    hide Encode32, StripNewlines, Pack, Unpack, BytesOf, DecodedLength32;
    var s := Encode32(bs);
    Encode32Shape(bs);
    assert '\r' !in s && '\n' !in s;
    StripNothing(s);
    UnpackPack(Unpack(bs, 8), 5);
    BytesOfUnpack(bs);
    SymbolCount32(|bs|);
    assert Unpack(Symbols32(s), 5)[..8 * |bs|] == Unpack(bs, 8);
  }

  lemma PaddedParts(body: string)
    requires AllChars64(body)
    ensures var s := body + Padding64(|body|);
            StripNewlines(s) == s && PaddingCount(s) == |Padding64(|body|)|
  {
    hide StripNewlines, HasSuffix, IsChar64;
    var pad := Padding64(|body|);
    var s := body + pad;
    NoNewlines(body, pad);
    StripNothing(s);
    if |pad| == 2 {
      SuffixConcat(body, "==");
    } else {
      NoEqualsAt(body, pad, "==");
      if |pad| == 1 { SuffixConcat(body, "="); } else { NoEqualsAt(body, pad, "="); }
    }
  }

  lemma NoNewlines(body: string, pad: string)
    requires AllChars64(body) && (pad == "" || pad == "=" || pad == "==")
    ensures '\r' !in body + pad && '\n' !in body + pad
  {
  }

  lemma NoEqualsAt(body: string, pad: string, suffix: string)
    requires AllChars64(body) && (pad == "" || pad == "=") && |pad| < |suffix| && suffix[0] == '='
    ensures !HasSuffix(body + pad, suffix)
  {
    var s := body + pad;
    if HasSuffix(s, suffix) {
      OccurrenceChars(s, suffix, |s| - |suffix|, |s| - |suffix|);
    }
  }

  /** `n` bytes fill whole groups of three bytes and four symbols, then a short group. */
  lemma SymbolLength64(n: nat)
    ensures var q, r := n / 3, n % 3;
            (8 * n + 5) / 6 == 4 * q + (if r == 0 then 0 else if r == 1 then 2 else 3)
  {
    var q, r := n / 3, n % 3;
    assert n == 3 * q + r;
    if r == 0 {
      QuotientUnique(8 * n + 5, 6, 4 * q, 5);
    } else if r == 1 {
      QuotientUnique(8 * n + 5, 6, 4 * q + 2, 1);
    } else {
      QuotientUnique(8 * n + 5, 6, 4 * q + 3, 3);
    }
  }

  lemma PaddedLength(n: nat)
    ensures var m := (8 * n + 5) / 6;
            m + |Padding64(m)| == (n + 2) / 3 * 4
  {
    var q, r := n / 3, n % 3;
    SymbolLength64(n);
    assert n == 3 * q + r;
    if r == 0 {
      QuotientUnique(n + 2, 3, q, 2);
    } else {
      QuotientUnique(n + 2, 3, q + 1, r - 1);
    }
  }

  lemma Encode64Parts(bs: seq<byte>)
    ensures var s := Encode64(bs);
            |s| == (|bs| + 2) / 3 * 4 && StripNewlines(s) == s
            && s[..|s| - PaddingCount(s)] == Body64(bs)
  {
    hide Body64, StripNewlines, PaddingCount, Padding64;
    Body64Shape(bs);
    PaddedParts(Body64(bs));
    PaddedLength(|bs|);
    SuffixConcat(Body64(bs), Padding64(|Body64(bs)|));
  }

  lemma DecodeEncode64(bs: seq<byte>)
    ensures Decode64(Encode64(bs)) == Some(bs)
  {
    hide Encode64, Body64, StripNewlines, PaddingCount, Pack, Unpack, BytesOf;
    Encode64Parts(bs);
    Body64Shape(bs);
    UnpackPack(Unpack(bs, 8), 6);
    BytesOfUnpack(bs);
    var body := Body64(bs);
    SymbolCount64(|bs|);
    assert Unpack(Symbols64(body), 6)[..8 * |bs|] == Unpack(bs, 8);
  }

  lemma Encode64Injective(a: seq<byte>, b: seq<byte>)
    requires Encode64(a) == Encode64(b)
    ensures a == b
  {
    DecodeEncode64(a);
    DecodeEncode64(b);
  }

  // ---- Test vectors of section 10 of RFC 4648

  lemma UnpackOne(sym: nat, rest: seq<nat>, w: nat)
    ensures Unpack([sym] + rest, w) == Digits(sym, w) + Unpack(rest, w)
  {
    assert ([sym] + rest)[1..] == rest;
  }

  /** "foo" is "Zm9v" in base 64. */
  lemma FooInBase64()
    ensures Encode64([0x66, 0x6F, 0x6F]) == "Zm9v"
  {
    hide Unpack, Pack, Digits;
    var syms := [25, 38, 61, 47];
    FooBits();
    assert Pow2(6) == 64;
    PackUnpack(syms, 6);
    assert Body64([0x66, 0x6F, 0x6F]) == "Zm9v";
  }

  lemma FooBytes()
    ensures Digits(0x66, 8) == [false, true, true, false, false, true, true, false]
  {
  }

  lemma MoreFooBytes()
    ensures Digits(0x6F, 8) == [false, true, true, false, true, true, true, true]
  {
  }

  lemma FooSymbols()
    ensures Digits(25, 6) == [false, true, true, false, false, true]
    ensures Digits(38, 6) == [true, false, false, true, true, false]
  {
  }

  lemma OtherFooSymbols()
    ensures Digits(61, 6) == [true, true, true, true, false, true]
    ensures Digits(47, 6) == [true, false, true, true, true, true]
  {
  }

  lemma FooBits()
    ensures Unpack([0x66, 0x6F, 0x6F], 8) == Unpack([25, 38, 61, 47], 6)
  {
    hide Digits, Unpack;
    FooBytes();
    MoreFooBytes();
    FooSymbols();
    OtherFooSymbols();
    NothingUnpacked(8);
    NothingUnpacked(6);
    assert [25, 38, 61, 47] == [25] + ([38] + ([61] + ([47] + [])));
    assert [0x66, 0x6F, 0x6F] == [0x66] + ([0x6F] + ([0x6F] + []));
    UnpackOne(0x66, [0x6F] + ([0x6F] + []), 8);
    UnpackOne(0x6F, [0x6F] + [], 8);
    UnpackOne(0x6F, [], 8);
    UnpackOne(25, [38] + ([61] + ([47] + [])), 6);
    UnpackOne(38, [61] + ([47] + []), 6);
    UnpackOne(61, [47] + [], 6);
    UnpackOne(47, [], 6);
  }

  lemma NothingUnpacked(w: nat)
    ensures Unpack([], w) == []
  {
  }
}
