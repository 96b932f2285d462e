/** Big-endian bit strings: the common ground of base 32 and base 64. */
module Bits {

  type byte = x: nat | x < 256

  function Pow2(n: nat): (r: nat)
    ensures r > 0
  {
    if n == 0 then 1 else 2 * Pow2(n - 1)
  }

  function Value(bits: seq<bool>): nat {
    if |bits| == 0 then 0
    else 2 * Value(bits[..|bits| - 1]) + (if bits[|bits| - 1] then 1 else 0)
  }

  function Digits(v: nat, w: nat): (bits: seq<bool>)
    ensures |bits| == w
  {
    if w == 0 then [] else Digits(v / 2, w - 1) + [v % 2 == 1]
  }

  function Zeros(n: nat): (bits: seq<bool>)
    ensures |bits| == n
  {
    seq(n, _ => false)
  }

  /** Writes every symbol with `w` bits. */
  function Unpack(syms: seq<nat>, w: nat): seq<bool> {
    if |syms| == 0 then [] else Digits(syms[0], w) + Unpack(syms[1..], w)
  }

  /** Reads groups of `w` bits, filling a last short group with zero bits on the right. */
  function Pack(bits: seq<bool>, w: nat): seq<nat>
    requires w > 0
  {
    if |bits| == 0 then []
    else if |bits| <= w then [Value(bits + Zeros(w - |bits|))]
    else [Value(bits[..w])] + Pack(bits[w..], w)
  }

  lemma {:induction false} ValueBound(bits: seq<bool>)
    ensures Value(bits) < Pow2(|bits|)
  {
    if |bits| > 0 {
      ValueBound(bits[..|bits| - 1]);
    }
  }

  lemma {:induction false} DigitsOfValue(bits: seq<bool>)
    ensures Digits(Value(bits), |bits|) == bits
  {
    if |bits| > 0 {
      DigitsOfValue(bits[..|bits| - 1]);
      assert bits == bits[..|bits| - 1] + [bits[|bits| - 1]];
      assert Value(bits) / 2 == Value(bits[..|bits| - 1]);
    }
  }

  lemma {:induction false} ValueOfDigits(v: nat, w: nat)
    requires v < Pow2(w)
    ensures Value(Digits(v, w)) == v
  {
    if w > 0 {
      ValueOfDigits(v / 2, w - 1);
      assert Digits(v, w)[..w - 1] == Digits(v / 2, w - 1);
    }
  }

  lemma {:induction false} UnpackLength(syms: seq<nat>, w: nat)
    ensures |Unpack(syms, w)| == |syms| * w
  {
    if |syms| > 0 {
      UnpackLength(syms[1..], w);
      assert |syms| * w == w + (|syms| - 1) * w;
    }
  }

  lemma {:induction false} UnpackConcat(a: seq<nat>, b: seq<nat>, w: nat)
    ensures Unpack(a + b, w) == Unpack(a, w) + Unpack(b, w)
  {
    if |a| == 0 {
      assert a + b == b;
    } else {
      assert (a + b)[1..] == a[1..] + b;
      UnpackConcat(a[1..], b, w);
    }
  }

  lemma {:induction false} PackBound(bits: seq<bool>, w: nat)
    requires w > 0
    ensures forall i :: 0 <= i < |Pack(bits, w)| ==> Pack(bits, w)[i] < Pow2(w)
  {
    if |bits| == 0 {
    } else if |bits| <= w {
      ValueBound(bits + Zeros(w - |bits|));
    } else {
      ValueBound(bits[..w]);
      PackBound(bits[w..], w);
    }
  }

  /** Grouping loses nothing: the groups spell the bits again, followed by fewer than `w` zero bits. */
  lemma {:induction false} UnpackPack(bits: seq<bool>, w: nat)
    requires w > 0
    ensures var back := Unpack(Pack(bits, w), w);
            |bits| <= |back| < |bits| + w && back == bits + Zeros(|back| - |bits|)
  {
    if |bits| == 0 {
    } else if |bits| <= w {
      var padded := bits + Zeros(w - |bits|);
      DigitsOfValue(padded);
      assert Unpack([Value(padded)], w) == padded + [];
      assert padded + [] == padded;
    } else {
      var rest := Unpack(Pack(bits[w..], w), w);
      UnpackPack(bits[w..], w);
      DigitsOfValue(bits[..w]);
      assert Pack(bits, w)[1..] == Pack(bits[w..], w);
      assert bits == bits[..w] + bits[w..];
      var back := Unpack(Pack(bits, w), w);
      assert back == bits[..w] + rest;
      assert back == bits + Zeros(|back| - |bits|);
    }
  }

  lemma {:induction false} PackUnpack(syms: seq<nat>, w: nat)
    requires w > 0
    requires forall i :: 0 <= i < |syms| ==> syms[i] < Pow2(w)
    ensures Pack(Unpack(syms, w), w) == syms
  {
    if |syms| > 0 {
      var bits := Unpack(syms, w);
      assert bits[..w] == Digits(syms[0], w);
      assert bits[w..] == Unpack(syms[1..], w);
      ValueOfDigits(syms[0], w);
      PackUnpack(syms[1..], w);
      assert syms == [syms[0]] + syms[1..];
      if |bits| <= w {
        UnpackLength(syms[1..], w);
        assert bits + Zeros(w - |bits|) == bits == Digits(syms[0], w);
      }
    }
  }

  lemma {:induction false} PackLength(bits: seq<bool>, w: nat)
    requires w > 0
    ensures |Pack(bits, w)| == (|bits| + w - 1) / w
  {
    UnpackPack(bits, w);
    var n := |Pack(bits, w)|;
    UnpackLength(Pack(bits, w), w);
    assert |bits| <= n * w < |bits| + w;
    QuotientUnique(|bits| + w - 1, w, n, |bits| + w - 1 - n * w);
  }

  lemma QuotientUnique(a: nat, w: nat, q: nat, r: nat)
    requires w > 0 && a == q * w + r && r < w
    ensures a / w == q
  {
    var d, m := a / w, a % w;
    assert a == d * w + m;
    assert (d - q) * w == r - m;
    if d > q { MultipleAtLeast(d - q, w); }
    if d < q { MultipleAtLeast(q - d, w); }
  }

  lemma MultipleAtLeast(k: nat, w: nat)
    requires k >= 1
    ensures k * w >= w
  {
    assert k * w == (k - 1) * w + w;
  }

  lemma UnpackInjective(a: seq<nat>, b: seq<nat>, w: nat)
    requires w > 0
    requires forall i :: 0 <= i < |a| ==> a[i] < Pow2(w)
    requires forall i :: 0 <= i < |b| ==> b[i] < Pow2(w)
    requires Unpack(a, w) == Unpack(b, w)
    ensures a == b
  {
    PackUnpack(a, w);
    PackUnpack(b, w);
  }
}
