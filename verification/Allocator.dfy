/** Automatic overlay addresses (valonctl/pkg/client/etcd.go): a carry increment and a scan of a masked network. */
module Allocator {
  import opened Options
  import opened Addresses
  import opened Bits

  type IP = seq<bv8>

  function Pow256(n: nat): (r: nat)
    ensures r > 0
  {
    if n == 0 then 1 else 256 * Pow256(n - 1)
  }

  /** The number an address spells, most significant byte first. */
  function Number(ip: IP): nat {
    if |ip| == 0 then 0 else 256 * Number(ip[..|ip| - 1]) + ip[|ip| - 1] as nat
  }

  lemma {:induction false} NumberBound(ip: IP)
    ensures Number(ip) < Pow256(|ip|)
  {
    if |ip| > 0 {
      NumberBound(ip[..|ip| - 1]);
    }
  }

  lemma {:induction false} NumberInjective(a: IP, b: IP)
    requires |a| == |b| && Number(a) == Number(b)
    ensures a == b
  {
    if |a| > 0 {
      var n := |a| - 1;
      LastDigit(Number(a[..n]), a[n], Number(b[..n]), b[n]);
      NumberInjective(a[..n], b[..n]);
      assert a == a[..n] + [a[n]];
      assert b == b[..n] + [b[n]];
    }
  }

  lemma LastDigit(p: nat, x: bv8, q: nat, y: bv8)
    requires 256 * p + x as nat == 256 * q + y as nat
    ensures p == q && x == y
  {
    var m, n: nat := x as nat, y as nat;
    assert m < 256 && n < 256 && m == n;
    assert x == m as bv8 == n as bv8 == y;
  }

  // ---- incrementIP

  /** Adds one to the last byte and carries to the left while a byte wraps to zero. */
  function Increment(ip: IP): (r: IP)
    ensures |r| == |ip|
  {
    if |ip| == 0 then []
    else
      var init, last := ip[..|ip| - 1], ip[|ip| - 1] + 1;
      if last > 0 then init + [last] else Increment(init) + [last]
  }

  lemma {:induction false} IncrementIsPlusOne(ip: IP)
    ensures Number(Increment(ip)) == (Number(ip) + 1) % Pow256(|ip|)
  {
    if |ip| > 0 {
      var n := |ip| - 1;
      IncrementIsPlusOne(ip[..n]);
      NumberBound(ip[..n]);
      IncrementLast(ip[..n], ip[n]);
      assert ip == ip[..n] + [ip[n]];
      PlusOneWraps(Number(ip[..n]), ip[n] as nat, Pow256(n));
    }
  }

  lemma IncrementLast(init: IP, last: bv8)
    ensures Number(init + [last]) == 256 * Number(init) + last as nat
    ensures Number(Increment(init + [last]))
            == if last == 255 then 256 * Number(Increment(init)) else 256 * Number(init) + last as nat + 1
  {
    var ip := init + [last];
    assert ip[..|init|] == init;
    var r := Increment(ip);
    if last == 255 {
      assert r == Increment(init) + [0];
      assert r[..|init|] == Increment(init);
    } else {
      assert (last + 1) as nat == last as nat + 1;
      assert r == init + [last + 1];
      assert r[..|init|] == init;
    }
  }

  lemma PlusOneWraps(init: nat, last: nat, p: nat)
    requires init < p && last < 256
    ensures (256 * init + last + 1) % (256 * p)
            == if last == 255 then 256 * ((init + 1) % p) else 256 * init + last + 1
  {
    if last == 255 && init + 1 == p {
      ModSelf(p);
      ModSelf(256 * p);
    } else {
      ModSmall(256 * init + last + 1, 256 * p);
      if last == 255 { ModSmall(init + 1, p); }
    }
  }

  lemma ModSmall(x: nat, m: nat)
    requires x < m
    ensures x % m == x
  {
  }

  lemma ModSelf(m: nat)
    requires m > 0
    ensures m % m == 0
  {
  }

  method IncrementIP(ip: IP) returns (result: IP)
    ensures result == Increment(ip)
  {
    var a := new bv8[|ip|](i requires 0 <= i < |ip| => ip[i]);
    var i := |ip| - 1;
    assert ip[..|ip|] == ip && Increment(ip) + [] == Increment(ip);
    while i >= 0
      invariant -1 <= i < |ip|
      invariant a[..i + 1] == ip[..i + 1]
      invariant Increment(ip) == Increment(ip[..i + 1]) + a[i + 1..]
    {
      ghost var tail := a[i + 1..];
      a[i] := a[i] + 1;
      assert a[i..] == [a[i]] + tail;
      assert ip[..i + 1][..i] == ip[..i];
      if a[i] > 0 {
        assert a[..] == a[..i] + a[i..];
        break;
      }
      i := i - 1;
    }
    result := a[..];
  }

  // ---- net.IPNet.Contains

  /** A byte with its `n` high bits set. */
  function MaskByte(n: nat): bv8
    requires n <= 8
  {
    match n
    case 0 => 0x00 case 1 => 0x80 case 2 => 0xC0 case 3 => 0xE0 case 4 => 0xF0
    case 5 => 0xF8 case 6 => 0xFC case 7 => 0xFE case _ => 0xFF
  }

  function OnesInByte(ones: nat, i: nat): (n: nat)
    ensures n <= 8
  {
    if ones >= 8 * i + 8 then 8 else if ones <= 8 * i then 0 else ones - 8 * i
  }

  /** net.CIDRMask(ones, 32) */
  function CIDRMask(ones: nat): (m: IP)
    requires ones <= 32
    ensures |m| == 4
  {
    seq(4, i requires 0 <= i < 4 => MaskByte(OnesInByte(ones, i)))
  }

  function Masked(ip: IP, mask: IP): (r: IP)
    requires |ip| == |mask|
    ensures |r| == |ip|
  {
    seq(|ip|, i requires 0 <= i < |ip| => ip[i] & mask[i])
  }

  predicate Contains(network: IP, mask: IP, ip: IP)
    requires |network| == |mask| == |ip|
  {
    forall i :: 0 <= i < |ip| ==> network[i] & mask[i] == ip[i] & mask[i]
  }

  /** How many values of a byte agree on its `n` high bits. */
  function Block(n: nat): (r: nat)
    requires n <= 8
    ensures r > 0
  {
    match n
    case 0 => 256 case 1 => 128 case 2 => 64 case 3 => 32 case 4 => 16
    case 5 => 8 case 6 => 4 case 7 => 2 case _ => 1
  }

  lemma Mask1(b: bv8, n: nat)
    requires n == 1
    ensures (b & MaskByte(n)) as nat == b as nat / Block(n) * Block(n)
  {
    assert MaskByte(1) == 0x80 && b & 0x80 == b / 128 * 128;
  }

  lemma Mask2(b: bv8, n: nat)
    requires n == 2
    ensures (b & MaskByte(n)) as nat == b as nat / Block(n) * Block(n)
  {
    assert MaskByte(2) == 0xC0 && b & 0xC0 == b / 64 * 64;
  }

  lemma Mask3(b: bv8, n: nat)
    requires n == 3
    ensures (b & MaskByte(n)) as nat == b as nat / Block(n) * Block(n)
  {
    assert MaskByte(3) == 0xE0 && b & 0xE0 == b / 32 * 32;
  }

  lemma Mask4(b: bv8, n: nat)
    requires n == 4
    ensures (b & MaskByte(n)) as nat == b as nat / Block(n) * Block(n)
  {
    assert MaskByte(4) == 0xF0 && b & 0xF0 == b / 16 * 16;
  }

  lemma Mask5(b: bv8, n: nat)
    requires n == 5
    ensures (b & MaskByte(n)) as nat == b as nat / Block(n) * Block(n)
  {
    assert MaskByte(5) == 0xF8 && b & 0xF8 == b / 8 * 8;
  }

  lemma Mask6(b: bv8, n: nat)
    requires n == 6
    ensures (b & MaskByte(n)) as nat == b as nat / Block(n) * Block(n)
  {
    assert MaskByte(6) == 0xFC && b & 0xFC == b / 4 * 4;
  }

  lemma Mask7(b: bv8, n: nat)
    requires n == 7
    ensures (b & MaskByte(n)) as nat == b as nat / Block(n) * Block(n)
  {
    assert MaskByte(7) == 0xFE && b & 0xFE == b / 2 * 2;
  }

  lemma MaskEnds(b: bv8, n: nat)
    requires n == 0 || n == 8
    ensures (b & MaskByte(n)) as nat == b as nat / Block(n) * Block(n)
  {
    assert MaskByte(0) == 0 && MaskByte(8) == 0xFF;
  }

  /** Masking a byte rounds it down to a multiple of the block size. */
  lemma MaskByteRoundsDown(b: bv8, n: nat)
    requires n <= 8
    ensures (b & MaskByte(n)) as nat == b as nat / Block(n) * Block(n)
  {
    match n
    case 0 => MaskEnds(b, n);
    case 1 => Mask1(b, n);
    case 2 => Mask2(b, n);
    case 3 => Mask3(b, n);
    case 4 => Mask4(b, n);
    case 5 => Mask5(b, n);
    case 6 => Mask6(b, n);
    case 7 => Mask7(b, n);
    case _ => MaskEnds(b, n);
  }

  lemma FourBytes(ip: IP)
    requires |ip| == 4
    ensures Number(ip) == 0x100_0000 * ip[0] as nat + 0x1_0000 * ip[1] as nat + 0x100 * ip[2] as nat + ip[3] as nat
    ensures Pow256(4) == 0x1_0000_0000
  {
    assert Number(ip[..1]) == ip[0] as nat by { assert ip[..1][..0] == []; }
    assert ip[..2][..1] == ip[..1] && ip[..3][..2] == ip[..2];
    assert Number(ip[..2]) == 256 * Number(ip[..1]) + ip[1] as nat;
    assert Number(ip[..3]) == 256 * Number(ip[..2]) + ip[2] as nat;
    assert Pow256(2) == 0x1_0000;
  }

  /**
    A number cut into a prefix, a byte and a tail below `u`: dropping the tail and rounding the byte
    down to a multiple of `k` rounds the whole down to a multiple of `k * u`.
   */
  lemma RoundDown(prefix: nat, b: nat, k: nat, c: nat, u: nat, tail: nat)
    requires k > 0 && u > 0 && k * c == 256 && tail < u
    ensures k * u > 0
    ensures (prefix * 256 * u + b * u + tail) / (k * u) * (k * u) == prefix * 256 * u + b / k * k * u
  {
    var q, r := b / k, b % k;
    var d := prefix * c + q;
    PositiveProduct(k, u);
    assert b == q * k + r;
    Regroup(prefix, q, k, c, u);
    Distribute(q * k, r, u);
    RemainderBound(r, k, u, tail);
    QuotientUnique(prefix * 256 * u + b * u + tail, k * u, d, r * u + tail);
  }

  lemma PositiveProduct(k: nat, u: nat)
    requires k > 0 && u > 0
    ensures k * u > 0
  {
  }

  lemma Distribute(x: nat, y: nat, u: nat)
    ensures (x + y) * u == x * u + y * u
  {
  }

  lemma Regroup(prefix: nat, q: nat, k: nat, c: nat, u: nat)
    requires k * c == 256
    ensures (prefix * c + q) * (k * u) == prefix * 256 * u + q * k * u
  {
    calc {
      (prefix * c + q) * (k * u);
      { Distribute(prefix * c, q, k * u); }
      prefix * c * (k * u) + q * (k * u);
      { assert prefix * c * (k * u) == prefix * (k * c) * u; }
      prefix * 256 * u + q * k * u;
    }
  }

  lemma RemainderBound(r: nat, k: nat, u: nat, tail: nat)
    requires r < k && tail < u
    ensures r * u + tail < k * u
  {
    Distribute(r + 1, k - 1 - r, u);
    Distribute(r, 1, u);
  }

  /** The number of addresses of a network with `ones` prefix bits. */
  function NetworkSize(ones: nat): (size: nat)
    requires ones <= 32
    ensures size > 0
  {
    Pow2(32 - ones)
  }

  lemma SizeByByte(ones: nat)
    requires ones <= 32
    ensures var q := if ones >= 24 then 3 else ones / 8;
            NetworkSize(ones) == Block(OnesInByte(ones, q)) * Pow256(3 - q)
  {
    var q := if ones >= 24 then 3 else ones / 8;
    var n := OnesInByte(ones, q);
    assert ones == 8 * q + n;
    BlockIsPow2(n);
    Pow256IsPow2(3 - q);
    Pow2Sum(8 - n, 8 * (3 - q));
  }

  lemma BlockIsPow2(n: nat)
    requires n <= 8
    ensures Block(n) == Pow2(8 - n) && Block(n) * Pow2(n) == 256
  {
    assert Pow2(0) == 1 && Pow2(1) == 2;
    assert Pow2(2) == 4;
    assert Pow2(3) == 8;
    assert Pow2(4) == 16;
    assert Pow2(5) == 32;
    assert Pow2(6) == 64;
    assert Pow2(7) == 128;
    assert Pow2(8) == 256;
  }

  lemma {:induction false} Pow2Sum(a: nat, b: nat)
    ensures Pow2(a + b) == Pow2(a) * Pow2(b)
  {
    if a > 0 {
      Pow2Sum(a - 1, b);
    }
  }

  lemma {:induction false} Pow256IsPow2(n: nat)
    ensures Pow256(n) == Pow2(8 * n)
  {
    if n > 0 {
      Pow256IsPow2(n - 1);
      BlockIsPow2(0);
      Pow2Sum(8, 8 * (n - 1));
    }
  }

  lemma MaskedBytes(ip: IP, ones: nat)
    requires |ip| == 4 && ones <= 32
    ensures var m := Masked(ip, CIDRMask(ones));
            forall i :: 0 <= i < 4 ==>
              m[i] as nat == ip[i] as nat / Block(OnesInByte(ones, i)) * Block(OnesInByte(ones, i))
  {
    forall i | 0 <= i < 4 { MaskByteRoundsDown(ip[i], OnesInByte(ones, i)); }
  }

  /** Four bytes as one number, split before byte `q`. */
  lemma SplitAt(b: seq<nat>, q: nat)
    requires |b| == 4 && q < 4
    ensures FourByteNumber(b) == PrefixNumber(b, q) * 256 * Pow256(3 - q) + b[q] * Pow256(3 - q) + TailNumber(b, q)
    ensures (forall i :: 0 <= i < 4 ==> b[i] < 256) ==> TailNumber(b, q) < Pow256(3 - q)
  {
    assert Pow256(0) == 1 && Pow256(1) == 256 && Pow256(2) == 0x1_0000;
    assert Pow256(3) == 0x100_0000;
  }

  function FourByteNumber(b: seq<nat>): nat
    requires |b| == 4
  {
    0x100_0000 * b[0] + 0x1_0000 * b[1] + 0x100 * b[2] + b[3]
  }

  function PrefixNumber(b: seq<nat>, q: nat): nat
    requires |b| == 4 && q < 4
  {
    match q case 0 => 0 case 1 => b[0] case 2 => 0x100 * b[0] + b[1] case _ => 0x1_0000 * b[0] + 0x100 * b[1] + b[2]
  }

  function TailNumber(b: seq<nat>, q: nat): nat
    requires |b| == 4 && q < 4
  {
    match q case 0 => 0x1_0000 * b[1] + 0x100 * b[2] + b[3] case 1 => 0x100 * b[2] + b[3] case 2 => b[3] case _ => 0
  }

  function Bytes(ip: IP): (b: seq<nat>)
    requires |ip| == 4
    ensures |b| == 4 && forall i :: 0 <= i < 4 ==> b[i] == ip[i] as nat < 256
  {
    [ip[0] as nat, ip[1] as nat, ip[2] as nat, ip[3] as nat]
  }

  lemma RoundedBlocks(b: nat)
    requires b < 256
    ensures b / Block(8) * Block(8) == b && b / Block(0) * Block(0) == 0
  {
  }

  lemma MaskedPrefixAndTail(ip: IP, ones: nat)
    requires |ip| == 4 && ones <= 32
    ensures var q := if ones >= 24 then 3 else ones / 8;
            var m := Bytes(Masked(ip, CIDRMask(ones)));
            && PrefixNumber(m, q) == PrefixNumber(Bytes(ip), q) && TailNumber(m, q) == 0
            && m[q] == ip[q] as nat / Block(OnesInByte(ones, q)) * Block(OnesInByte(ones, q))
  {
    MaskedBytes(ip, ones);
    forall i | 0 <= i < 4 { RoundedBlocks(ip[i] as nat); }
    var q := if ones >= 24 then 3 else ones / 8;
    var m := Bytes(Masked(ip, CIDRMask(ones)));
    assert forall i :: 0 <= i < q ==> OnesInByte(ones, i) == 8 && m[i] == ip[i] as nat;
    assert forall i :: q < i < 4 ==> OnesInByte(ones, i) == 0 && m[i] == 0;
  }

  /** Masking rounds an address down to a multiple of the network size. */
  lemma MaskedNumber(ip: IP, ones: nat)
    requires |ip| == 4 && ones <= 32
    ensures Number(Masked(ip, CIDRMask(ones))) == Number(ip) / NetworkSize(ones) * NetworkSize(ones)
  {
    var m := Masked(ip, CIDRMask(ones));
    var q := if ones >= 24 then 3 else ones / 8;
    var n := OnesInByte(ones, q);
    FourBytes(ip);
    FourBytes(m);
    SplitAt(Bytes(ip), q);
    SplitAt(Bytes(m), q);
    MaskedPrefixAndTail(ip, ones);
    SizeByByte(ones);
    BlockIsPow2(n);
    RoundDown(PrefixNumber(Bytes(ip), q), ip[q] as nat, Block(n), Pow2(n), Pow256(3 - q), TailNumber(Bytes(ip), q));
  }

  lemma ContainsIffSameNetwork(network: IP, mask: IP, ip: IP)
    requires |network| == |mask| == |ip|
    ensures Contains(network, mask, ip) <==> Number(Masked(network, mask)) == Number(Masked(ip, mask))
  {
    var a, b := Masked(network, mask), Masked(ip, mask);
    if Number(a) == Number(b) {
      NumberInjective(a, b);
      forall i | 0 <= i < |ip| ensures network[i] & mask[i] == ip[i] & mask[i] { assert a[i] == b[i]; }
    }
    if Contains(network, mask, ip) { assert a == b; }
  }

  lemma SameBlock(x: nat, y: nat, size: nat)
    requires size > 0
    ensures y / size * size >= 0
    ensures x / size * size == y / size * size <==> y / size * size <= x < y / size * size + size
  {
    var d, q := x / size, y / size;
    assert x == d * size + x % size;
    if d == q {
    } else if d < q {
      MultipleAtLeast(q - d, size);
    } else {
      MultipleAtLeast(d - q, size);
    }
  }

  /** The network address of the network `ip/ones`, as net.ParseCIDR computes it. */
  function NetworkBase(ip: IP, ones: nat): nat
    requires |ip| == 4 && ones <= 32
  {
    Number(Masked(ip, CIDRMask(ones)))
  }

  /** Mask containment is an interval: from the network address, `NetworkSize` addresses. */
  lemma ContainsIsInterval(network: IP, ones: nat, ip: IP)
    requires |network| == |ip| == 4 && ones <= 32
    ensures var base := NetworkBase(network, ones);
            Contains(network, CIDRMask(ones), ip) <==> base <= Number(ip) < base + NetworkSize(ones)
  {
    ContainsIffSameNetwork(network, CIDRMask(ones), ip);
    MaskedNumber(network, ones);
    MaskedNumber(ip, ones);
    SameBlock(Number(ip), Number(network), NetworkSize(ones));
  }

  lemma NetworkFits(ip: IP, ones: nat)
    requires |ip| == 4 && 1 <= ones <= 32
    ensures NetworkBase(ip, ones) + NetworkSize(ones) <= 0x1_0000_0000
    ensures NetworkSize(ones) < 0x1_0000_0000
    ensures NetworkBase(Masked(ip, CIDRMask(ones)), ones) == NetworkBase(ip, ones)
  {
    hide Number, Masked, CIDRMask, Pow256;
    assert Pow2(ones) >= 2;
    hide Pow2;
    var size := NetworkSize(ones);
    Pow2Sum(32 - ones, ones);
    Pow256IsPow2(4);
    FourBytes(ip);
    NumberBound(ip);
    MaskedNumber(ip, ones);
    BlockFits(Number(ip), size, Pow2(ones));
    Product(Pow2(ones), 2, size);
    MaskedNumber(Masked(ip, CIDRMask(ones)), ones);
    SameBlock(NetworkBase(ip, ones), Number(ip), size);
  }

  lemma BlockFits(x: nat, size: nat, blocks: nat)
    requires size > 0 && x < size * blocks
    ensures x / size * size + size <= size * blocks
  {
    var q := x / size;
    if q >= blocks { Product(q, blocks, size); }
    Product(blocks, q + 1, size);
  }

  lemma Product(a: nat, b: nat, k: nat)
    requires a >= b
    ensures a * k >= b * k
  {
    assert a * k == b * k + (a - b) * k;
  }

  /** Where the scan stands after `j` increments of the network address. */
  lemma ScanPosition(base: nat, size: nat, j: nat, v: nat)
    requires 1 <= j <= size < 0x1_0000_0000 && base + size <= 0x1_0000_0000
    requires v == (base + j) % 0x1_0000_0000
    ensures base <= v < base + size <==> j < size
    ensures j < size ==> v == base + j
  {
  }

  // ---- AllocateIP

  /** net.IP.String for four bytes. */
  function FormatIP(ip: IP): string
    requires |ip| == 4
  {
    NumberBound(ip);
    FourBytes(ip);
    Dotted(Number(ip))
  }

  /** An address of the network that is neither the network address nor the broadcast address. */
  predicate IsHost(ip: IP, ones: nat, v: address)
    requires |ip| == 4 && ones <= 32
  {
    NetworkBase(ip, ones) < v < NetworkBase(ip, ones) + NetworkSize(ones) - 1
  }

  /** The text of the smallest host address whose text is not in use. */
  ghost predicate IsSmallestFree(ip: IP, ones: nat, used: set<string>, text: string)
    requires |ip| == 4 && ones <= 32
  {
    text !in used &&
    exists v: address :: IsHost(ip, ones, v) && text == Dotted(v)
      && forall u: address :: IsHost(ip, ones, u) && u < v ==> Dotted(u) in used
  }

  /** The scan has gone `j` addresses past the network address, modulo 2^32. */
  ghost predicate Scanned(ip: IP, ones: nat, j: nat, current: IP)
    requires |ip| == 4 && ones <= 32
  {
    |current| == 4 && 1 <= j <= NetworkSize(ones)
    && Number(current) == (NetworkBase(ip, ones) + j) % 0x1_0000_0000
  }

  lemma ScanStarts(ip: IP, ones: nat)
    requires |ip| == 4 && 1 <= ones <= 32
    ensures Scanned(ip, ones, 1, Increment(Masked(ip, CIDRMask(ones)))) && |Masked(ip, CIDRMask(ones))| == 4
    ensures 1 <= NetworkSize(ones)
  {
    var network := Masked(ip, CIDRMask(ones));
    FourBytes(network);
    IncrementIsPlusOne(network);
  }

  lemma ScanAdvances(ip: IP, ones: nat, j: nat, current: IP)
    requires |ip| == 4 && 1 <= ones <= 32 && Scanned(ip, ones, j, current) && j < NetworkSize(ones)
    ensures Scanned(ip, ones, j + 1, Increment(current))
  {
    FourBytes(current);
    IncrementIsPlusOne(current);
    ModStep(NetworkBase(ip, ones) + j);
  }

  lemma ModStep(x: nat)
    ensures (x % 0x1_0000_0000 + 1) % 0x1_0000_0000 == (x + 1) % 0x1_0000_0000
  {
  }

  /** The scan's guard holds exactly before the last address, and until then the numbers do not wrap. */
  lemma ScanGuard(ip: IP, ones: nat, j: nat, current: IP)
    requires |ip| == 4 && 1 <= ones <= 32 && Scanned(ip, ones, j, current)
    ensures Contains(Masked(ip, CIDRMask(ones)), CIDRMask(ones), current) <==> j < NetworkSize(ones)
    ensures j < NetworkSize(ones) ==>
      NetworkBase(ip, ones) + j < 0x1_0000_0000
      && FormatIP(current) == Dotted(NetworkBase(ip, ones) + j) && current != Masked(ip, CIDRMask(ones))
  {
    var network := Masked(ip, CIDRMask(ones));
    NetworkFits(ip, ones);
    ContainsIsInterval(network, ones, current);
    ScanPosition(NetworkBase(ip, ones), NetworkSize(ones), j, Number(current));
    FormatsAs(current, Number(current));
  }

  lemma FormatsAs(ip: IP, v: nat)
    requires |ip| == 4 && Number(ip) == v
    ensures v < 0x1_0000_0000 && FormatIP(ip) == Dotted(v)
  {
    NumberBound(ip);
    FourBytes(ip);
  }

  ghost predicate UsedBetween(lo: nat, hi: nat, used: set<string>) {
    forall u: address :: lo < u < hi ==> Dotted(u) in used
  }

  ghost predicate AllHostsUsed(ip: IP, ones: nat, used: set<string>)
    requires |ip| == 4 && ones <= 32
  {
    forall u: address :: IsHost(ip, ones, u) ==> Dotted(u) in used
  }

  lemma NoneBetween(lo: nat, hi: nat, used: set<string>)
    requires hi <= lo + 1
    ensures UsedBetween(lo, hi, used)
  {
  }

  lemma AllTried(ip: IP, ones: nat, used: set<string>)
    requires |ip| == 4 && ones <= 32
    requires UsedBetween(NetworkBase(ip, ones), NetworkBase(ip, ones) + NetworkSize(ones) - 1, used)
    ensures AllHostsUsed(ip, ones, used)
  {
  }

  lemma UsedFurther(lo: nat, v: address, used: set<string>)
    requires UsedBetween(lo, v, used) && Dotted(v) in used
    ensures UsedBetween(lo, v + 1, used)
  {
  }

  lemma FoundSmallest(ip: IP, ones: nat, used: set<string>, j: nat)
    requires |ip| == 4 && 1 <= ones <= 32 && 1 <= j < NetworkSize(ones) - 1
    requires NetworkBase(ip, ones) + j < 0x1_0000_0000
    requires UsedBetween(NetworkBase(ip, ones), NetworkBase(ip, ones) + j, used)
    requires Dotted(NetworkBase(ip, ones) + j) !in used
    ensures IsSmallestFree(ip, ones, used, Dotted(NetworkBase(ip, ones) + j))
  {
    var v: address := NetworkBase(ip, ones) + j;
    assert IsHost(ip, ones, v);
  }

  /** Fails only when every host address is in use. */
  method AllocateIP(ip: IP, ones: nat, used: set<string>) returns (r: Option<string>)
    requires |ip| == 4 && 1 <= ones <= 32
    ensures r.Some? ==> IsSmallestFree(ip, ones, used, r.value)
    ensures r.None? ==> AllHostsUsed(ip, ones, used)
  {
    hide Contains, CIDRMask, Masked, Increment, FormatIP, Dotted, NetworkSize, NetworkBase, IsSmallestFree, Scanned,
      UsedBetween, AllHostsUsed;
    var mask := CIDRMask(ones);
    var network := Masked(ip, mask);
    ghost var base, size := NetworkBase(ip, ones), NetworkSize(ones);
    var current := IncrementIP(network);
    ghost var j, hi := 1, if size > 1 then base + 1 else base;
    ScanStarts(ip, ones);
    NoneBetween(base, hi, used);
    while Contains(network, mask, current)
      invariant Scanned(ip, ones, j, current)
      invariant |current| == 4 && 1 <= j <= size
      invariant hi == if j < size then base + j else base + size - 1
      invariant UsedBetween(base, hi, used)
      decreases size - j
    {
      ScanGuard(ip, ones, j, current);
      ScanAdvances(ip, ones, j, current);
      var next := IncrementIP(current);
      ScanGuard(ip, ones, j + 1, next);
      if current != network && Contains(network, mask, next) {
        var text := FormatIP(current);
        if text !in used {
          FoundSmallest(ip, ones, used, j);
          return Some(text);
        }
        UsedFurther(base, hi, used);
        hi := hi + 1;
      }
      current := IncrementIP(current);
      j := j + 1;
    }
    ScanGuard(ip, ones, j, current);
    AllTried(ip, ones, used);
    return None;
  }

  /** An allocated address is one that parses, and there is one only while not all are in use. */
  lemma SmallestFreeExists(ip: IP, ones: nat, used: set<string>, text: string)
    requires |ip| == 4 && 1 <= ones <= 32 && IsSmallestFree(ip, ones, used, text)
    ensures !AllHostsUsed(ip, ones, used) && ParseIPv4(text).Some?
  {
    hide IsHost, Dotted, ParseIPv4;
    var v: address :| IsHost(ip, ones, v) && text == Dotted(v)
      && forall u: address :: IsHost(ip, ones, u) && u < v ==> Dotted(u) in used;
    ParseDotted(v);
  }

  /** The host addresses: those with the network's leading bits whose other bits are neither all zero nor all one. */
  lemma HostIff(ip: IP, ones: nat, v: address)
    requires |ip| == 4 && 1 <= ones <= 32
    ensures var size := Pow2(32 - ones);
            IsHost(ip, ones, v) <==> v / size == Number(ip) / size && v % size != 0 && v % size != size - 1
  {
    hide Masked, CIDRMask;
    MaskedNumber(ip, ones);
    HostPosition(Number(ip), v, NetworkSize(ones));
  }

  lemma HostPosition(x: nat, v: nat, size: nat)
    requires size > 0
    ensures x / size * size < v < x / size * size + size - 1
            <==> v / size == x / size && v % size != 0 && v % size != size - 1
  {
    var base, q, r := x / size * size, v / size, v % size;
    assert v == q * size + r;
    SameBlock(v, x, size);
    if v / size == x / size { assert q * size == base; }
    if base <= v < base + size { QuotientUnique(v, size, x / size, v - base); }
  }

  /** A used text blocks only the address it prints, so a host whose number is unused is never skipped. */
  lemma AllocatedIsMinimum(ip: IP, ones: nat, taken: set<address>, text: string, v: address)
    requires |ip| == 4 && 1 <= ones <= 32
    requires IsSmallestFree(ip, ones, set a | a in taken :: Dotted(a), text) && text == Dotted(v)
    ensures IsHost(ip, ones, v) && v !in taken
    ensures forall u: address :: IsHost(ip, ones, u) && u !in taken ==> v <= u
  {
    var used := set a | a in taken :: Dotted(a);
    var w: address :| IsHost(ip, ones, w) && text == Dotted(w)
      && forall u: address :: IsHost(ip, ones, u) && u < w ==> Dotted(u) in used;
    DottedInjective(v, w);
    forall u: address | IsHost(ip, ones, u) && u !in taken
      ensures v <= u
    {
      if u < v {
        var a :| a in taken && Dotted(a) == Dotted(u);
        DottedInjective(a, u);
        assert false;
      }
    }
  }
}
