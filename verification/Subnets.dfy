/** 32-bit mask arithmetic and the enumeration of a subnet's host addresses. */
module Subnets {
  import opened Addresses
  import opened Arithmetic

  function Pow2(n: nat): (p: nat)
    ensures 1 <= p
  {
    if n == 0 then 1 else 2 * Pow2(n - 1)
  }

  /** Bitwise conjunction, bit by bit from the lowest. */
  function And(x: nat, y: nat): (r: nat)
    ensures r <= x
  {
    if x == 0 then 0 else (if x % 2 == 1 && y % 2 == 1 then 1 else 0) + 2 * And(x / 2, y / 2)
  }

  /** Bitwise complement of a 32-bit word. */
  function Not(x: Ipv4): Ipv4
  {
    0xffff_ffff - x
  }

  type Prefix = p: int | 1 <= p <= 32 witness 24

  lemma {:induction false} Pow2Sum(a: nat, b: nat)
    ensures Pow2(a + b) == Pow2(a) * Pow2(b)
  {
    if a != 0 {
      Pow2Sum(a - 1, b);
      assert Pow2(a + b) == 2 * Pow2(a - 1 + b);
      assert 2 * (Pow2(a - 1) * Pow2(b)) == (2 * Pow2(a - 1)) * Pow2(b);
    }
  }

  lemma {:induction false} Pow2Monotone(a: nat, b: nat)
    requires a <= b
    ensures Pow2(a) <= Pow2(b)
    decreases b - a
  {
    if a < b {
      Pow2Monotone(a + 1, b);
    }
  }

  lemma Pow2At32()
    ensures Pow2(8) == 0x100 && Pow2(16) == 0x1_0000 && Pow2(31) == 0x8000_0000 && Pow2(32) == 0x1_0000_0000
  {
    assert Pow2(8) == 0x100;
    Pow2Sum(8, 8);
    Pow2Sum(16, 16);
  }

  /** Addresses in a block of this prefix length: `1 << (32 - prefix)`. */
  function BlockSize(prefix: Prefix): (size: Ipv4)
    ensures size == Pow2(32 - prefix) && 1 <= size
  {
    Pow2At32();
    Pow2Monotone(32 - prefix, 31);
    Pow2(32 - prefix)
  }

  function Mask(prefix: Prefix): Ipv4
  {
    Not(BlockSize(prefix) - 1)
  }

  function NetworkBase(ip: Ipv4, prefix: Prefix): Ipv4
  {
    And(ip, Mask(prefix))
  }

  predicate InSubnet(ip: Ipv4, base: Ipv4, prefix: Prefix)
  {
    And(ip, Mask(prefix)) == And(base, Mask(prefix))
  }

  function PopCount(x: nat): nat
  {
    if x == 0 then 0 else x % 2 + PopCount(x / 2)
  }

  function MaskToPrefix(mask: Ipv4): nat
  {
    PopCount(mask)
  }

  // ----- What masking means -----

  /** `x` lies in the `q`-th aligned block of `size` addresses. */
  ghost predicate InBlock(x: nat, size: nat, q: nat)
  {
    q * size <= x < q * size + size
  }

  lemma BlockUnique(x: nat, size: nat, a: nat, b: nat)
    requires InBlock(x, size, a) && InBlock(x, size, b)
    ensures a == b
  {
    if a < b {
      MulMonotone(a + 1, b, size);
    } else if b < a {
      MulMonotone(b + 1, a, size);
    }
  }

  /** Halving an address and its block keeps the block's index. */
  lemma DoubleBlock(x: nat, size: nat, q: nat)
    requires InBlock(x / 2, size, q)
    ensures InBlock(x, 2 * size, q) && q * (2 * size) == 2 * (q * size)
  {
    var start := q * size;
    assert q * (2 * size) == 2 * start;
  }

  lemma BlockEndsBelow(x: nat, size: nat, q: nat, blocks: nat)
    requires InBlock(x, size, q) && x < blocks * size
    ensures q * size + size <= blocks * size
  {
    if blocks <= q {
      MulMonotone(blocks, q, size);
    }
    MulMonotone(q + 1, blocks, size);
  }

  /** A small block that meets an aligned block made of `k` small ones starts inside it. */
  lemma BlockNested(x: nat, small: nat, k: nat, p: nat, q: nat)
    requires InBlock(x, small, p) && InBlock(x, k * small, q)
    ensures InBlock(p * small, k * small, q)
  {
    var first := q * k;
    assert q * (k * small) == first * small;
    if p < first {
      MulMonotone(p + 1, first, small);
    }
    MulMonotone(first, p, small);
  }

  lemma {:induction false} AndOnes(x: nat, n: nat)
    requires x < Pow2(n)
    ensures And(x, Pow2(n) - 1) == x
  {
    if n != 0 && x != 0 {
      assert (Pow2(n) - 1) / 2 == Pow2(n - 1) - 1 && (Pow2(n) - 1) % 2 == 1;
      AndOnes(x / 2, n - 1);
    }
  }

  /** Conjunction with `n - s` ones followed by `s` zeros clears the low `s` bits. */
  lemma {:induction false} AndHighOnes(x: nat, n: nat, s: nat) returns (q: nat)
    requires s <= n && x < Pow2(n)
    ensures Pow2(s) <= Pow2(n) && And(x, Pow2(n) - Pow2(s)) == q * Pow2(s) && InBlock(x, Pow2(s), q)
  {
    Pow2Monotone(s, n);
    if s == 0 {
      AndOnes(x, n);
      q := x;
    } else if x == 0 {
      q := 0;
    } else {
      q := AndHighOnes(x / 2, n - 1, s - 1);
      assert (Pow2(n) - Pow2(s)) / 2 == Pow2(n - 1) - Pow2(s - 1) && (Pow2(n) - Pow2(s)) % 2 == 0;
      DoubleBlock(x, Pow2(s - 1), q);
    }
  }

  /** The network base is the start of the address's aligned block. */
  lemma BaseOfBlock(ip: Ipv4, prefix: Prefix) returns (q: nat)
    ensures NetworkBase(ip, prefix) == q * BlockSize(prefix) && InBlock(ip, BlockSize(prefix), q)
  {
    hide Pow2, And;
    Pow2At32();
    q := AndHighOnes(ip, 32, 32 - prefix);
  }

  /** A block starting at a network base never runs past the last address. */
  lemma BlockFits(ip: Ipv4, prefix: Prefix)
    ensures NetworkBase(ip, prefix) + BlockSize(prefix) <= 0x1_0000_0000
  {
    var q := BaseOfBlock(ip, prefix);
    Pow2At32();
    Pow2Sum(prefix, 32 - prefix);
    BlockEndsBelow(ip, BlockSize(prefix), q, Pow2(prefix));
  }

  /** A network base is its address rounded down to a multiple of the block size, which is 2^(32 - prefix). */
  lemma NetworkBaseRounds(ip: Ipv4, prefix: Prefix)
    ensures BlockSize(prefix) * Pow2(prefix) == 0x1_0000_0000
    ensures NetworkBase(ip, prefix) == ip - ip % BlockSize(prefix)
  {
    hide NetworkBase;
    var size := BlockSize(prefix);
    var q := BaseOfBlock(ip, prefix);
    Pow2At32();
    Pow2Sum(32 - prefix, prefix);
    RemainderIs(ip, size, q, ip - q * size);
  }

  /** Two addresses share a subnet exactly when they lie in the same aligned block. */
  lemma InSubnetMeaning(ip: Ipv4, base: Ipv4, prefix: Prefix)
    ensures InSubnet(ip, base, prefix)
            <==> NetworkBase(base, prefix) <= ip < NetworkBase(base, prefix) + BlockSize(prefix)
  {
    var p := BaseOfBlock(ip, prefix);
    var q := BaseOfBlock(base, prefix);
    if InBlock(ip, BlockSize(prefix), q) {
      BlockUnique(ip, BlockSize(prefix), p, q);
    }
  }

  /** Masking with a shorter prefix afterwards is masking with it at once; with the same prefix it is a no-op. */
  lemma NetworkBaseNests(ip: Ipv4, long: Prefix, short: Prefix)
    requires short <= long
    ensures NetworkBase(NetworkBase(ip, long), short) == NetworkBase(ip, short)
  {
    var p := BaseOfBlock(ip, long);
    var q := BaseOfBlock(ip, short);
    Pow2Sum(long - short, 32 - long);
    BlockNested(ip, BlockSize(long), Pow2(long - short), p, q);
    var r := BaseOfBlock(NetworkBase(ip, long), short);
    BlockUnique(NetworkBase(ip, long), BlockSize(short), q, r);
  }

  /** Membership in a subnet survives widening it. */
  lemma WideningKeepsMembers(ip: Ipv4, base: Ipv4, long: Prefix, short: Prefix)
    requires short <= long && InSubnet(ip, base, long)
    ensures InSubnet(ip, base, short)
  {
    NetworkBaseNests(ip, long, short);
    NetworkBaseNests(base, long, short);
  }

  /** Halving a run of ones over a run of zeros shortens one of the two. */
  lemma HighOnesHalved(n: nat, s: nat)
    requires s < n
    ensures var x := Pow2(n) - Pow2(s);
            && x > 0
            && (s == 0 ==> x % 2 == 1 && x / 2 == Pow2(n - 1) - Pow2(0))
            && (s > 0 ==> x % 2 == 0 && x / 2 == Pow2(n - 1) - Pow2(s - 1))
  {
    Pow2Monotone(s + 1, n);
  }

  lemma PopCountStep(x: nat)
    ensures PopCount(x) == if x == 0 then 0 else x % 2 + PopCount(x / 2)
  {
  }

  lemma {:induction false} PopCountHighOnes(n: nat, s: nat)
    requires s <= n
    ensures Pow2(s) <= Pow2(n) && PopCount(Pow2(n) - Pow2(s)) == n - s
    decreases n
  {
    hide Pow2, PopCount;
    Pow2Monotone(s, n);
    var x := Pow2(n) - Pow2(s);
    PopCountStep(x);
    if s < n {
      HighOnesHalved(n, s);
      PopCountHighOnes(n - 1, if s == 0 then 0 else s - 1);
    }
  }

  /** Reading a netmask back as a prefix length inverts building it. */
  lemma MaskRoundTrip(prefix: Prefix)
    ensures MaskToPrefix(Mask(prefix)) == prefix
  {
    MaskBits(prefix, 32);
  }

  lemma MaskBits(prefix: Prefix, width: nat)
    requires width == 32
    ensures PopCount(Mask(prefix)) == prefix
  {
    Pow2At32();
    PopCountHighOnes(width, width - prefix);
    assert Mask(prefix) == Pow2(width) - Pow2(width - prefix);
  }

  // ----- Enumerating hosts -----

  predicate IsHost(ip: Ipv4)
  {
    Octets(ip).3 != 0 && Octets(ip).3 != 255
  }

  /** The addresses among `base .. base + count` that pass the octet filter, in order. */
  function HostsFrom(base: Ipv4, count: nat): seq<Ipv4>
    requires base + count <= 0x1_0000_0000
  {
    if count == 0 then [] else HostsFrom(base, count - 1) + if IsHost(base + count - 1) then [base + count - 1] else []
  }

  function SubnetIter(subnet: Ipv4, prefix: Prefix): seq<Ipv4>
  {
    BlockFits(subnet, prefix);
    HostsFrom(NetworkBase(subnet, prefix), BlockSize(prefix))
  }

  function Without(ips: seq<Ipv4>, excluded: set<Ipv4>): seq<Ipv4>
  {
    if ips == [] then [] else
      Without(ips[..|ips| - 1], excluded) + if ips[|ips| - 1] in excluded then [] else [ips[|ips| - 1]]
  }

  ghost predicate Ascending(ips: seq<Ipv4>)
  {
    forall i, j :: 0 <= i < j < |ips| ==> ips[i] < ips[j]
  }

  lemma {:induction false} HostsFromExact(base: Ipv4, count: nat)
    requires base + count <= 0x1_0000_0000
    ensures Ascending(HostsFrom(base, count))
    ensures forall a: Ipv4 :: a in HostsFrom(base, count) <==> base <= a < base + count && IsHost(a)
  {
    hide IsHost;
    if count != 0 {
      HostsFromExact(base, count - 1);
      var front := HostsFrom(base, count - 1);
      assert forall i :: 0 <= i < |front| ==> front[i] in front;
    }
  }

  /** The scan list is exactly the subnet's addresses whose last octet is neither 0 nor 255, strictly ascending. */
  lemma SubnetIterExact(subnet: Ipv4, prefix: Prefix)
    ensures Ascending(SubnetIter(subnet, prefix))
    ensures forall a: Ipv4 :: a in SubnetIter(subnet, prefix)
              <==> InSubnet(a, subnet, prefix) && a % 0x100 != 0 && a % 0x100 != 255
  {
    BlockFits(subnet, prefix);
    HostsFromExact(NetworkBase(subnet, prefix), BlockSize(prefix));
    forall a: Ipv4
      ensures a in SubnetIter(subnet, prefix) <==> InSubnet(a, subnet, prefix) && a % 0x100 != 0 && a % 0x100 != 255
    {
      InSubnetMeaning(a, subnet, prefix);
    }
  }

  /** Host addresses below `n`: 254 in every full block of 256, and all but the first of the rest. */
  function HostsBelow(n: nat): int
  {
    254 * (n / 256) + if n % 256 == 0 then 0 else n % 256 - 1
  }

  lemma HostsBelowStep(ip: Ipv4)
    ensures HostsBelow(ip + 1) == HostsBelow(ip) + if IsHost(ip) then 1 else 0
  {
    var q, r := ip / 256, ip % 256;
    assert Octets(ip).3 == r;
    assert ip + 1 == 256 * q + (r + 1);
    if r == 255 {
      assert (ip + 1) / 256 == q + 1 && (ip + 1) % 256 == 0;
    } else {
      assert (ip + 1) / 256 == q && (ip + 1) % 256 == r + 1;
    }
  }

  lemma {:induction false} HostsCounted(base: Ipv4, count: nat)
    requires base + count <= 0x1_0000_0000
    ensures |HostsFrom(base, count)| == HostsBelow(base + count) - HostsBelow(base)
  {
    if count != 0 {
      HostsCounted(base, count - 1);
      HostsBelowStep(base + count - 1);
    }
  }

  /** Up to a /24 the list has 254 addresses for each of its 2^(24 - prefix) blocks of 256. */
  lemma SubnetIterCount(subnet: Ipv4, prefix: Prefix)
    requires prefix <= 24
    ensures |SubnetIter(subnet, prefix)| == 254 * Pow2(24 - prefix)
  {
    hide And, IsHost;
    var q := BaseOfBlock(subnet, prefix);
    BlockFits(subnet, prefix);
    HostsCounted(NetworkBase(subnet, prefix), BlockSize(prefix));
    BlockOf256(prefix);
    WholeBlocks(q, Pow2(24 - prefix), BlockSize(prefix));
  }

  lemma BlockOf256(prefix: Prefix)
    requires prefix <= 24
    ensures BlockSize(prefix) == Pow2(24 - prefix) * 256
  {
    Pow2Sum(24 - prefix, 8);
    Pow2At32();
  }

  lemma WholeBlocks(q: nat, blocks: nat, size: nat)
    requires size == blocks * 256
    ensures HostsBelow(q * size + size) - HostsBelow(q * size) == 254 * blocks
  {
    var whole := q * blocks;
    assert q * (blocks * 256) == 256 * whole;
    HostsBelowBlocks(whole);
    HostsBelowBlocks(whole + blocks);
  }

  lemma HostsBelowBlocks(blocks: nat)
    ensures HostsBelow(256 * blocks) == 254 * blocks
  {
  }

  lemma {:induction false} WithoutExact(ips: seq<Ipv4>, excluded: set<Ipv4>)
    ensures forall a :: a in Without(ips, excluded) <==> a in ips && a !in excluded
    ensures Ascending(ips) ==> Ascending(Without(ips, excluded))
  {
    if ips != [] {
      var front, last := ips[..|ips| - 1], ips[|ips| - 1];
      WithoutExact(front, excluded);
      assert ips == front + [last];
      var kept := Without(front, excluded);
      assert forall i :: 0 <= i < |kept| ==> kept[i] in kept;
    }
  }

  /** The active sweep's own single pass over a block: host octets, not known, not this machine. */
  function ProbesFrom(base: Ipv4, count: nat, known: set<Ipv4>, source: Ipv4): seq<Ipv4>
    requires base + count <= 0x1_0000_0000
  {
    if count == 0 then [] else
      var ip := base + count - 1;
      ProbesFrom(base, count - 1, known, source) + if IsHost(ip) && ip !in known && ip != source then [ip] else []
  }

  function SweepTargets(subnet: Ipv4, prefix: Prefix, known: set<Ipv4>, source: Ipv4): seq<Ipv4>
  {
    BlockFits(subnet, prefix);
    ProbesFrom(NetworkBase(subnet, prefix), BlockSize(prefix), known, source)
  }

  lemma {:induction false} ProbesFilterHosts(base: Ipv4, count: nat, known: set<Ipv4>, source: Ipv4)
    requires base + count <= 0x1_0000_0000
    ensures ProbesFrom(base, count, known, source) == Without(HostsFrom(base, count), known + {source})
  {
    hide IsHost;
    if count != 0 {
      ProbesFilterHosts(base, count - 1, known, source);
      WithoutLast(HostsFrom(base, count - 1), base + count - 1, known + {source});
      assert HostsFrom(base, count - 1) + [] == HostsFrom(base, count - 1);
    }
  }

  lemma WithoutLast(ips: seq<Ipv4>, ip: Ipv4, excluded: set<Ipv4>)
    ensures Without(ips + [ip], excluded) == Without(ips, excluded) + if ip in excluded then [] else [ip]
  {
    assert (ips + [ip])[..|ips|] == ips;
  }

  /** The sweep's list is the scan's list without the known addresses and this machine, in the same order. */
  lemma SweepTargetsFilterScan(subnet: Ipv4, prefix: Prefix, known: set<Ipv4>, source: Ipv4)
    ensures SweepTargets(subnet, prefix, known, source) == Without(SubnetIter(subnet, prefix), known + {source})
  {
    BlockFits(subnet, prefix);
    ProbesFilterHosts(NetworkBase(subnet, prefix), BlockSize(prefix), known, source);
  }

  /** The active sweep probes exactly the subnet's hosts that are not known and not this machine, each once. */
  lemma SweepTargetsExact(subnet: Ipv4, prefix: Prefix, known: set<Ipv4>, source: Ipv4)
    ensures Ascending(SweepTargets(subnet, prefix, known, source))
    ensures forall a: Ipv4 :: a in SweepTargets(subnet, prefix, known, source)
              <==> InSubnet(a, subnet, prefix) && a % 0x100 != 0 && a % 0x100 != 255 && a !in known && a != source
  {
    hide IsHost, InSubnet, SweepTargets, SubnetIter;
    SweepTargetsFilterScan(subnet, prefix, known, source);
    SubnetIterExact(subnet, prefix);
    WithoutExact(SubnetIter(subnet, prefix), known + {source});
  }
}
