/** IPv4 arithmetic on 32-bit values: prefixes as aligned blocks (section 3.1 of RFC 4632), and the
    expansion of a prefix into the addresses a scan visits. */
module Ipv4 {

  const ADDRESSES: nat := 0x1_0000_0000
  const UINT64: int := 0x1_0000_0000_0000_0000

  function Pow2(n: nat): (p: nat)
    ensures p > 0
  {
    if n == 0 then 1 else 2 * Pow2(n - 1)
  }

  lemma {:induction false} Pow2Adds(a: nat, b: nat)
    ensures Pow2(a) * Pow2(b) == Pow2(a + b)
  {
    if a > 0 {
      Pow2Adds(a - 1, b);
      assert Pow2(a) * Pow2(b) == 2 * (Pow2(a - 1) * Pow2(b));
    }
  }

  lemma {:induction false} Pow2Rises(a: nat, b: nat)
    requires a <= b
    ensures Pow2(a) <= Pow2(b)
  {
    if a < b { Pow2Rises(a, b - 1); }
  }

  lemma Pow2Values()
    ensures Pow2(2) == 4 && Pow2(8) == 0x100 && Pow2(16) == 0x1_0000 && Pow2(24) == 0x100_0000 && Pow2(32) == ADDRESSES
  {
    assert Pow2(8) == 0x100;
    Pow2Adds(8, 8);
    Pow2Adds(8, 16);
    Pow2Adds(16, 16);
  }

  lemma MulMonotone(a: int, b: int, c: nat)
    requires a <= b
    ensures a * c <= b * c
  {
  }

  /** Rounding down to a multiple of `size`, and what makes it the only such multiple. */
  function Floor(a: nat, size: nat): (r: nat)
    requires size > 0
    ensures r <= a < r + size && r == (a / size) * size
  {
    Division(a, size);
    a - a % size
  }

  lemma Division(a: nat, size: nat)
    requires size > 0
    ensures a == (a / size) * size + a % size && 0 <= a % size < size && a % size <= a
  {
    var q := a / size;
    assert a == q * size + a % size;
    if q < 0 { MulMonotone(q, -1, size); }
    MulMonotone(0, q, size);
  }

  lemma QuotientUnique(a: nat, size: nat, q: int)
    requires size > 0 && q * size <= a < q * size + size
    ensures a / size == q
  {
    var p := a / size;
    Division(a, size);
    if p < q { MulMonotone(p + 1, q, size); }
    if q < p { MulMonotone(q + 1, p, size); }
  }

  /** The network address: the value with its host bits cleared. */
  function Network(addr: nat, hostBits: nat): nat {
    Floor(addr, Pow2(hostBits))
  }

  predicate InNetwork(a: nat, addr: nat, hostBits: nat) {
    Network(a, hostBits) == Network(addr, hostBits)
  }

  /** A block of 2^h addresses that starts on a multiple of 2^h does not run past the last address. */
  lemma AlignedFits(addr: nat, hostBits: nat)
    requires addr < ADDRESSES && hostBits <= 32
    ensures Network(addr, hostBits) + Pow2(hostBits) <= ADDRESSES
  {
    hide Pow2, Floor;
    Pow2Values();
    BlocksFill(hostBits);
    FloorFits(addr, Pow2(hostBits), Pow2(32 - hostBits));
  }

  lemma BlocksFill(hostBits: nat)
    requires hostBits <= 32
    ensures Pow2(hostBits) * Pow2(32 - hostBits) == Pow2(32)
  {
    hide Pow2;
    Pow2Adds(hostBits, 32 - hostBits);
    assert hostBits + (32 - hostBits) == 32;
  }

  lemma FloorFits(a: nat, size: nat, blocks: nat)
    requires size > 0 && a < size * blocks
    ensures Floor(a, size) + size <= size * blocks
  {
    var r := Floor(a, size);
    var q := a / size;
    assert r == q * size && r <= a;
    hide Floor;
    WholeBlocks(q, size, blocks);
  }

  lemma WholeBlocks(q: int, size: nat, blocks: nat)
    requires q * size < size * blocks
    ensures q * size + size <= size * blocks
  {
    if q >= blocks {
      MulMonotone(blocks, q, size);
      assert false;
    }
    MulMonotone(q + 1, blocks, size);
  }

  /** The block is exactly the addresses between its network address and that plus 2^h. */
  lemma NetworkIsBlock(a: nat, addr: nat, hostBits: nat)
    ensures InNetwork(a, addr, hostBits) <==>
            Network(addr, hostBits) <= a < Network(addr, hostBits) + Pow2(hostBits)
  {
    var size := Pow2(hostBits);
    var base := Floor(addr, size);
    if base <= a < base + size {
      QuotientUnique(a, size, addr / size);
    }
  }

  // ---- expansion ----

  /** What `net.ParseCIDR` and `To4` make of the text. */
  datatype Parsed = Unparsable | NotIPv4 | V4(addr: nat, ones: nat)

  datatype Result = Failed | Expanded(addresses: seq<nat>)

  predicate Valid(p: Parsed) {
    p.V4? ==> p.addr < ADDRESSES && p.ones <= 32
  }

  /** A conversion of a 64-bit signed count to unsigned. */
  function Unsigned(n: int): nat
    requires -UINT64 <= 2 * n < UINT64
  {
    if n < 0 then n + UINT64 else n
  }

  /** How many addresses of a block of 2^h hosts can have: all but two, except in the two smallest
      blocks (section 2.1 of RFC 3021). */
  function Usable(hostBits: nat): nat {
    if hostBits >= 2 then Pow2(hostBits) - 2 else Pow2(hostBits)
  }

  lemma UsableNonNegative(hostBits: nat)
    ensures hostBits >= 2 ==> Pow2(hostBits) >= 4
  {
    if hostBits >= 2 { Pow2Rises(2, hostBits); }
  }

  function Run(first: nat, count: nat): seq<nat> {
    seq(count, i requires 0 <= i < count => first + i)
  }

  function Min(a: nat, b: nat): nat {
    if a <= b then a else b
  }

  /** The first `limit` usable addresses in order. */
  function Expansion(addr: nat, hostBits: nat, limit: nat): seq<nat>
  {
    UsableNonNegative(hostBits);
    Run(Network(addr, hostBits) + (if hostBits >= 2 then 1 else 0), Min(limit, Usable(hostBits)))
  }

  /** Main: the loop, with its 32-bit addition and its unsigned cap, computes exactly the expansion. */
  method ExpandIPv4(cidr: Parsed, maxHosts: int) returns (r: Result)
    requires Valid(cidr) && -UINT64 <= 2 * maxHosts < UINT64
    ensures r == if cidr.V4? then Expanded(Expansion(cidr.addr, 32 - cidr.ones, Unsigned(maxHosts))) else Failed
  {
    hide Pow2, Floor, Network, Unsigned;
    if !cidr.V4? {
      return Failed;
    }
    var hostBits := 32 - cidr.ones;
    var total := Pow2(hostBits);
    var start := Network(cidr.addr, hostBits);
    var skipFirstLast := hostBits >= 2;
    AlignedFits(cidr.addr, hostBits);
    UsableNonNegative(hostBits);
    var out: seq<nat> := [];
    var i := 0;
    ghost var offset := if skipFirstLast then 1 else 0;
    while i < total && |out| < Unsigned(maxHosts)
      invariant 0 <= i <= total
      invariant |out| == if !skipFirstLast then i else if i == 0 then 0 else if i == total then total - 2 else i - 1
      invariant |out| <= Unsigned(maxHosts)
      invariant out == Run(start + offset, |out|)
      decreases total - i
    {
      if skipFirstLast && (i == 0 || i == total - 1) {
        i := i + 1;
        continue;
      }
      assert (start + i) % ADDRESSES == start + i;
      out := out + [(start + i) % ADDRESSES];
      i := i + 1;
    }
    assert |out| == Min(Unsigned(maxHosts), Usable(hostBits));
    r := Expanded(out);
  }

  /** Main: the expansion ascends, stays in the block, leaves out its network and broadcast addresses
      exactly when it has at least two host bits, and is cut only by the limit. */
  lemma ExpansionIsExact(addr: nat, hostBits: nat, limit: nat)
    requires addr < ADDRESSES && hostBits <= 32
    ensures var e := Expansion(addr, hostBits, limit);
            && |e| == Min(limit, Usable(hostBits))
            && (forall i, j | 0 <= i < j < |e| :: e[i] < e[j])
            && (forall a | a in e :: a < ADDRESSES && InNetwork(a, addr, hostBits))
            && (limit >= Usable(hostBits) ==> forall a ::
                  a in e <==> a >= 0 && InNetwork(a, addr, hostBits) && (hostBits >= 2 ==>
                    a != Network(addr, hostBits) && a != Network(addr, hostBits) + Pow2(hostBits) - 1))
  {
    UsableNonNegative(hostBits);
    AlignedFits(addr, hostBits);
    var e, base := Expansion(addr, hostBits, limit), Network(addr, hostBits);
    forall a | a in e ensures a < ADDRESSES && InNetwork(a, addr, hostBits) {
      NetworkIsBlock(a, addr, hostBits);
    }
    if limit >= Usable(hostBits) {
      forall a: nat ensures a in e <==> InNetwork(a, addr, hostBits) && (hostBits >= 2 ==>
        a != base && a != base + Pow2(hostBits) - 1) {
        NetworkIsBlock(a, addr, hostBits);
        var i := a - base - if hostBits >= 2 then 1 else 0;
        if 0 <= i < |e| { assert e[i] == a; }
      }
    }
  }

  /** A /31 expands to both its addresses and a /32 to its only one. */
  lemma PointToPoint(addr: nat, limit: nat)
    requires addr < ADDRESSES && limit >= 2
    ensures Expansion(addr, 0, limit) == [addr]
    ensures Expansion(addr, 1, limit) == [addr - addr % 2, addr - addr % 2 + 1]
  {
    assert Pow2(0) == 1 && Pow2(1) == 2;
  }
}
