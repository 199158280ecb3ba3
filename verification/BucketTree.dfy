/** The host graph's bucket tree: hosts of a big subnet are grouped by octet-aligned prefixes, and a bucket
    is opened only when it has been expanded. Addresses are 32-bit words; a text that is no IPv4
    address has none. Node keys are values instead of the strings that spell them. */
module BucketTree {
  import opened Options
  import opened Listings
  import opened Counting

  datatype Cidr = NullCidr | Cidr(net: bv32, prefix: nat)

  datatype Key = SubnetKey(id: nat) | BucketKey(subnet: nat, cidr: Cidr) | HostKey(id: nat)

  datatype Host = Host(id: nat, subnet: nat, addr: Option<bv32>)

  datatype Link = Link(a: Key, b: Key)

  datatype Node = Node(count: nat, expanded: bool)

  // ---- prefixes ----

  /** The next octet boundary, at most 24: a real step below any prefix that is not a leaf's. */
  function NextBucketPrefix(prefix: nat): (r: nat)
    ensures prefix < 24 ==> prefix < r <= 24 && r % 8 == 0 && r <= prefix + 8
    ensures prefix < 24 ==> (r < 24 <==> prefix < 16)
  {
    var rounded := if prefix % 8 == 0 then prefix + 8 else (prefix + 7) / 8 * 8;
    if rounded <= 24 then rounded else 24
  }

  function Mask(prefix: nat): bv32
    requires prefix <= 32
  {
    if prefix == 0 then 0 else (0xffff_ffff as bv32) << (32 - prefix)
  }

  predicate IsLevel(l: nat) {
    l == 8 || l == 16 || l == 24
  }

  lemma FirstMask()
    ensures Mask(8) == 0xff00_0000
  {
  }

  lemma SecondMask()
    ensures Mask(16) == 0xffff_0000
  {
  }

  lemma ThirdMask()
    ensures Mask(24) == 0xffff_ff00
  {
  }

  lemma NestedMasks(a: bv32)
    ensures (a & 0xff00_0000) & 0xff00_0000 == a & 0xff00_0000
    ensures (a & 0xffff_0000) & 0xff00_0000 == a & 0xff00_0000
    ensures (a & 0xffff_ff00) & 0xff00_0000 == a & 0xff00_0000
    ensures (a & 0xffff_0000) & 0xffff_0000 == a & 0xffff_0000
    ensures (a & 0xffff_ff00) & 0xffff_0000 == a & 0xffff_0000
    ensures (a & 0xffff_ff00) & 0xffff_ff00 == a & 0xffff_ff00
  {
  }

  /** Masking with a shorter prefix forgets nothing a longer one kept. */
  lemma MasksNest(a: bv32, p: nat, q: nat)
    requires IsLevel(p) && IsLevel(q) && p <= q
    ensures (a & Mask(q)) & Mask(p) == a & Mask(p)
  {
    hide Mask;
    FirstMask();
    SecondMask();
    ThirdMask();
    NestedMasks(a);
  }

  predicate IsLeaf(prefix: Option<nat>) {
    prefix.None? || prefix.value >= 24
  }

  function Below(prefix: Option<nat>): nat
    requires !IsLeaf(prefix)
  {
    NextBucketPrefix(prefix.value)
  }

  function Rank(prefix: Option<nat>): nat {
    if IsLeaf(prefix) then 0 else 24 - prefix.value
  }

  function NetworkCIDR(h: Host, prefix: nat): Cidr
    requires prefix <= 32
  {
    if h.addr.None? then NullCidr else Cidr(h.addr.value & Mask(prefix), prefix)
  }

  // ---- one level of grouping ----

  function Group(hosts: seq<Host>, g: Cidr, child: nat): seq<Host>
    requires child <= 32
  {
    if hosts == [] then []
    else
      Group(hosts[..|hosts| - 1], g, child) +
      if NetworkCIDR(hosts[|hosts| - 1], child) == g then [hosts[|hosts| - 1]] else []
  }

  ghost function Cidrs(hosts: seq<Host>, child: nat): set<Cidr>
    requires child <= 32
  {
    set h | h in hosts :: NetworkCIDR(h, child)
  }

  lemma NoGroups(child: nat)
    requires child <= 32
    ensures Lists([], Cidrs([], child)) && Cidrs([], child) == {} && forall g :: Group([], g, child) == []
  {
  }

  lemma GroupsGrow(hosts: seq<Host>, h: Host, child: nat)
    requires child <= 32
    ensures Cidrs(hosts + [h], child) == Cidrs(hosts, child) + {NetworkCIDR(h, child)}
    ensures forall g ::
              Group(hosts + [h], g, child) == Group(hosts, g, child) + if NetworkCIDR(h, child) == g then [h] else []
  {
    hide NetworkCIDR;
    assert (hosts + [h])[..|hosts|] == hosts;
    assert forall x :: x in hosts + [h] <==> x in hosts || x == h;
  }

  /** The groups of one level, in the order their first hosts come. */
  method NextTreeLevel(hosts: seq<Host>, prefix: Option<nat>)
    returns (leaf: bool, child: nat, groups: map<Cidr, seq<Host>>, order: seq<Cidr>)
    ensures leaf <==> IsLeaf(prefix)
    ensures !leaf ==> child == Below(prefix) && Lists(order, Cidrs(hosts, child)) && groups.Keys == Cidrs(hosts, child)
    ensures !leaf ==> forall g | g in groups :: groups[g] == Group(hosts, g, child)
  {
    hide NetworkCIDR, Lists, Group, Cidrs;
    child, groups, order := 0, map[], [];
    leaf := IsLeaf(prefix);
    if leaf {
      return;
    }
    child := NextBucketPrefix(prefix.value);
    NoGroups(child);
    for i := 0 to |hosts|
      invariant Lists(order, Cidrs(hosts[..i], child)) && groups.Keys == Cidrs(hosts[..i], child)
      invariant forall g :: Group(hosts[..i], g, child) == if g in groups then groups[g] else []
    {
      assert hosts[..i + 1] == hosts[..i] + [hosts[i]];
      GroupsGrow(hosts[..i], hosts[i], child);
      var cidr := NetworkCIDR(hosts[i], child);
      if cidr !in groups {
        ListsAppend(order, groups.Keys, cidr);
        groups := groups[cidr := []];
        order := order + [cidr];
      } else {
        assert groups.Keys + {cidr} == groups.Keys;
      }
      groups := groups[cidr := groups[cidr] + [hosts[i]]];
    }
    assert hosts[..|hosts|] == hosts;
  }

  lemma {:induction false} InGroup(hosts: seq<Host>, g: Cidr, child: nat, h: Host)
    requires child <= 32
    ensures h in Group(hosts, g, child) <==> h in hosts && NetworkCIDR(h, child) == g
  {
    if hosts != [] {
      assert hosts == hosts[..|hosts| - 1] + [hosts[|hosts| - 1]];
      InGroup(hosts[..|hosts| - 1], g, child, h);
    }
  }

  // ---- what one host contributes ----

  /** The keys shown on the way from a parent down to the host, or to the first closed bucket. */
  ghost function Shown(h: Host, prefix: Option<nat>, s: nat, ex: set<Key>): set<Key>
    decreases Rank(prefix)
  {
    if IsLeaf(prefix) then {HostKey(h.id)}
    else
      var k := BucketKey(s, NetworkCIDR(h, Below(prefix)));
      {k} + if k in ex then Shown(h, Some(Below(prefix)), s, ex) else {}
  }

  /** The links of that way. */
  ghost function Steps(h: Host, parent: Key, prefix: Option<nat>, s: nat, ex: set<Key>): set<Link>
    decreases Rank(prefix)
  {
    if IsLeaf(prefix) then {Link(parent, HostKey(h.id))}
    else
      var k := BucketKey(s, NetworkCIDR(h, Below(prefix)));
      {Link(parent, k)} + if k in ex then Steps(h, k, Some(Below(prefix)), s, ex) else {}
  }

  /** Main: a bucket on a host's way has an octet-aligned prefix below its parent's, and the host's address
      has the bucket's bits; an addressless host is only ever in the null bucket. */
  lemma {:induction false} ShownSharesBits(h: Host, prefix: Option<nat>, s: nat, ex: set<Key>, k: Key)
    requires k in Shown(h, prefix, s, ex)
    ensures !k.SubnetKey? && (k.HostKey? ==> k.id == h.id)
    ensures k.BucketKey? ==> !IsLeaf(prefix) && k.subnet == s
    ensures k.BucketKey? && h.addr.None? ==> k.cidr == NullCidr
    ensures k.BucketKey? && h.addr.Some? ==>
      k.cidr.Cidr? && prefix.value < k.cidr.prefix && IsLevel(k.cidr.prefix) &&
      k.cidr.net == h.addr.value & Mask(k.cidr.prefix)
    decreases Rank(prefix)
  {
    hide Mask;
    if !IsLeaf(prefix) {
      var first := BucketKey(s, NetworkCIDR(h, Below(prefix)));
      if k != first {
        ShownSharesBits(h, Some(Below(prefix)), s, ex, k);
      }
    }
  }

  // ---- the way of a host, bucket by bucket ----

  /** An address with only its first octets kept. */
  function Leading(a: bv32, octets: nat): bv32
    requires 1 <= octets <= 3
  {
    if octets == 1 then a & 0xff00_0000 else if octets == 2 then a & 0xffff_0000 else a & 0xffff_ff00
  }

  /** The buckets of an address: its first octet, its first two, its first three. */
  function OctetBucket(s: nat, a: bv32, octets: nat): Key
    requires 1 <= octets <= 3
  {
    BucketKey(s, Cidr(Leading(a, octets), 8 * octets))
  }

  lemma NextLevels(p: nat)
    requires p < 24
    ensures NextBucketPrefix(p) == if p < 8 then 8 else if p < 16 then 16 else 24
  {
  }

  lemma LeadingOne(a: bv32)
    ensures Leading(a, 1) == a & Mask(8)
  {
    hide Mask;
    FirstMask();
  }

  lemma LeadingTwo(a: bv32)
    ensures Leading(a, 2) == a & Mask(16)
  {
    hide Mask;
    SecondMask();
  }

  lemma OneOctet(a: bv32)
    ensures Leading(a, 1) == a & 0xff00_0000
  {
  }

  lemma TwoOctets(a: bv32)
    ensures Leading(a, 2) == a & 0xffff_0000
  {
  }

  lemma ThreeOctets(a: bv32)
    ensures Leading(a, 3) == a & 0xffff_ff00
  {
  }

  lemma LeadingThree(a: bv32)
    ensures Leading(a, 3) == a & Mask(24)
  {
    hide *;
    ThreeOctets(a);
    ThirdMask();
  }

  lemma MaskedBucket(h: Host, s: nat, octets: nat)
    requires h.addr.Some? && 1 <= octets <= 3
    ensures BucketKey(s, NetworkCIDR(h, 8 * octets)) == OctetBucket(s, h.addr.value, octets)
  {
    hide Mask, Leading;
    match octets {
      case 1 => LeadingOne(h.addr.value);
      case 2 => LeadingTwo(h.addr.value);
      case 3 => LeadingThree(h.addr.value);
    }
  }

  lemma OctetsApart(s: nat, a: bv32)
    ensures OctetBucket(s, a, 1) != OctetBucket(s, a, 2) && OctetBucket(s, a, 2) != OctetBucket(s, a, 3)
    ensures OctetBucket(s, a, 1) != OctetBucket(s, a, 3)
    ensures OctetBucket(s, a, 1).BucketKey? && OctetBucket(s, a, 2).BucketKey? && OctetBucket(s, a, 3).BucketKey?
  {
  }

  /** The number of octets of the first bucket below a prefix. */
  function OctetsBelow(p: nat): (n: nat)
    requires p < 24
    ensures 1 <= n <= 3
  {
    if p < 8 then 1 else if p < 16 then 2 else 3
  }

  lemma OneDown(h: Host, p: nat, s: nat, ex: set<Key>)
    requires h.addr.Some? && p < 24
    ensures var k := OctetBucket(s, h.addr.value, OctetsBelow(p));
            Shown(h, Some(p), s, ex) == {k} + if k in ex then Shown(h, Some(8 * OctetsBelow(p)), s, ex) else {}
    ensures var k := OctetBucket(s, h.addr.value, OctetsBelow(p));
            forall parent :: Steps(h, parent, Some(p), s, ex) ==
                             {Link(parent, k)} + if k in ex then Steps(h, k, Some(8 * OctetsBelow(p)), s, ex) else {}
  {
    hide NetworkCIDR, NextBucketPrefix, OctetBucket;
    NextLevels(p);
    MaskedBucket(h, s, OctetsBelow(p));
  }

  /** The buckets between a prefix and the host are all open. */
  predicate OpenDown(s: nat, a: bv32, p: nat, to: nat, ex: set<Key>) {
    && (p < 8 && 8 < to ==> OctetBucket(s, a, 1) in ex)
    && (p < 16 && 16 < to ==> OctetBucket(s, a, 2) in ex)
    && (p < 24 && 24 < to ==> OctetBucket(s, a, 3) in ex)
  }

  ghost predicate ShownLaw(h: Host, p: nat, s: nat, ex: set<Key>, shown: set<Key>)
    requires h.addr.Some?
  {
    var a := h.addr.value;
    && (HostKey(h.id) in shown <==> OpenDown(s, a, p, 32, ex))
    && (OctetBucket(s, a, 1) in shown <==> p < 8)
    && (OctetBucket(s, a, 2) in shown <==> p < 16 && OpenDown(s, a, p, 16, ex))
    && (OctetBucket(s, a, 3) in shown <==> p < 24 && OpenDown(s, a, p, 24, ex))
  }

  ghost predicate StepsLaw(h: Host, parent: Key, p: nat, s: nat, ex: set<Key>, steps: set<Link>)
    requires h.addr.Some?
  {
    var a := h.addr.value;
    var first, second, third := OctetBucket(s, a, 1), OctetBucket(s, a, 2), OctetBucket(s, a, 3);
    steps ==
      (if p < 8 then {Link(parent, first)} else {}) +
      (if p < 16 && OpenDown(s, a, p, 16, ex) then {Link(if p < 8 then first else parent, second)} else {}) +
      (if p < 24 && OpenDown(s, a, p, 24, ex) then {Link(if p < 16 then second else parent, third)} else {}) +
      (if OpenDown(s, a, p, 32, ex) then {Link(if p < 24 then third else parent, HostKey(h.id))} else {})
  }

  /** Main: below a prefix of less than 24 a host with an address shows those of its octet buckets that are longer
      than the prefix and below open ones only, and itself if all of them are open. A host under any other
      prefix is shown right away. */
  lemma {:induction false} WayLaw(h: Host, prefix: Option<nat>, s: nat, ex: set<Key>)
    requires h.addr.Some?
    ensures ShownLaw(h, if prefix.None? then 32 else prefix.value, s, ex, Shown(h, prefix, s, ex))
    decreases Rank(prefix)
  {
    hide NetworkCIDR, OctetBucket, NextBucketPrefix;
    OctetsApart(s, h.addr.value);
    if prefix.Some? && prefix.value < 24 {
      hide Shown;
      OneDown(h, prefix.value, s, ex);
      WayLaw(h, Some(8 * OctetsBelow(prefix.value)), s, ex);
    }
  }

  /** Main: and its links go from each of those to the next. */
  lemma {:induction false} LinkLaw(h: Host, parent: Key, prefix: Option<nat>, s: nat, ex: set<Key>)
    requires h.addr.Some?
    ensures StepsLaw(h, parent, if prefix.None? then 32 else prefix.value, s, ex, Steps(h, parent, prefix, s, ex))
    decreases Rank(prefix)
  {
    hide NetworkCIDR, OctetBucket, NextBucketPrefix;
    if prefix.Some? && prefix.value < 24 {
      hide Steps, Rank;
      OneDown(h, prefix.value, s, ex);
      LinkLaw(h, OctetBucket(s, h.addr.value, OctetsBelow(prefix.value)), Some(8 * OctetsBelow(prefix.value)), s, ex);
    }
  }

  /** Main: a host without an address is below the one null bucket, at whatever depth. */
  lemma NullWayLaw(h: Host, prefix: Option<nat>, s: nat, ex: set<Key>)
    requires h.addr.None?
    ensures var p := if prefix.None? then 32 else prefix.value;
            Shown(h, prefix, s, ex) ==
              (if p < 24 then {BucketKey(s, NullCidr)} else {}) +
              (if p < 24 && BucketKey(s, NullCidr) !in ex then {} else {HostKey(h.id)})
    decreases Rank(prefix)
  {
    if !IsLeaf(prefix) {
      NullWayLaw(h, Some(Below(prefix)), s, ex);
    }
  }

  lemma TwoOfThree(a: bv32, b: bv32)
    requires Leading(a, 3) == Leading(b, 3)
    ensures Leading(a, 2) == Leading(b, 2)
  {
    hide *;
    ThreeOctets(a);
    ThreeOctets(b);
    TwoOctets(a);
    TwoOctets(b);
  }

  lemma OneOfTwo(a: bv32, b: bv32)
    requires Leading(a, 2) == Leading(b, 2)
    ensures Leading(a, 1) == Leading(b, 1)
  {
    hide *;
    TwoOctets(a);
    TwoOctets(b);
    OneOctet(a);
    OneOctet(b);
  }

  /** The address of a host shown in an octet bucket starts with its octets. */
  lemma InOctets(h: Host, prefix: Option<nat>, s: nat, ex: set<Key>, t: nat, a: bv32, n: nat)
    requires 1 <= n <= 3 && OctetBucket(t, a, n) in Shown(h, prefix, s, ex)
    ensures t == s && h.addr.Some? && Leading(h.addr.value, n) == Leading(a, n)
  {
    hide Mask, Leading, Shown;
    ShownSharesBits(h, prefix, s, ex, OctetBucket(t, a, n));
    if h.addr.Some? { MaskedBucket(h, s, n); }
  }

  /** So do all addresses that start with them: one such host shown there has the others shown there. */
  lemma SameOctets(h: Host, g: Host, prefix: Option<nat>, s: nat, ex: set<Key>, n: nat)
    requires 1 <= n <= 3 && h.addr.Some? && g.addr.Some? && Leading(h.addr.value, n) == Leading(g.addr.value, n)
    requires OctetBucket(s, h.addr.value, n) in Shown(h, prefix, s, ex)
    ensures OctetBucket(s, h.addr.value, n) in Shown(g, prefix, s, ex)
  {
    hide Leading, Shown;
    if n == 3 { TwoOfThree(h.addr.value, g.addr.value); }
    if n >= 2 { OneOfTwo(h.addr.value, g.addr.value); }
    WayLaw(h, prefix, s, ex);
    WayLaw(g, prefix, s, ex);
  }

  /** Hosts that meet in a key below some level are in one group at that level. */
  lemma SharedKeySharesGroup(h: Host, h': Host, prefix: Option<nat>, s: nat, ex: set<Key>, k: Key)
    requires !IsLeaf(prefix) && k in Shown(h, prefix, s, ex) && k in Shown(h', prefix, s, ex)
    requires h.id == h'.id ==> h == h'
    ensures NetworkCIDR(h, Below(prefix)) == NetworkCIDR(h', Below(prefix))
  {
    hide Mask, Shown;
    ShownSharesBits(h, prefix, s, ex, k);
    ShownSharesBits(h', prefix, s, ex, k);
    if k.BucketKey? && h.addr.Some? && h'.addr.Some? {
      var c, l := Below(prefix), k.cidr.prefix;
      BucketNotAbove(h, prefix, s, ex, k);
      MasksNest(h.addr.value, c, l);
      MasksNest(h'.addr.value, c, l);
    }
  }

  lemma BucketNotAbove(h: Host, prefix: Option<nat>, s: nat, ex: set<Key>, k: Key)
    requires !IsLeaf(prefix) && k in Shown(h, prefix, s, ex) && k.BucketKey? && k.cidr.Cidr?
    ensures Below(prefix) <= k.cidr.prefix
  {
    if k != BucketKey(s, NetworkCIDR(h, Below(prefix))) {
      ShownSharesBits(h, Some(Below(prefix)), s, ex, k);
    }
  }

  /** A key shown below an open bucket is shown, over all hosts, exactly by that bucket's hosts. */
  lemma BelowBucket(h1: Host, h: Host, prefix: Option<nat>, s: nat, ex: set<Key>, k: Key)
    requires !IsLeaf(prefix) && k in Shown(h1, Some(Below(prefix)), s, ex)
    requires BucketKey(s, NetworkCIDR(h1, Below(prefix))) in ex
    requires h.id == h1.id ==> h == h1
    ensures k in Shown(h, prefix, s, ex) <==>
            NetworkCIDR(h, Below(prefix)) == NetworkCIDR(h1, Below(prefix)) && k in Shown(h, Some(Below(prefix)), s, ex)
  {
    var c := Below(prefix);
    ShownSharesBits(h1, Some(c), s, ex, k);
    if k in Shown(h, prefix, s, ex) {
      assert k in Shown(h1, prefix, s, ex);
      SharedKeySharesGroup(h, h1, prefix, s, ex, k);
      if k == BucketKey(s, NetworkCIDR(h, c)) {
        assert h.addr.None?;
        assert k == BucketKey(s, NetworkCIDR(h, Below(Some(c))));
      }
    }
  }

  /** The first bucket is shown exactly by its group. */
  lemma FirstBucket(h: Host, prefix: Option<nat>, s: nat, ex: set<Key>, g: Cidr)
    requires !IsLeaf(prefix) && (g.Cidr? ==> g.prefix == Below(prefix))
    ensures BucketKey(s, g) in Shown(h, prefix, s, ex) <==> NetworkCIDR(h, Below(prefix)) == g
  {
    if BucketKey(s, g) in Shown(h, prefix, s, ex) && NetworkCIDR(h, Below(prefix)) != g {
      ShownSharesBits(h, Some(Below(prefix)), s, ex, BucketKey(s, g));
    }
  }

  // ---- what all hosts of a level contribute ----

  ghost predicate UniqueIds(hosts: seq<Host>) {
    forall g, h | g in hosts && h in hosts && g.id == h.id :: g == h
  }

  ghost function AllShown(hosts: seq<Host>, prefix: Option<nat>, s: nat, ex: set<Key>): set<Key> {
    set h, k | h in hosts && k in Shown(h, prefix, s, ex) :: k
  }

  ghost function AllSteps(hosts: seq<Host>, parent: Key, prefix: Option<nat>, s: nat, ex: set<Key>): set<Link> {
    set h, l | h in hosts && l in Steps(h, parent, prefix, s, ex) :: l
  }

  ghost function Showing(hosts: seq<Host>, k: Key, prefix: Option<nat>, s: nat, ex: set<Key>): nat {
    if hosts == [] then 0
    else
      Showing(hosts[..|hosts| - 1], k, prefix, s, ex) +
      if k in Shown(hosts[|hosts| - 1], prefix, s, ex) then 1 else 0
  }

  /** A bucket carries the number of hosts below it. */
  ghost function NodeFor(k: Key, hosts: seq<Host>, prefix: Option<nat>, s: nat, ex: set<Key>): Node {
    if k.BucketKey? then Node(Showing(hosts, k, prefix, s, ex), k in ex) else Node(0, false)
  }

  lemma {:induction false} GroupSize(hosts: seq<Host>, prefix: Option<nat>, s: nat, ex: set<Key>, g: Cidr)
    requires !IsLeaf(prefix) && (g.Cidr? ==> g.prefix == Below(prefix))
    ensures |Group(hosts, g, Below(prefix))| == Showing(hosts, BucketKey(s, g), prefix, s, ex)
  {
    if hosts != [] {
      GroupSize(hosts[..|hosts| - 1], prefix, s, ex, g);
      FirstBucket(hosts[|hosts| - 1], prefix, s, ex, g);
    }
  }

  lemma {:induction false} GroupShows(hosts: seq<Host>, prefix: Option<nat>, s: nat, ex: set<Key>, h1: Host, k: Key)
    requires !IsLeaf(prefix) && k in Shown(h1, Some(Below(prefix)), s, ex)
    requires BucketKey(s, NetworkCIDR(h1, Below(prefix))) in ex
    requires forall h | h in hosts && h.id == h1.id :: h == h1
    ensures Showing(Group(hosts, NetworkCIDR(h1, Below(prefix)), Below(prefix)), k, Some(Below(prefix)), s, ex)
         == Showing(hosts, k, prefix, s, ex)
  {
    if hosts != [] {
      hide NetworkCIDR, Shown, Group, Showing;
      var init, h := hosts[..|hosts| - 1], hosts[|hosts| - 1];
      var g, c := NetworkCIDR(h1, Below(prefix)), Below(prefix);
      assert hosts == init + [h] && forall x | x in init :: x in hosts;
      GroupShows(init, prefix, s, ex, h1, k);
      BelowBucket(h1, h, prefix, s, ex, k);
      GroupsGrow(init, h, c);
      assert Group(init, g, c) + [] == Group(init, g, c);
      ShowingGrows(init, h, k, prefix, s, ex);
      ShowingGrows(Group(init, g, c), h, k, Some(c), s, ex);
    } else {
      assert Group(hosts, NetworkCIDR(h1, Below(prefix)), Below(prefix)) == [];
    }
  }

  lemma ShowingGrows(hosts: seq<Host>, h: Host, k: Key, prefix: Option<nat>, s: nat, ex: set<Key>)
    ensures Showing(hosts + [h], k, prefix, s, ex)
         == Showing(hosts, k, prefix, s, ex) + if k in Shown(h, prefix, s, ex) then 1 else 0
  {
    hide Shown;
    assert (hosts + [h])[..|hosts|] == hosts;
  }

  /** The node a group's own layout wrote is the one the whole level calls for. */
  lemma SameNode(hosts: seq<Host>, prefix: Option<nat>, s: nat, ex: set<Key>, g: Cidr, k: Key)
    requires !IsLeaf(prefix) && UniqueIds(hosts) && BucketKey(s, g) in ex
    requires k in AllShown(Group(hosts, g, Below(prefix)), Some(Below(prefix)), s, ex)
    ensures NodeFor(k, Group(hosts, g, Below(prefix)), Some(Below(prefix)), s, ex) == NodeFor(k, hosts, prefix, s, ex)
  {
    var h1 :| h1 in Group(hosts, g, Below(prefix)) && k in Shown(h1, Some(Below(prefix)), s, ex);
    InGroup(hosts, g, Below(prefix), h1);
    GroupShows(hosts, prefix, s, ex, h1, k);
  }

  // ---- going through the groups ----

  ghost function ShownIn(hosts: seq<Host>, gs: set<Cidr>, prefix: Option<nat>, s: nat, ex: set<Key>): set<Key>
    requires !IsLeaf(prefix)
  {
    set h, k | h in hosts && NetworkCIDR(h, Below(prefix)) in gs && k in Shown(h, prefix, s, ex) :: k
  }

  ghost function StepsIn(hosts: seq<Host>, gs: set<Cidr>, parent: Key, prefix: Option<nat>, s: nat,
                         ex: set<Key>): set<Link>
    requires !IsLeaf(prefix)
  {
    set h, l | h in hosts && NetworkCIDR(h, Below(prefix)) in gs && l in Steps(h, parent, prefix, s, ex) :: l
  }

  ghost function InnerShown(hosts: seq<Host>, g: Cidr, prefix: Option<nat>, s: nat, ex: set<Key>): set<Key>
    requires !IsLeaf(prefix)
  {
    if BucketKey(s, g) in ex then AllShown(Group(hosts, g, Below(prefix)), Some(Below(prefix)), s, ex) else {}
  }

  ghost function InnerSteps(hosts: seq<Host>, g: Cidr, prefix: Option<nat>, s: nat, ex: set<Key>): set<Link>
    requires !IsLeaf(prefix)
  {
    if BucketKey(s, g) in ex
    then AllSteps(Group(hosts, g, Below(prefix)), BucketKey(s, g), Some(Below(prefix)), s, ex) else {}
  }

  lemma GroupWay(h: Host, parent: Key, prefix: Option<nat>, s: nat, ex: set<Key>)
    requires !IsLeaf(prefix)
    ensures var k := BucketKey(s, NetworkCIDR(h, Below(prefix)));
            && Shown(h, prefix, s, ex) == {k} + (if k in ex then Shown(h, Some(Below(prefix)), s, ex) else {})
            && Steps(h, parent, prefix, s, ex) ==
               {Link(parent, k)} + (if k in ex then Steps(h, k, Some(Below(prefix)), s, ex) else {})
  {
  }

  lemma OneMoreShown(hosts: seq<Host>, gs: set<Cidr>, g: Cidr, prefix: Option<nat>, s: nat, ex: set<Key>)
    requires !IsLeaf(prefix) && g in Cidrs(hosts, Below(prefix))
    ensures ShownIn(hosts, gs + {g}, prefix, s, ex) ==
            ShownIn(hosts, gs, prefix, s, ex) + {BucketKey(s, g)} + InnerShown(hosts, g, prefix, s, ex)
  {
    var c, k0 := Below(prefix), BucketKey(s, g);
    hide NetworkCIDR, Shown, Group;
    forall k ensures k in ShownIn(hosts, gs + {g}, prefix, s, ex) <==>
      k in ShownIn(hosts, gs, prefix, s, ex) || k == k0 || k in InnerShown(hosts, g, prefix, s, ex)
    {
      if k in ShownIn(hosts, gs + {g}, prefix, s, ex) {
        var h :| h in hosts && NetworkCIDR(h, c) in gs + {g} && k in Shown(h, prefix, s, ex);
        GroupWay(h, k0, prefix, s, ex);
        InGroup(hosts, g, c, h);
      }
      if k == k0 {
        var h :| h in hosts && NetworkCIDR(h, c) == g;
        GroupWay(h, k0, prefix, s, ex);
      }
      if k in InnerShown(hosts, g, prefix, s, ex) {
        var h :| h in Group(hosts, g, c) && k in Shown(h, Some(c), s, ex);
        GroupWay(h, k0, prefix, s, ex);
        InGroup(hosts, g, c, h);
      }
    }
  }

  lemma OneMoreLinked(hosts: seq<Host>, gs: set<Cidr>, g: Cidr, parent: Key, prefix: Option<nat>, s: nat, ex: set<Key>)
    requires !IsLeaf(prefix) && g in Cidrs(hosts, Below(prefix))
    ensures StepsIn(hosts, gs + {g}, parent, prefix, s, ex) ==
            StepsIn(hosts, gs, parent, prefix, s, ex) + {Link(parent, BucketKey(s, g))} +
            InnerSteps(hosts, g, prefix, s, ex)
  {
    var c, k0 := Below(prefix), BucketKey(s, g);
    hide NetworkCIDR, Steps, Group;
    forall l ensures l in StepsIn(hosts, gs + {g}, parent, prefix, s, ex) <==>
      l in StepsIn(hosts, gs, parent, prefix, s, ex) || l == Link(parent, k0) ||
      l in InnerSteps(hosts, g, prefix, s, ex)
    {
      if l in StepsIn(hosts, gs + {g}, parent, prefix, s, ex) {
        var h :| h in hosts && NetworkCIDR(h, c) in gs + {g} && l in Steps(h, parent, prefix, s, ex);
        GroupWay(h, parent, prefix, s, ex);
        InGroup(hosts, g, c, h);
      }
      if l == Link(parent, k0) {
        var h :| h in hosts && NetworkCIDR(h, c) == g;
        GroupWay(h, parent, prefix, s, ex);
      }
      if l in InnerSteps(hosts, g, prefix, s, ex) {
        var h :| h in Group(hosts, g, c) && l in Steps(h, k0, Some(c), s, ex);
        GroupWay(h, parent, prefix, s, ex);
        InGroup(hosts, g, c, h);
      }
    }
  }

  lemma EveryGroup(hosts: seq<Host>, parent: Key, prefix: Option<nat>, s: nat, ex: set<Key>)
    requires !IsLeaf(prefix)
    ensures ShownIn(hosts, Cidrs(hosts, Below(prefix)), prefix, s, ex) == AllShown(hosts, prefix, s, ex)
    ensures StepsIn(hosts, Cidrs(hosts, Below(prefix)), parent, prefix, s, ex) == AllSteps(hosts, parent, prefix, s, ex)
    ensures ShownIn(hosts, {}, prefix, s, ex) == {} && StepsIn(hosts, {}, parent, prefix, s, ex) == {}
  {
    hide NetworkCIDR, Shown, Steps;
  }

  /** No addressless host sits in an open null bucket that would have to be opened inside itself. */
  ghost predicate NullSafe(hosts: seq<Host>, prefix: Option<nat>, s: nat, ex: set<Key>) {
    IsLeaf(prefix) || prefix.value >= 16 || BucketKey(s, NullCidr) !in ex || forall h | h in hosts :: h.addr.Some?
  }

  lemma {:induction false} StepsLeadToShown(h: Host, parent: Key, prefix: Option<nat>, s: nat, ex: set<Key>, l: Link)
    requires l in Steps(h, parent, prefix, s, ex)
    ensures l.b in Shown(h, prefix, s, ex)
    decreases Rank(prefix)
  {
    hide NetworkCIDR;
    if !IsLeaf(prefix) {
      var k := BucketKey(s, NetworkCIDR(h, Below(prefix)));
      if l != Link(parent, k) { StepsLeadToShown(h, k, Some(Below(prefix)), s, ex, l); }
    }
  }

  lemma FreshLinks(hosts: seq<Host>, gs: set<Cidr>, g: Cidr, parent: Key, prefix: Option<nat>, s: nat, ex: set<Key>)
    requires !IsLeaf(prefix) && UniqueIds(hosts) && NullSafe(hosts, prefix, s, ex)
    requires g in Cidrs(hosts, Below(prefix)) && g !in gs
    ensures forall l | l in StepsIn(hosts, gs, parent, prefix, s, ex) ::
              l != Link(parent, BucketKey(s, g)) && l !in InnerSteps(hosts, g, prefix, s, ex)
    ensures Link(parent, BucketKey(s, g)) !in InnerSteps(hosts, g, prefix, s, ex)
    ensures BucketKey(s, g) in ex ==> NullSafe(Group(hosts, g, Below(prefix)), Some(Below(prefix)), s, ex)
  {
    var c := Below(prefix);
    forall l | l in StepsIn(hosts, gs, parent, prefix, s, ex)
      ensures l != Link(parent, BucketKey(s, g)) && l !in InnerSteps(hosts, g, prefix, s, ex)
    {
      StepElsewhere(hosts, gs, g, parent, prefix, s, ex, l);
    }
    if Link(parent, BucketKey(s, g)) in InnerSteps(hosts, g, prefix, s, ex) {
      var h :| h in Group(hosts, g, c) && Link(parent, BucketKey(s, g)) in Steps(h, BucketKey(s, g), Some(c), s, ex);
      InGroup(hosts, g, c, h);
      StepsLeadToShown(h, BucketKey(s, g), Some(c), s, ex, Link(parent, BucketKey(s, g)));
      ShownSharesBits(h, Some(c), s, ex, BucketKey(s, g));
    }
    forall h | h in Group(hosts, g, c) ensures h in hosts { InGroup(hosts, g, c, h); }
  }

  lemma StepElsewhere(hosts: seq<Host>, gs: set<Cidr>, g: Cidr, parent: Key, prefix: Option<nat>, s: nat,
                      ex: set<Key>, l: Link)
    requires !IsLeaf(prefix) && UniqueIds(hosts) && g in Cidrs(hosts, Below(prefix)) && g !in gs
    requires l in StepsIn(hosts, gs, parent, prefix, s, ex)
    ensures l != Link(parent, BucketKey(s, g)) && l !in InnerSteps(hosts, g, prefix, s, ex)
  {
    var c := Below(prefix);
    var h :| h in hosts && NetworkCIDR(h, c) in gs && l in Steps(h, parent, prefix, s, ex);
    StepsLeadToShown(h, parent, prefix, s, ex, l);
    var h0 :| h0 in hosts && NetworkCIDR(h0, c) == g;
    if l == Link(parent, BucketKey(s, g)) {
      FirstBucket(h, prefix, s, ex, g);
    }
    if l in InnerSteps(hosts, g, prefix, s, ex) {
      var h' :| h' in Group(hosts, g, c) && l in Steps(h', BucketKey(s, g), Some(c), s, ex);
      InGroup(hosts, g, c, h');
      StepsLeadToShown(h', BucketKey(s, g), Some(c), s, ex, l);
      assert l.b in Shown(h', prefix, s, ex);
      SharedKeySharesGroup(h, h', prefix, s, ex, l.b);
    }
  }

  // ---- the graph ----

  /** `after` is `before` with the nodes of these hosts written. */
  ghost predicate Wrote(before: map<Key, Node>, after: map<Key, Node>, keys: set<Key>, hosts: seq<Host>,
                        prefix: Option<nat>, s: nat, ex: set<Key>) {
    && after.Keys == before.Keys + keys
    && (forall k | k in after && k !in keys :: after[k] == before[k])
    && (forall k | k in keys && k in after :: after[k] == NodeFor(k, hosts, prefix, s, ex))
  }

  ghost predicate LinksAre(ls: seq<Link>, all: set<Link>, safe: bool) {
    (forall l :: l in ls <==> l in all) && (safe ==> Distinct(ls))
  }

  lemma LinksJoin(a: seq<Link>, b: seq<Link>, all: set<Link>, more: set<Link>, safe: bool)
    requires LinksAre(a, all, safe) && LinksAre(b, more, safe) && (safe ==> all !! more)
    ensures LinksAre(a + b, all + more, safe)
  {
    if safe { ListsConcat(a, b, all, more); }
    assert forall l :: l in a + b <==> l in a || l in b;
  }

  lemma LeavesGrow(hosts: seq<Host>, h: Host, parent: Key, prefix: Option<nat>, s: nat, ex: set<Key>)
    requires IsLeaf(prefix)
    ensures AllShown(hosts + [h], prefix, s, ex) == AllShown(hosts, prefix, s, ex) + {HostKey(h.id)}
    ensures AllSteps(hosts + [h], parent, prefix, s, ex) ==
            AllSteps(hosts, parent, prefix, s, ex) + {Link(parent, HostKey(h.id))}
    ensures UniqueIds(hosts + [h]) && h !in hosts ==>
              Link(parent, HostKey(h.id)) !in AllSteps(hosts, parent, prefix, s, ex)
    ensures forall k | k in AllShown(hosts, prefix, s, ex) :: k.HostKey?
  {
    assert forall x :: x in hosts + [h] <==> x in hosts || x == h;
    assert h in hosts + [h] && HostKey(h.id) in Shown(h, prefix, s, ex) &&
           Link(parent, HostKey(h.id)) in Steps(h, parent, prefix, s, ex);
  }

  lemma NothingLaidOut(parent: Key, prefix: Option<nat>, s: nat, ex: set<Key>)
    ensures AllShown([], prefix, s, ex) == {} && AllSteps([], parent, prefix, s, ex) == {} && LinksAre([], {}, true)
  {
  }

  lemma PrefixUnique(hosts: seq<Host>, i: nat)
    requires UniqueIds(hosts) && Distinct(hosts) && i < |hosts|
    ensures UniqueIds(hosts[..i] + [hosts[i]]) && hosts[i] !in hosts[..i]
  {
  }

  lemma OneLink(l: Link)
    ensures LinksAre([l], {l}, true)
  {
  }

  class Graph {
    var nodes: map<Key, Node>
    var links: seq<Link>

    constructor ()
      ensures nodes == map[] && links == []
    {
      nodes, links := map[], [];
    }

    /** Host nodes, each linked to the parent. */
    method LayoutLeaf(parent: Key, hosts: seq<Host>, nextKeys0: set<Key>, prefix: Option<nat>, s: nat, ex: set<Key>)
      returns (nextKeys: set<Key>, ghost added: seq<Link>)
      requires IsLeaf(prefix) && UniqueIds(hosts) && Distinct(hosts)
      requires PlainHosts(nodes)
      modifies this
      ensures PlainHosts(nodes)
      ensures nextKeys == nextKeys0 + AllShown(hosts, prefix, s, ex)
      ensures Wrote(old(nodes), nodes, AllShown(hosts, prefix, s, ex), hosts, prefix, s, ex)
      ensures links == old(links) + added && LinksAre(added, AllSteps(hosts, parent, prefix, s, ex), true)
    {
      hide AllShown, AllSteps, LinksAre, UniqueIds, Distinct;
      nextKeys, added := nextKeys0, [];
      NothingLaidOut(parent, prefix, s, ex);
      assert nextKeys0 + {} == nextKeys0 && links + [] == links;
      for i := 0 to |hosts|
        invariant PlainHosts(nodes)
        invariant nextKeys == nextKeys0 + AllShown(hosts[..i], prefix, s, ex)
        invariant Wrote(old(nodes), nodes, AllShown(hosts[..i], prefix, s, ex), hosts, prefix, s, ex)
        invariant links == old(links) + added && LinksAre(added, AllSteps(hosts[..i], parent, prefix, s, ex), true)
      {
        assert hosts[..i + 1] == hosts[..i] + [hosts[i]];
        PrefixUnique(hosts, i);
        LeavesGrow(hosts[..i], hosts[i], parent, prefix, s, ex);
        var key := HostKey(hosts[i].id);
        ghost var shown := AllShown(hosts[..i], prefix, s, ex);
        assert nextKeys0 + shown + {key} == nextKeys0 + (shown + {key});
        nextKeys := nextKeys + {key};
        if key !in nodes {
          nodes := nodes[key := Node(0, false)];
        }
        OneLink(Link(parent, key));
        LinksJoin(added, [Link(parent, key)], AllSteps(hosts[..i], parent, prefix, s, ex), {Link(parent, key)}, true);
        assert old(links) + added + [Link(parent, key)] == old(links) + (added + [Link(parent, key)]);
        links := links + [Link(parent, key)];
        added := added + [Link(parent, key)];
      }
      assert hosts[..|hosts|] == hosts;
    }

    /** One bucket: its own node and link, and, if it is open, the level inside it. */
    method LayoutBucket(parent: Key, hosts: seq<Host>, g: Cidr, groupHosts: seq<Host>, prefix: Option<nat>, s: nat,
                        nextKeys0: set<Key>, ex: set<Key>)
      returns (nextKeys: set<Key>, ghost added: seq<Link>)
      requires !IsLeaf(prefix) && UniqueIds(hosts) && Distinct(hosts) && g in Cidrs(hosts, Below(prefix))
      requires groupHosts == Group(hosts, g, Below(prefix)) && PlainHosts(nodes)
      modifies this
      ensures PlainHosts(nodes)
      ensures nextKeys == nextKeys0 + ({BucketKey(s, g)} + InnerShown(hosts, g, prefix, s, ex))
      ensures Wrote(old(nodes), nodes, {BucketKey(s, g)} + InnerShown(hosts, g, prefix, s, ex), hosts, prefix, s, ex)
      ensures links == old(links) + added
      ensures LinksAre(added, {Link(parent, BucketKey(s, g))} + InnerSteps(hosts, g, prefix, s, ex),
                       NullSafe(hosts, prefix, s, ex))
      decreases Rank(prefix), 0
    {
      hide AllShown, AllSteps, LinksAre, NullSafe, Group, PlainHosts, UniqueIds, Distinct, Cidrs, Wrote;
      var bucketKey := BucketKey(s, g);
      nextKeys := nextKeys0 + {bucketKey};
      ghost var before := nodes;
      nodes := nodes[bucketKey := Node(|groupHosts|, bucketKey in ex)];
      BucketWritten(before, hosts, prefix, s, ex, g);
      links := links + [Link(parent, bucketKey)];
      added := [Link(parent, bucketKey)];
      OneLink(Link(parent, bucketKey));
      NullSafeInside(hosts, prefix, s, ex, g);
      if bucketKey in ex {
        ghost var mid := nodes;
        ghost var inner;
        GroupUnique(hosts, g, Below(prefix));
        nextKeys, inner := LayoutLevel(bucketKey, groupHosts, Some(Below(prefix)), s, nextKeys, ex);
        assert nextKeys0 + {bucketKey} + InnerShown(hosts, g, prefix, s, ex) ==
               nextKeys0 + ({bucketKey} + InnerShown(hosts, g, prefix, s, ex));
        InsideWritten(before, mid, nodes, hosts, prefix, s, ex, g);
        InsideLinked(added, inner, hosts, parent, prefix, s, ex, g);
        assert old(links) + added + inner == old(links) + (added + inner);
        added := added + inner;
      } else {
        assert {bucketKey} + InnerShown(hosts, g, prefix, s, ex) == {bucketKey};
        assert {Link(parent, bucketKey)} + InnerSteps(hosts, g, prefix, s, ex) == {Link(parent, bucketKey)};
        Weaken(added, {Link(parent, bucketKey)}, NullSafe(hosts, prefix, s, ex));
      }
    }

    /** Main: laying out a level shows exactly the keys on its hosts' ways, counts the hosts below every
        bucket, and adds exactly the links of those ways, each once unless a null bucket opens into itself. */
    method LayoutLevel(parent: Key, hosts: seq<Host>, prefix: Option<nat>, s: nat, nextKeys0: set<Key>, ex: set<Key>)
      returns (nextKeys: set<Key>, ghost added: seq<Link>)
      requires UniqueIds(hosts) && Distinct(hosts) && PlainHosts(nodes)
      modifies this
      ensures PlainHosts(nodes)
      ensures nextKeys == nextKeys0 + AllShown(hosts, prefix, s, ex)
      ensures Wrote(old(nodes), nodes, AllShown(hosts, prefix, s, ex), hosts, prefix, s, ex)
      ensures links == old(links) + added &&
              LinksAre(added, AllSteps(hosts, parent, prefix, s, ex), NullSafe(hosts, prefix, s, ex))
      decreases Rank(prefix), 1
    {
      hide AllShown, AllSteps, LinksAre, NullSafe, Group, UniqueIds, Distinct, Cidrs, Wrote, ShownIn, StepsIn;
      hide InnerShown, InnerSteps, NetworkCIDR, PlainHosts;
      var leaf, child, groups, order := NextTreeLevel(hosts, prefix);
      if leaf {
        nextKeys, added := LayoutLeaf(parent, hosts, nextKeys0, prefix, s, ex);
        Weaken(added, AllSteps(hosts, parent, prefix, s, ex), NullSafe(hosts, prefix, s, ex));
        return;
      }
      nextKeys, added := nextKeys0, [];
      ghost var gs: set<Cidr> := {};
      EveryGroup(hosts, parent, prefix, s, ex);
      NothingYet(nodes, links, hosts, prefix, s, ex, NullSafe(hosts, prefix, s, ex));
      assert nextKeys0 + {} == nextKeys0;
      for i := 0 to |order|
        invariant PlainHosts(nodes) && (forall g :: g in gs <==> g in order[..i])
        invariant nextKeys == nextKeys0 + ShownIn(hosts, gs, prefix, s, ex)
        invariant Wrote(old(nodes), nodes, ShownIn(hosts, gs, prefix, s, ex), hosts, prefix, s, ex)
        invariant links == old(links) + added
        invariant LinksAre(added, StepsIn(hosts, gs, parent, prefix, s, ex), NullSafe(hosts, prefix, s, ex))
      {
        var g := order[i];
        assert order[..i + 1] == order[..i] + [g];
        OrderedOnce(order, i, Cidrs(hosts, child));
        ghost var mid := nodes;
        ghost var more;
        nextKeys, more := LayoutBucket(parent, hosts, g, groups[g], prefix, s, nextKeys, ex);
        OneMoreShown(hosts, gs, g, prefix, s, ex);
        OneMoreLinked(hosts, gs, g, parent, prefix, s, ex);
        JoinGroup(old(nodes), mid, nodes, added, more, hosts, gs, g, parent, prefix, s, ex);
        assert nextKeys == nextKeys0 + ShownIn(hosts, gs + {g}, prefix, s, ex);
        assert old(links) + added + more == old(links) + (added + more);
        added := added + more;
        gs := gs + {g};
      }
      AllCidrs(order, gs, Cidrs(hosts, child));
    }
  }

  // ---- proofs about one layout step ----

  ghost predicate PlainHosts(nodes: map<Key, Node>) {
    forall k | k in nodes && k.HostKey? :: nodes[k] == Node(0, false)
  }

  lemma NothingYet(nodes: map<Key, Node>, links: seq<Link>, hosts: seq<Host>, prefix: Option<nat>, s: nat,
                   ex: set<Key>, safe: bool)
    ensures Wrote(nodes, nodes, {}, hosts, prefix, s, ex) && LinksAre([], {}, safe) && links + [] == links
  {
  }

  lemma OrderedOnce(order: seq<Cidr>, i: nat, all: set<Cidr>)
    requires Lists(order, all) && i < |order|
    ensures order[i] in all && order[i] !in order[..i]
  {
  }

  lemma AllCidrs(order: seq<Cidr>, gs: set<Cidr>, all: set<Cidr>)
    requires Lists(order, all) && forall g :: g in gs <==> g in order[..|order|]
    ensures gs == all
  {
    assert order[..|order|] == order;
  }

  lemma Weaken(ls: seq<Link>, all: set<Link>, safe: bool)
    requires LinksAre(ls, all, true)
    ensures LinksAre(ls, all, safe)
  {
  }

  lemma BucketWritten(before: map<Key, Node>, hosts: seq<Host>, prefix: Option<nat>, s: nat, ex: set<Key>, g: Cidr)
    requires !IsLeaf(prefix) && g in Cidrs(hosts, Below(prefix))
    ensures var k := BucketKey(s, g);
            var after := before[k := Node(|Group(hosts, g, Below(prefix))|, k in ex)];
            Wrote(before, after, {k}, hosts, prefix, s, ex) && (PlainHosts(before) ==> PlainHosts(after))
  {
    GroupSize(hosts, prefix, s, ex, g);
  }

  lemma NullSafeInside(hosts: seq<Host>, prefix: Option<nat>, s: nat, ex: set<Key>, g: Cidr)
    requires !IsLeaf(prefix)
    ensures NullSafe(hosts, prefix, s, ex) && BucketKey(s, g) in ex ==>
            NullSafe(Group(hosts, g, Below(prefix)), Some(Below(prefix)), s, ex)
  {
    forall h | h in Group(hosts, g, Below(prefix)) ensures h in hosts { InGroup(hosts, g, Below(prefix), h); }
  }

  lemma {:induction false} GroupUnique(hosts: seq<Host>, g: Cidr, child: nat)
    requires child <= 32 && UniqueIds(hosts) && Distinct(hosts)
    ensures UniqueIds(Group(hosts, g, child)) && Distinct(Group(hosts, g, child))
  {
    hide NetworkCIDR;
    forall h ensures h in Group(hosts, g, child) ==> h in hosts { InGroup(hosts, g, child, h); }
    if hosts != [] {
      var init := hosts[..|hosts| - 1];
      assert hosts == init + [hosts[|hosts| - 1]];
      forall h ensures h in Group(init, g, child) ==> h in init { InGroup(init, g, child, h); }
      GroupUnique(init, g, child);
      assert hosts[|hosts| - 1] !in init && hosts[|hosts| - 1] !in Group(init, g, child);
    }
  }

  lemma InsideWritten(before: map<Key, Node>, mid: map<Key, Node>, after: map<Key, Node>, hosts: seq<Host>,
                      prefix: Option<nat>, s: nat, ex: set<Key>, g: Cidr)
    requires !IsLeaf(prefix) && UniqueIds(hosts) && BucketKey(s, g) in ex
    requires Wrote(before, mid, {BucketKey(s, g)}, hosts, prefix, s, ex)
    requires Wrote(mid, after, InnerShown(hosts, g, prefix, s, ex), Group(hosts, g, Below(prefix)),
                   Some(Below(prefix)), s, ex)
    ensures Wrote(before, after, {BucketKey(s, g)} + InnerShown(hosts, g, prefix, s, ex), hosts, prefix, s, ex)
  {
    hide NodeFor, Group, AllShown, UniqueIds;
    forall k | k in InnerShown(hosts, g, prefix, s, ex)
      ensures NodeFor(k, Group(hosts, g, Below(prefix)), Some(Below(prefix)), s, ex) == NodeFor(k, hosts, prefix, s, ex)
    {
      SameNode(hosts, prefix, s, ex, g, k);
    }
  }

  lemma InsideLinked(own: seq<Link>, inner: seq<Link>, hosts: seq<Host>, parent: Key, prefix: Option<nat>, s: nat,
                     ex: set<Key>, g: Cidr)
    requires !IsLeaf(prefix) && UniqueIds(hosts) && g in Cidrs(hosts, Below(prefix)) && BucketKey(s, g) in ex
    requires LinksAre(own, {Link(parent, BucketKey(s, g))}, true)
    requires LinksAre(inner, InnerSteps(hosts, g, prefix, s, ex),
                      NullSafe(Group(hosts, g, Below(prefix)), Some(Below(prefix)), s, ex))
    ensures LinksAre(own + inner, {Link(parent, BucketKey(s, g))} + InnerSteps(hosts, g, prefix, s, ex),
                     NullSafe(hosts, prefix, s, ex))
  {
    var safe := NullSafe(hosts, prefix, s, ex);
    if safe {
      FreshLinks(hosts, {}, g, parent, prefix, s, ex);
    }
    hide Group, AllSteps, UniqueIds, NullSafe, Cidrs;
    assert LinksAre(own, {Link(parent, BucketKey(s, g))}, safe);
    assert LinksAre(inner, InnerSteps(hosts, g, prefix, s, ex), safe);
    LinksJoin(own, inner, {Link(parent, BucketKey(s, g))}, InnerSteps(hosts, g, prefix, s, ex), safe);
  }

  lemma JoinGroup(before: map<Key, Node>, mid: map<Key, Node>, after: map<Key, Node>, ls: seq<Link>, more: seq<Link>,
                  hosts: seq<Host>, gs: set<Cidr>, g: Cidr, parent: Key, prefix: Option<nat>, s: nat, ex: set<Key>)
    requires !IsLeaf(prefix) && UniqueIds(hosts) && g in Cidrs(hosts, Below(prefix)) && g !in gs
    requires Wrote(before, mid, ShownIn(hosts, gs, prefix, s, ex), hosts, prefix, s, ex)
    requires Wrote(mid, after, {BucketKey(s, g)} + InnerShown(hosts, g, prefix, s, ex), hosts, prefix, s, ex)
    requires LinksAre(ls, StepsIn(hosts, gs, parent, prefix, s, ex), NullSafe(hosts, prefix, s, ex))
    requires LinksAre(more, {Link(parent, BucketKey(s, g))} + InnerSteps(hosts, g, prefix, s, ex),
                      NullSafe(hosts, prefix, s, ex))
    ensures Wrote(before, after, ShownIn(hosts, gs + {g}, prefix, s, ex), hosts, prefix, s, ex)
    ensures LinksAre(ls + more, StepsIn(hosts, gs + {g}, parent, prefix, s, ex), NullSafe(hosts, prefix, s, ex))
  {
    hide NodeFor, AllSteps, AllShown, Group, NullSafe, UniqueIds, Cidrs, ShownIn, StepsIn, InnerShown, InnerSteps;
    OneMoreShown(hosts, gs, g, prefix, s, ex);
    OneMoreLinked(hosts, gs, g, parent, prefix, s, ex);
    var safe := NullSafe(hosts, prefix, s, ex);
    var a := StepsIn(hosts, gs, parent, prefix, s, ex);
    var b := {Link(parent, BucketKey(s, g))} + InnerSteps(hosts, g, prefix, s, ex);
    if safe { FreshLinks(hosts, gs, g, parent, prefix, s, ex); }
    LinksJoin(ls, more, a, b, safe);
    assert a + b == StepsIn(hosts, gs + {g}, parent, prefix, s, ex);
  }
}
