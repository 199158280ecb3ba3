/** The whole host graph after a `sync`: which nodes and links it holds, that no host is lost or counted
    twice, and exactly when its links form a forest. */
module GraphSync {
  import opened Listings
  import opened Options
  import opened Counting
  import opened BucketTree

  /** The subnets with their prefixes (none where the CIDR text has none), the collapsed subnets and the
      expanded buckets. */
  datatype View = View(prefixes: map<nat, Option<nat>>, collapsed: set<Key>, ex: set<Key>)

  predicate IsOpen(v: View, s: nat) {
    s in v.prefixes && SubnetKey(s) !in v.collapsed
  }

  ghost function WayOf(v: View, h: Host): set<Key> {
    if IsOpen(v, h.subnet) then Shown(h, v.prefixes[h.subnet], h.subnet, v.ex) else {}
  }

  ghost function LinksOf(v: View, h: Host): set<Link> {
    if IsOpen(v, h.subnet) then Steps(h, SubnetKey(h.subnet), v.prefixes[h.subnet], h.subnet, v.ex) else {}
  }

  ghost predicate Under(v: View, h: Host, k: Key) {
    if k.SubnetKey? then h.subnet == k.id else k in WayOf(v, h)
  }

  ghost function CountUnder(v: View, hosts: seq<Host>, k: Key): nat {
    if hosts == [] then 0 else CountUnder(v, hosts[..|hosts| - 1], k) + if Under(v, hosts[|hosts| - 1], k) then 1 else 0
  }

  ghost function NodeOf(v: View, hosts: seq<Host>, k: Key): Node {
    match k
    case SubnetKey(s) => Node(CountUnder(v, hosts, k), SubnetKey(s) !in v.collapsed)
    case BucketKey(_, _) => Node(CountUnder(v, hosts, k), k in v.ex)
    case HostKey(_) => Node(0, false)
  }

  ghost function SubnetKeys(subnets: set<nat>): set<Key> {
    set s | s in subnets :: SubnetKey(s)
  }

  /** The keys and links on the ways of the hosts of some subnets. */
  ghost function WaysIn(v: View, hosts: seq<Host>, subnets: set<nat>): set<Key> {
    set h, k | h in hosts && h.subnet in subnets && k in WayOf(v, h) :: k
  }

  ghost function LinksIn(v: View, hosts: seq<Host>, subnets: set<nat>): set<Link> {
    set h, l | h in hosts && h.subnet in subnets && l in LinksOf(v, h) :: l
  }

  ghost function Visible(v: View, hosts: seq<Host>): set<Key> {
    SubnetKeys(v.prefixes.Keys) + WaysIn(v, hosts, v.prefixes.Keys)
  }

  function HostsOf(hosts: seq<Host>, s: nat): seq<Host> {
    if hosts == [] then []
    else HostsOf(hosts[..|hosts| - 1], s) + if hosts[|hosts| - 1].subnet == s then [hosts[|hosts| - 1]] else []
  }

  lemma {:induction false} InHostsOf(hosts: seq<Host>, s: nat, h: Host)
    ensures h in HostsOf(hosts, s) <==> h in hosts && h.subnet == s
  {
    if hosts != [] {
      assert hosts == hosts[..|hosts| - 1] + [hosts[|hosts| - 1]];
      InHostsOf(hosts[..|hosts| - 1], s, h);
    }
  }

  lemma {:induction false} HostsOfUnique(hosts: seq<Host>, s: nat)
    requires UniqueIds(hosts) && Distinct(hosts)
    ensures UniqueIds(HostsOf(hosts, s)) && Distinct(HostsOf(hosts, s))
  {
    forall h ensures h in HostsOf(hosts, s) ==> h in hosts { InHostsOf(hosts, s, h); }
    if hosts != [] {
      var init := hosts[..|hosts| - 1];
      assert hosts == init + [hosts[|hosts| - 1]];
      forall h ensures h in HostsOf(init, s) ==> h in init { InHostsOf(init, s, h); }
      HostsOfUnique(init, s);
      assert hosts[|hosts| - 1] !in init && hosts[|hosts| - 1] !in HostsOf(init, s);
    }
  }

  lemma {:induction false} SubnetSize(v: View, hosts: seq<Host>, s: nat)
    ensures |HostsOf(hosts, s)| == CountUnder(v, hosts, SubnetKey(s))
  {
    if hosts != [] { SubnetSize(v, hosts[..|hosts| - 1], s); }
  }

  lemma {:induction false} BucketUnder(v: View, hosts: seq<Host>, s: nat, k: Key)
    requires IsOpen(v, s) && k.BucketKey? && k.subnet == s
    ensures Showing(HostsOf(hosts, s), k, v.prefixes[s], s, v.ex) == CountUnder(v, hosts, k)
  {
    if hosts != [] {
      hide Shown;
      var init, h := hosts[..|hosts| - 1], hosts[|hosts| - 1];
      BucketUnder(v, init, s, k);
      if h.subnet == s {
        ShowingGrows(HostsOf(init, s), h, k, v.prefixes[s], s, v.ex);
      } else {
        assert HostsOf(init, s) + [] == HostsOf(init, s);
        if k in WayOf(v, h) { ShownSharesBits(h, v.prefixes[h.subnet], h.subnet, v.ex, k); }
      }
    }
  }

  /** What laying out one subnet wrote is what the whole view calls for. */
  lemma SubnetNodes(v: View, hosts: seq<Host>, s: nat, k: Key)
    requires IsOpen(v, s) && k in AllShown(HostsOf(hosts, s), v.prefixes[s], s, v.ex)
    ensures NodeFor(k, HostsOf(hosts, s), v.prefixes[s], s, v.ex) == NodeOf(v, hosts, k)
  {
    hide Shown;
    var h :| h in HostsOf(hosts, s) && k in Shown(h, v.prefixes[s], s, v.ex);
    ShownSharesBits(h, v.prefixes[s], s, v.ex, k);
    if k.BucketKey? { BucketUnder(v, hosts, s, k); }
  }

  lemma OneMoreSubnet(v: View, hosts: seq<Host>, done: set<nat>, s: nat)
    requires s in v.prefixes
    ensures WaysIn(v, hosts, done + {s}) ==
            WaysIn(v, hosts, done) + if IsOpen(v, s) then AllShown(HostsOf(hosts, s), v.prefixes[s], s, v.ex) else {}
    ensures LinksIn(v, hosts, done + {s}) ==
            LinksIn(v, hosts, done) +
            if IsOpen(v, s) then AllSteps(HostsOf(hosts, s), SubnetKey(s), v.prefixes[s], s, v.ex) else {}
  {
    hide Shown, Steps;
    forall h ensures h in HostsOf(hosts, s) <==> h in hosts && h.subnet == s { InHostsOf(hosts, s, h); }
    hide HostsOf;
    var here := if IsOpen(v, s) then AllShown(HostsOf(hosts, s), v.prefixes[s], s, v.ex) else {};
    forall k ensures k in WaysIn(v, hosts, done + {s}) <==> k in WaysIn(v, hosts, done) || k in here {
      if k in WaysIn(v, hosts, done + {s}) {
        var h :| h in hosts && h.subnet in done + {s} && k in WayOf(v, h);
        if h.subnet == s { assert h in HostsOf(hosts, s); }
      }
      if k in here {
        var h :| h in HostsOf(hosts, s) && k in Shown(h, v.prefixes[s], s, v.ex);
        assert k in WayOf(v, h);
      }
    }
    var linksHere := if IsOpen(v, s) then AllSteps(HostsOf(hosts, s), SubnetKey(s), v.prefixes[s], s, v.ex) else {};
    forall l ensures l in LinksIn(v, hosts, done + {s}) <==> l in LinksIn(v, hosts, done) || l in linksHere {
      if l in LinksIn(v, hosts, done + {s}) {
        var h :| h in hosts && h.subnet in done + {s} && l in LinksOf(v, h);
        if h.subnet == s { assert h in HostsOf(hosts, s); }
      }
      if l in linksHere {
        var h :| h in HostsOf(hosts, s) && l in Steps(h, SubnetKey(s), v.prefixes[s], s, v.ex);
        assert l in LinksOf(v, h);
      }
    }
  }

  /** No null bucket opens into itself in any open subnet. */
  ghost predicate Safe(v: View, hosts: seq<Host>) {
    forall s | IsOpen(v, s) :: NullSafe(HostsOf(hosts, s), v.prefixes[s], s, v.ex)
  }

  lemma ChildNamesSubnet(v: View, h: Host, l: Link)
    requires l in LinksOf(v, h)
    ensures (l.b.BucketKey? && l.b.subnet == h.subnet) || l.b == HostKey(h.id)
    ensures l.b in WayOf(v, h)
  {
    StepsLeadToShown(h, SubnetKey(h.subnet), v.prefixes[h.subnet], h.subnet, v.ex, l);
    ShownSharesBits(h, v.prefixes[h.subnet], h.subnet, v.ex, l.b);
  }

  lemma SubnetLinksApart(v: View, hosts: seq<Host>, done: set<nat>, s: nat)
    requires UniqueIds(hosts) && IsOpen(v, s) && s !in done
    ensures LinksIn(v, hosts, done) !! AllSteps(HostsOf(hosts, s), SubnetKey(s), v.prefixes[s], s, v.ex)
  {
    hide Steps, WayOf;
    forall l | l in LinksIn(v, hosts, done)
      ensures l !in AllSteps(HostsOf(hosts, s), SubnetKey(s), v.prefixes[s], s, v.ex)
    {
      var h :| h in hosts && h.subnet in done && l in LinksOf(v, h);
      ChildNamesSubnet(v, h, l);
      if l in AllSteps(HostsOf(hosts, s), SubnetKey(s), v.prefixes[s], s, v.ex) {
        var g :| g in HostsOf(hosts, s) && l in Steps(g, SubnetKey(s), v.prefixes[s], s, v.ex);
        InHostsOf(hosts, s, g);
        ChildNamesSubnet(v, g, l);
      }
    }
  }

  // ---- the loop over subnets ----

  /** Every node written so far is the one the view calls for. */
  ghost predicate Drawn(v: View, hosts: seq<Host>, nodes: map<Key, Node>, done: set<nat>) {
    && (forall s | s in v.prefixes :: SubnetKey(s) in nodes)
    && (forall k | k in SubnetKeys(done) + WaysIn(v, hosts, done) :: k in nodes && nodes[k] == NodeOf(v, hosts, k))
  }

  lemma SubnetDrawn(v: View, hosts: seq<Host>, s: nat)
    requires IsOpen(v, s)
    ensures forall k | k in AllShown(HostsOf(hosts, s), v.prefixes[s], s, v.ex) ::
              NodeFor(k, HostsOf(hosts, s), v.prefixes[s], s, v.ex) == NodeOf(v, hosts, k) && !k.SubnetKey?
  {
    hide AllShown, HostsOf, NodeFor, NodeOf;
    forall k | k in AllShown(HostsOf(hosts, s), v.prefixes[s], s, v.ex)
      ensures NodeFor(k, HostsOf(hosts, s), v.prefixes[s], s, v.ex) == NodeOf(v, hosts, k) && !k.SubnetKey?
    {
      SubnetNodes(v, hosts, s, k);
      NotASubnet(HostsOf(hosts, s), v.prefixes[s], s, v.ex, k);
    }
  }

  lemma DrawnOneMore(v: View, hosts: seq<Host>, before: map<Key, Node>, after: map<Key, Node>, done: set<nat>, s: nat)
    requires s in v.prefixes && Drawn(v, hosts, before, done)
    requires var mid := before[SubnetKey(s) := NodeOf(v, hosts, SubnetKey(s))];
             if IsOpen(v, s)
             then Wrote(mid, after, AllShown(HostsOf(hosts, s), v.prefixes[s], s, v.ex), HostsOf(hosts, s),
                        v.prefixes[s], s, v.ex)
             else after == mid
    ensures Drawn(v, hosts, after, done + {s})
  {
    hide NodeOf, NodeFor, AllShown, WaysIn, LinksIn, HostsOf, AllSteps;
    OneMoreSubnet(v, hosts, done, s);
    if IsOpen(v, s) { SubnetDrawn(v, hosts, s); }
  }

  lemma NotASubnet(hosts: seq<Host>, prefix: Option<nat>, s: nat, ex: set<Key>, k: Key)
    requires k in AllShown(hosts, prefix, s, ex)
    ensures !k.SubnetKey?
  {
    hide Shown;
    var h :| h in hosts && k in Shown(h, prefix, s, ex);
    ShownSharesBits(h, prefix, s, ex, k);
  }

  lemma LinkedOneMore(v: View, hosts: seq<Host>, ls: seq<Link>, more: seq<Link>, done: set<nat>, s: nat)
    requires UniqueIds(hosts) && s in v.prefixes && s !in done && LinksAre(ls, LinksIn(v, hosts, done), Safe(v, hosts))
    requires if IsOpen(v, s)
      then LinksAre(more, AllSteps(HostsOf(hosts, s), SubnetKey(s), v.prefixes[s], s, v.ex),
                    NullSafe(HostsOf(hosts, s), v.prefixes[s], s, v.ex))
      else more == []
    ensures LinksAre(ls + more, LinksIn(v, hosts, done + {s}), Safe(v, hosts))
  {
    OneMoreSubnet(v, hosts, done, s);
    if IsOpen(v, s) {
      SubnetLinksApart(v, hosts, done, s);
      var safe := Safe(v, hosts);
      assert safe ==> NullSafe(HostsOf(hosts, s), v.prefixes[s], s, v.ex);
      hide AllSteps, HostsOf, LinksIn, NullSafe;
      LinksJoin(ls, more, LinksIn(v, hosts, done), AllSteps(HostsOf(hosts, s), SubnetKey(s), v.prefixes[s], s, v.ex),
                safe);
    } else {
      assert ls + more == ls;
    }
  }

  /** Main: after a sync the graph holds exactly the visible keys, each with its host count, and exactly
      the links of the hosts' ways. `subnets` lists the subnets in any order. */
  method Sync(graph: Graph, subnets: seq<nat>, hosts: seq<Host>, v: View)
    requires Lists(subnets, v.prefixes.Keys) && UniqueIds(hosts) && Distinct(hosts) && PlainHosts(graph.nodes)
    modifies graph
    ensures graph.nodes.Keys == Visible(v, hosts)
    ensures forall k | k in graph.nodes :: graph.nodes[k] == NodeOf(v, hosts, k)
    ensures LinksAre(graph.links, LinksIn(v, hosts, v.prefixes.Keys), Safe(v, hosts))
  {
    hide AllShown, AllSteps, WaysIn, LinksIn, LinksAre, Safe, NodeFor, UniqueIds, Distinct, HostsOf, CountUnder;
    hide Drawn, NullSafe, PlainHosts;
    var nextKeys: set<Key> := {};
    for i := 0 to |subnets|
      invariant nextKeys == (set j | 0 <= j < i :: SubnetKey(subnets[j])) && PlainHosts(graph.nodes)
      invariant forall j | 0 <= j < i :: SubnetKey(subnets[j]) in graph.nodes
    {
      var key := SubnetKey(subnets[i]);
      nextKeys := nextKeys + {key};
      if key !in graph.nodes {
        PlainPut(graph.nodes, key, Node(0, false));
        graph.nodes := graph.nodes[key := Node(0, false)];
      }
    }
    assert nextKeys == SubnetKeys(v.prefixes.Keys) by { ListedKeys(subnets, v.prefixes.Keys); }
    graph.links := [];
    ghost var done: set<nat> := {};
    NothingDrawn(v, hosts, graph.nodes, subnets);
    assert nextKeys + {} == nextKeys;
    for i := 0 to |subnets|
      invariant (forall s :: s in done <==> s in subnets[..i]) && PlainHosts(graph.nodes)
      invariant nextKeys == SubnetKeys(v.prefixes.Keys) + WaysIn(v, hosts, done)
      invariant Drawn(v, hosts, graph.nodes, done)
      invariant LinksAre(graph.links, LinksIn(v, hosts, done), Safe(v, hosts))
    {
      var s := subnets[i];
      assert subnets[..i + 1] == subnets[..i] + [s];
      ListedOnce(subnets, i, v.prefixes.Keys);
      OneMoreSubnet(v, hosts, done, s);
      ghost var before, linksBefore := graph.nodes, graph.links;
      var subnetHosts := HostsOf(hosts, s);
      SubnetSize(v, hosts, s);
      PlainPut(graph.nodes, SubnetKey(s), Node(|subnetHosts|, SubnetKey(s) !in v.collapsed));
      graph.nodes := graph.nodes[SubnetKey(s) := Node(|subnetHosts|, SubnetKey(s) !in v.collapsed)];
      ghost var more := [];
      if SubnetKey(s) !in v.collapsed {
        HostsOfUnique(hosts, s);
        nextKeys, more := graph.LayoutLevel(SubnetKey(s), subnetHosts, v.prefixes[s], s, nextKeys, v.ex);
      }
      assert graph.links == linksBefore + more;
      DrawnOneMore(v, hosts, before, graph.nodes, done, s);
      LinkedOneMore(v, hosts, linksBefore, more, done, s);
      done := done + {s};
    }
    assert done == v.prefixes.Keys by { ListedAll(subnets, done, v.prefixes.Keys); }
    graph.nodes := map k | k in graph.nodes && k in nextKeys :: graph.nodes[k];
    AllDrawn(v, hosts, graph.nodes, nextKeys);
  }

  lemma PlainPut(nodes: map<Key, Node>, k: Key, n: Node)
    requires PlainHosts(nodes) && !k.HostKey?
    ensures PlainHosts(nodes[k := n])
  {
  }

  lemma ListedKeys(subnets: seq<nat>, all: set<nat>)
    requires Lists(subnets, all)
    ensures (set j | 0 <= j < |subnets| :: SubnetKey(subnets[j])) == SubnetKeys(all)
  {
    forall s | s in all ensures SubnetKey(s) in (set j | 0 <= j < |subnets| :: SubnetKey(subnets[j])) {
      var j :| 0 <= j < |subnets| && subnets[j] == s;
    }
    assert forall j | 0 <= j < |subnets| :: subnets[j] in subnets;
  }

  lemma ListedOnce(subnets: seq<nat>, i: nat, all: set<nat>)
    requires Lists(subnets, all) && i < |subnets|
    ensures subnets[i] in all && subnets[i] !in subnets[..i]
  {
  }

  lemma ListedAll(subnets: seq<nat>, done: set<nat>, all: set<nat>)
    requires Lists(subnets, all) && forall s :: s in done <==> s in subnets[..|subnets|]
    ensures done == all
  {
    assert subnets[..|subnets|] == subnets;
  }

  lemma NothingDrawn(v: View, hosts: seq<Host>, nodes: map<Key, Node>, subnets: seq<nat>)
    requires Lists(subnets, v.prefixes.Keys) && forall j | 0 <= j < |subnets| :: SubnetKey(subnets[j]) in nodes
    ensures Drawn(v, hosts, nodes, {}) && WaysIn(v, hosts, {}) == {}
    ensures LinksAre([], LinksIn(v, hosts, {}), Safe(v, hosts))
  {
    hide WayOf, LinksOf, Safe;
    forall s | s in v.prefixes ensures SubnetKey(s) in nodes {
      var j :| 0 <= j < |subnets| && subnets[j] == s;
    }
  }

  lemma AllDrawn(v: View, hosts: seq<Host>, nodes: map<Key, Node>, keys: set<Key>)
    requires keys == SubnetKeys(v.prefixes.Keys) + WaysIn(v, hosts, v.prefixes.Keys)
    requires exists before ::
               Drawn(v, hosts, before, v.prefixes.Keys) && nodes == map k | k in before && k in keys :: before[k]
    ensures nodes.Keys == Visible(v, hosts) && forall k | k in nodes :: nodes[k] == NodeOf(v, hosts, k)
  {
    hide WaysIn, NodeOf;
  }

  // ---- which hosts are seen, and what a bucket counts ----

  /** Main: a host with an address is drawn if and only if its subnet is open and so is each of its octet
      buckets that is longer than the subnet's prefix; under a subnet of 24 bits or more, or of none, no
      bucket stands between. */
  lemma HostVisible(v: View, hosts: seq<Host>, h: Host)
    requires UniqueIds(hosts) && h in hosts && h.addr.Some? && h.subnet in v.prefixes
    ensures var p := v.prefixes[h.subnet];
            HostKey(h.id) in Visible(v, hosts) <==>
            && SubnetKey(h.subnet) !in v.collapsed
            && (p.Some? ==> OpenDown(h.subnet, h.addr.value, p.value, 32, v.ex))
  {
    hide Shown, OctetBucket;
    WayLaw(h, v.prefixes[h.subnet], h.subnet, v.ex);
    var k := HostKey(h.id);
    if k in Visible(v, hosts) {
      var g :| g in hosts && g.subnet in v.prefixes && k in WayOf(v, g);
      ShownSharesBits(g, v.prefixes[g.subnet], g.subnet, v.ex, k);
      assert g == h && k in WayOf(v, h);
    } else {
      assert k !in WaysIn(v, hosts, v.prefixes.Keys) && k !in WayOf(v, h);
    }
  }

  /** Main: a bucket that is drawn stands for exactly the hosts of its subnet whose address has its octets. */
  lemma BucketHolds(v: View, hosts: seq<Host>, s: nat, a: bv32, n: nat, g: Host)
    requires 1 <= n <= 3 && OctetBucket(s, a, n) in Visible(v, hosts)
    ensures Under(v, g, OctetBucket(s, a, n)) <==>
            g.subnet == s && g.addr.Some? && Leading(g.addr.value, n) == Leading(a, n)
  {
    hide Shown, Leading;
    var k := OctetBucket(s, a, n);
    if k in WayOf(v, g) {
      InOctets(g, v.prefixes[g.subnet], g.subnet, v.ex, s, a, n);
    } else {
      var h :| h in hosts && h.subnet in v.prefixes && k in WayOf(v, h);
      InOctets(h, v.prefixes[h.subnet], h.subnet, v.ex, s, a, n);
      if g.subnet == s && g.addr.Some? && Leading(g.addr.value, n) == Leading(a, n) {
        SameOctets(h, g, v.prefixes[s], s, v.ex, n);
      }
    }
  }

  lemma {:induction false} LinksStart(h: Host, parent: Key, prefix: Option<nat>, s: nat, ex: set<Key>, k: Key)
    requires k.BucketKey? && k != parent
    ensures k in Shown(h, prefix, s, ex) && k in ex <==> exists l :: l in Steps(h, parent, prefix, s, ex) && l.a == k
    decreases Rank(prefix)
  {
    hide NetworkCIDR;
    if !IsLeaf(prefix) {
      var first := BucketKey(s, NetworkCIDR(h, Below(prefix)));
      FirstLink(h, first, Some(Below(prefix)), s, ex);
      if k != first {
        LinksStart(h, first, Some(Below(prefix)), s, ex, k);
        assert forall l | l in Steps(h, parent, prefix, s, ex) && l.a == k ::
            l in Steps(h, first, Some(Below(prefix)), s, ex);
      }
    }
  }

  lemma FirstLink(h: Host, parent: Key, prefix: Option<nat>, s: nat, ex: set<Key>)
    ensures exists l :: l in Steps(h, parent, prefix, s, ex) && l.a == parent
  {
    var k := if IsLeaf(prefix) then HostKey(h.id) else BucketKey(s, NetworkCIDR(h, Below(prefix)));
    assert Link(parent, k) in Steps(h, parent, prefix, s, ex);
  }

  lemma {:induction false} CountedUnder(v: View, hosts: seq<Host>, h: Host, k: Key)
    requires h in hosts && Under(v, h, k)
    ensures CountUnder(v, hosts, k) > 0
  {
    if h != hosts[|hosts| - 1] {
      assert hosts == hosts[..|hosts| - 1] + [hosts[|hosts| - 1]];
      CountedUnder(v, hosts[..|hosts| - 1], h, k);
    }
  }

  lemma {:induction false} SomeUnder(v: View, hosts: seq<Host>, k: Key) returns (h: Host)
    requires CountUnder(v, hosts, k) > 0
    ensures h in hosts && Under(v, h, k)
  {
    h := hosts[|hosts| - 1];
    if !Under(v, h, k) {
      h := SomeUnder(v, hosts[..|hosts| - 1], k);
    }
  }

  lemma {:induction false} LinkSource(h: Host, parent: Key, prefix: Option<nat>, s: nat, ex: set<Key>, l: Link)
    requires l in Steps(h, parent, prefix, s, ex)
    ensures l.a == parent || l.a.BucketKey?
    decreases Rank(prefix)
  {
    hide NetworkCIDR;
    if !IsLeaf(prefix) {
      var k := BucketKey(s, NetworkCIDR(h, Below(prefix)));
      if l != Link(parent, k) { LinkSource(h, k, Some(Below(prefix)), s, ex, l); }
    }
  }

  lemma LinksOfKey(v: View, h: Host, k: Key)
    requires h.subnet in v.prefixes && !k.HostKey?
    ensures Under(v, h, k) && NodeOf(v, [], k).expanded <==> exists l :: l in LinksOf(v, h) && l.a == k
  {
    hide Shown, Steps;
    var p := v.prefixes[h.subnet];
    if k.BucketKey? {
      LinksStart(h, SubnetKey(h.subnet), p, h.subnet, v.ex, k);
    } else {
      FirstLink(h, SubnetKey(h.subnet), p, h.subnet, v.ex);
      forall l | l in LinksOf(v, h) && l.a == k ensures k.id == h.subnet {
        LinkSource(h, SubnetKey(h.subnet), p, h.subnet, v.ex, l);
      }
    }
  }

  /** Main: links lead down from a subnet or bucket exactly if it is marked as expanded and counts a host. */
  lemma ExpandedIffLinked(v: View, hosts: seq<Host>, k: Key)
    requires k in Visible(v, hosts) && !k.HostKey?
    ensures NodeOf(v, hosts, k).expanded && NodeOf(v, hosts, k).count > 0 <==>
            exists l :: l in LinksIn(v, hosts, v.prefixes.Keys) && l.a == k
  {
    hide WayOf, LinksOf;
    assert NodeOf(v, hosts, k).expanded == NodeOf(v, [], k).expanded;
    if NodeOf(v, hosts, k).expanded && NodeOf(v, hosts, k).count > 0 {
      var h := SomeUnder(v, hosts, k);
      InAKnownSubnet(v, hosts, h, k);
      LinksOfKey(v, h, k);
      var l :| l in LinksOf(v, h) && l.a == k;
      assert l in LinksIn(v, hosts, v.prefixes.Keys);
    }
    if l :| l in LinksIn(v, hosts, v.prefixes.Keys) && l.a == k {
      var h :| h in hosts && h.subnet in v.prefixes && l in LinksOf(v, h);
      LinksOfKey(v, h, k);
      CountedUnder(v, hosts, h, k);
    }
  }

  lemma InAKnownSubnet(v: View, hosts: seq<Host>, h: Host, k: Key)
    requires Under(v, h, k) && k in Visible(v, hosts)
    ensures h.subnet in v.prefixes
  {
    hide Shown;
    if k.SubnetKey? && k in WaysIn(v, hosts, v.prefixes.Keys) {
      var g :| g in hosts && g.subnet in v.prefixes && k in WayOf(v, g);
      ShownSharesBits(g, v.prefixes[g.subnet], g.subnet, v.ex, k);
    }
  }

  // ---- conservation ----

  /** The key at which a host's way ends: itself, the first closed bucket, or its collapsed subnet. */
  ghost function StopIn(h: Host, prefix: Option<nat>, s: nat, ex: set<Key>): Key
    decreases Rank(prefix)
  {
    if IsLeaf(prefix) then HostKey(h.id)
    else
      var k := BucketKey(s, NetworkCIDR(h, Below(prefix)));
      if k in ex then StopIn(h, Some(Below(prefix)), s, ex) else k
  }

  ghost function Stop(v: View, h: Host): Key
    requires h.subnet in v.prefixes
  {
    if SubnetKey(h.subnet) in v.collapsed then SubnetKey(h.subnet)
    else StopIn(h, v.prefixes[h.subnet], h.subnet, v.ex)
  }

  /** A node that stands for hosts rather than opening onto them. */
  ghost predicate IsEnd(v: View, k: Key) {
    match k case SubnetKey(_) => k in v.collapsed case BucketKey(_, _) => k !in v.ex case HostKey(_) => true
  }

  lemma {:induction false} EndsIn(h: Host, prefix: Option<nat>, s: nat, ex: set<Key>, k: Key)
    requires k.HostKey? || (k.BucketKey? && k !in ex)
    ensures k in Shown(h, prefix, s, ex) <==> StopIn(h, prefix, s, ex) == k
    ensures StopIn(h, prefix, s, ex) in Shown(h, prefix, s, ex)
    ensures var e := StopIn(h, prefix, s, ex); e.HostKey? || (e.BucketKey? && e !in ex)
    decreases Rank(prefix)
  {
    hide NetworkCIDR;
    if !IsLeaf(prefix) { EndsIn(h, Some(Below(prefix)), s, ex, k); }
  }

  /** A host is under an end node exactly if its way stops there. */
  lemma UnderEnd(v: View, h: Host, k: Key)
    requires h.subnet in v.prefixes && IsEnd(v, k)
    ensures Under(v, h, k) <==> Stop(v, h) == k
    ensures IsEnd(v, Stop(v, h)) && Under(v, h, Stop(v, h))
  {
    EndsIn(h, v.prefixes[h.subnet], h.subnet, v.ex, if k.SubnetKey? then HostKey(0) else k);
  }

  /** The host itself, or the number shown on the node. */
  function Weight(nodes: map<Key, Node>, k: Key): nat
    requires k in nodes
  {
    if k.HostKey? then 1 else nodes[k].count
  }

  ghost function CountStops(v: View, hosts: seq<Host>, k: Key): nat {
    if hosts == [] then 0
    else
      var h := hosts[|hosts| - 1];
      CountStops(v, hosts[..|hosts| - 1], k) + if h.subnet in v.prefixes && Stop(v, h) == k then 1 else 0
  }

  function InSubnets(v: View, hosts: seq<Host>): nat {
    if hosts == [] then 0
    else InSubnets(v, hosts[..|hosts| - 1]) + if hosts[|hosts| - 1].subnet in v.prefixes then 1 else 0
  }

  ghost function StopCounts(v: View, hosts: seq<Host>, ends: seq<Key>): seq<nat> {
    seq(|ends|, i requires 0 <= i < |ends| => CountStops(v, hosts, ends[i]))
  }

  lemma {:induction false} StopsPartition(v: View, hosts: seq<Host>, ends: seq<Key>)
    requires Distinct(ends) && forall h | h in hosts && h.subnet in v.prefixes :: Stop(v, h) in ends
    ensures Sum(StopCounts(v, hosts, ends)) == InSubnets(v, hosts)
  {
    hide Stop;
    if hosts == [] {
      var zero := StopCounts(v, hosts, ends);
      if Sum(zero) > 0 { SumNonzero(zero); }
    } else {
      var init, h := hosts[..|hosts| - 1], hosts[|hosts| - 1];
      assert hosts == init + [h] && h in hosts && forall x | x in init :: x in hosts;
      StopsPartition(v, init, ends);
      var before, after := StopCounts(v, init, ends), StopCounts(v, hosts, ends);
      if h.subnet in v.prefixes {
        var i :| 0 <= i < |ends| && ends[i] == Stop(v, h);
        assert after == before[i := before[i] + 1];
        SumUpdate(before, i, before[i] + 1);
      } else {
        assert after == before;
      }
    }
  }

  lemma {:induction false} UnderIsStops(v: View, hosts: seq<Host>, k: Key)
    requires IsEnd(v, k) && (k.SubnetKey? ==> k.id in v.prefixes)
    ensures CountUnder(v, hosts, k) == CountStops(v, hosts, k)
  {
    if hosts != [] {
      var h := hosts[|hosts| - 1];
      UnderIsStops(v, hosts[..|hosts| - 1], k);
      if h.subnet in v.prefixes { UnderEnd(v, h, k); }
    }
  }

  lemma {:induction false} OneHost(v: View, hosts: seq<Host>, h: Host)
    requires Distinct(hosts) && UniqueIds(hosts) && HostKey(h.id) in WayOf(v, h)
    ensures CountUnder(v, hosts, HostKey(h.id)) == if h in hosts then 1 else 0
    requires forall g | g in hosts && g.id == h.id :: g == h
  {
    if hosts != [] {
      hide Shown;
      var init, g := hosts[..|hosts| - 1], hosts[|hosts| - 1];
      assert hosts == init + [g] && g !in init && forall x | x in init :: x in hosts;
      OneHost(v, init, h);
      if HostKey(h.id) in WayOf(v, g) {
        ShownSharesBits(g, v.prefixes[g.subnet], g.subnet, v.ex, HostKey(h.id));
      }
    }
  }

  /** An end node weighs as many hosts as stop at it. */
  lemma WeightIsStops(v: View, hosts: seq<Host>, nodes: map<Key, Node>, k: Key)
    requires UniqueIds(hosts) && Distinct(hosts) && nodes.Keys == Visible(v, hosts)
    requires (forall j | j in nodes :: nodes[j] == NodeOf(v, hosts, j)) && k in nodes && IsEnd(v, k)
    ensures Weight(nodes, k) == CountStops(v, hosts, k)
  {
    hide Shown, StopIn;
    if k in WaysIn(v, hosts, v.prefixes.Keys) {
      var h :| h in hosts && h.subnet in v.prefixes && k in WayOf(v, h);
      ShownSharesBits(h, v.prefixes[h.subnet], h.subnet, v.ex, k);
    }
    UnderIsStops(v, hosts, k);
    if k.HostKey? {
      var h :| h in hosts && h.subnet in v.prefixes && k in WayOf(v, h);
      ShownSharesBits(h, v.prefixes[h.subnet], h.subnet, v.ex, k);
      OneHost(v, hosts, h);
    }
  }

  function Weights(nodes: map<Key, Node>, ends: seq<Key>): seq<nat>
    requires forall k | k in ends :: k in nodes
  {
    seq(|ends|, i requires 0 <= i < |ends| => Weight(nodes, ends[i]))
  }

  /** Main: whatever is expanded or collapsed, visible hosts plus the counts on closed buckets and
      collapsed subnets add up to the number of hosts in the subnets shown. */
  lemma NoHostLost(v: View, hosts: seq<Host>, nodes: map<Key, Node>, ends: seq<Key>)
    requires UniqueIds(hosts) && Distinct(hosts) && nodes.Keys == Visible(v, hosts)
    requires forall k | k in nodes :: nodes[k] == NodeOf(v, hosts, k)
    requires Lists(ends, set k | k in nodes && IsEnd(v, k))
    ensures Sum(Weights(nodes, ends)) == InSubnets(v, hosts)
  {
    forall h | h in hosts && h.subnet in v.prefixes ensures Stop(v, h) in ends {
      UnderEnd(v, h, HostKey(h.id));
      assert Stop(v, h) in Visible(v, hosts);
    }
    StopsPartition(v, hosts, ends);
    forall i | 0 <= i < |ends| ensures ends[i] in nodes && IsEnd(v, ends[i]) { assert ends[i] in ends; }
    forall i | 0 <= i < |ends| ensures Weight(nodes, ends[i]) == CountStops(v, hosts, ends[i]) {
      assert ends[i] in ends;
      WeightIsStops(v, hosts, nodes, ends[i]);
    }
    assert Weights(nodes, ends) == StopCounts(v, hosts, ends);
  }

  // ---- the forest ----

  function Level(k: Key): nat {
    match k
    case SubnetKey(_) => 0
    case BucketKey(_, NullCidr) => 1
    case BucketKey(_, Cidr(_, p)) => 2 + p
    case HostKey(_) => 35
  }

  /** Links go down a level, every key but a subnet's has exactly one link into it, and none repeats. */
  ghost predicate Forest(keys: set<Key>, links: seq<Link>) {
    && Distinct(links)
    && (forall l | l in links :: l.a in keys && l.b in keys && !l.b.SubnetKey? && Level(l.a) < Level(l.b))
    && (forall k | k in keys && !k.SubnetKey? :: exists l :: l in links && l.b == k)
    && (forall l, m | l in links && m in links && l.b == m.b :: l == m)
  }

  ghost predicate HostSafe(h: Host, prefix: Option<nat>, s: nat, ex: set<Key>) {
    IsLeaf(prefix) || prefix.value >= 16 || BucketKey(s, NullCidr) !in ex || h.addr.Some?
  }

  /** The parent lies above the first key of the host's way. */
  ghost predicate Above(parent: Key, h: Host, prefix: Option<nat>, s: nat) {
    Level(parent) < if IsLeaf(prefix) then 35 else Level(BucketKey(s, NetworkCIDR(h, Below(prefix))))
  }

  lemma {:induction false} StepShape(h: Host, parent: Key, prefix: Option<nat>, s: nat, ex: set<Key>, l: Link)
    requires l in Steps(h, parent, prefix, s, ex) && HostSafe(h, prefix, s, ex) && Above(parent, h, prefix, s)
    ensures Level(l.a) < Level(l.b) && (l.a == parent || l.a in Shown(h, prefix, s, ex))
    decreases Rank(prefix)
  {
    if !IsLeaf(prefix) {
      var k := BucketKey(s, NetworkCIDR(h, Below(prefix)));
      if l != Link(parent, k) { StepShape(h, k, Some(Below(prefix)), s, ex, l); }
    }
  }

  lemma {:induction false} SomeStep(h: Host, parent: Key, prefix: Option<nat>, s: nat, ex: set<Key>, k: Key)
    requires k in Shown(h, prefix, s, ex)
    ensures exists l :: l in Steps(h, parent, prefix, s, ex) && l.b == k
    decreases Rank(prefix)
  {
    hide NetworkCIDR;
    if IsLeaf(prefix) {
      assert Link(parent, k) in Steps(h, parent, prefix, s, ex);
    } else {
      var first := BucketKey(s, NetworkCIDR(h, Below(prefix)));
      assert Link(parent, first) in Steps(h, parent, prefix, s, ex);
      if k != first { SomeStep(h, first, Some(Below(prefix)), s, ex, k); }
    }
  }

  lemma {:induction false} SameStep(h: Host, h': Host, parent: Key, prefix: Option<nat>, s: nat, ex: set<Key>,
                                    l: Link, m: Link)
    requires l in Steps(h, parent, prefix, s, ex) && m in Steps(h', parent, prefix, s, ex) && l.b == m.b
    requires HostSafe(h, prefix, s, ex) && HostSafe(h', prefix, s, ex) && (h.id == h'.id ==> h == h')
    ensures l == m
    decreases Rank(prefix)
  {
    if !IsLeaf(prefix) {
      StepsLeadToShown(h, parent, prefix, s, ex, l);
      StepsLeadToShown(h', parent, prefix, s, ex, m);
      SharedKeySharesGroup(h, h', prefix, s, ex, l.b);
      var c := Some(Below(prefix));
      var k := BucketKey(s, NetworkCIDR(h, Below(prefix)));
      if l != Link(parent, k) && m != Link(parent, k) {
        SameStep(h, h', k, c, s, ex, l, m);
      } else if l != m {
        var g, inner := if l == Link(parent, k) then h' else h, if l == Link(parent, k) then m else l;
        StepsLeadToShown(g, k, c, s, ex, inner);
        ShownSharesBits(g, c, s, ex, k);
      }
    }
  }

  lemma SafeHost(v: View, hosts: seq<Host>, h: Host)
    requires Safe(v, hosts) && h in hosts && IsOpen(v, h.subnet)
    ensures HostSafe(h, v.prefixes[h.subnet], h.subnet, v.ex) &&
            Above(SubnetKey(h.subnet), h, v.prefixes[h.subnet], h.subnet)
  {
    InHostsOf(hosts, h.subnet, h);
  }

  lemma SafeIsForest(v: View, hosts: seq<Host>, links: seq<Link>)
    requires UniqueIds(hosts) && Safe(v, hosts) && LinksAre(links, LinksIn(v, hosts, v.prefixes.Keys), true)
    ensures Forest(Visible(v, hosts), links)
  {
    hide Shown, Steps, HostSafe, Above, Safe, Level, NetworkCIDR;
    forall l | l in links
      ensures l.a in Visible(v, hosts) && l.b in Visible(v, hosts) && !l.b.SubnetKey? && Level(l.a) < Level(l.b)
    {
      var h :| h in hosts && h.subnet in v.prefixes && l in LinksOf(v, h);
      SafeHost(v, hosts, h);
      ChildNamesSubnet(v, h, l);
      StepShape(h, SubnetKey(h.subnet), v.prefixes[h.subnet], h.subnet, v.ex, l);
    }
    forall k | k in Visible(v, hosts) && !k.SubnetKey? ensures exists l :: l in links && l.b == k {
      var h :| h in hosts && h.subnet in v.prefixes && k in WayOf(v, h);
      SomeStep(h, SubnetKey(h.subnet), v.prefixes[h.subnet], h.subnet, v.ex, k);
      var l :| l in Steps(h, SubnetKey(h.subnet), v.prefixes[h.subnet], h.subnet, v.ex) && l.b == k;
      assert l in LinksOf(v, h);
    }
    forall l, m | l in links && m in links && l.b == m.b ensures l == m {
      var h :| h in hosts && h.subnet in v.prefixes && l in LinksOf(v, h);
      var g :| g in hosts && g.subnet in v.prefixes && m in LinksOf(v, g);
      ChildNamesSubnet(v, h, l);
      ChildNamesSubnet(v, g, m);
      assert h.subnet == g.subnet;
      SafeHost(v, hosts, h);
      SafeHost(v, hosts, g);
      SameStep(h, g, SubnetKey(h.subnet), v.prefixes[h.subnet], h.subnet, v.ex, l, m);
    }
  }

  /** Main: the links form a forest if and only if no open subnet with a prefix below 16 has an
      addressless host while its null bucket is expanded; that bucket would be linked to itself. */
  lemma ForestIffSafe(v: View, hosts: seq<Host>, links: seq<Link>)
    requires UniqueIds(hosts) && LinksAre(links, LinksIn(v, hosts, v.prefixes.Keys), Safe(v, hosts))
    ensures Forest(Visible(v, hosts), links) <==> Safe(v, hosts)
  {
    if Safe(v, hosts) {
      SafeIsForest(v, hosts, links);
    } else {
      var s :| IsOpen(v, s) && !NullSafe(HostsOf(hosts, s), v.prefixes[s], s, v.ex);
      var h :| h in HostsOf(hosts, s) && h.addr.None?;
      InHostsOf(hosts, s, h);
      var k := BucketKey(s, NullCidr);
      SelfLink(h, SubnetKey(s), v.prefixes[s], s, v.ex);
      assert Link(k, k) in LinksOf(v, h);
      assert Link(k, k) in links;
    }
  }

  /** A graph that is no forest: prefix 8, one host without an address, and its null bucket expanded. */
  lemma NullBucketInItself()
    ensures var null_ := BucketKey(1, NullCidr);
            var v, hosts := View(map[1 := Some(8)], {}, {null_}), [Host(7, 1, None)];
            && UniqueIds(hosts) && !Safe(v, hosts) && Link(null_, null_) in LinksIn(v, hosts, v.prefixes.Keys)
            && forall links | LinksAre(links, LinksIn(v, hosts, v.prefixes.Keys), false) ::
                !Forest(Visible(v, hosts), links)
  {
    var null_ := BucketKey(1, NullCidr);
    var v, hosts := View(map[1 := Some(8)], {}, {null_}), [Host(7, 1, None)];
    assert hosts[..|hosts| - 1] == [];
    assert HostsOf(hosts, 1) == hosts && hosts[0] in hosts && IsOpen(v, 1);
    assert !NullSafe(hosts, v.prefixes[1], 1, v.ex);
    SelfLink(hosts[0], SubnetKey(1), v.prefixes[1], 1, v.ex);
    assert Link(null_, null_) in LinksOf(v, hosts[0]);
    forall links | LinksAre(links, LinksIn(v, hosts, v.prefixes.Keys), false)
      ensures !Forest(Visible(v, hosts), links)
    {
      ForestIffSafe(v, hosts, links);
    }
  }

  lemma SelfLink(h: Host, parent: Key, prefix: Option<nat>, s: nat, ex: set<Key>)
    requires !IsLeaf(prefix) && prefix.value < 16 && h.addr.None? && BucketKey(s, NullCidr) in ex
    ensures Link(BucketKey(s, NullCidr), BucketKey(s, NullCidr)) in Steps(h, parent, prefix, s, ex)
  {
    var k := BucketKey(s, NullCidr);
    assert NetworkCIDR(h, Below(prefix)) == NullCidr && !IsLeaf(Some(Below(prefix)));
    assert Link(k, k) in Steps(h, k, Some(Below(prefix)), s, ex);
  }
}
